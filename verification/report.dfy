/**
 The printed status breakdown: one row per status, sorted by descending
 count, each with its percentage and a bar of `#` whose length is the
 percentage divided by 5 and truncated. The text layout itself (padding,
 rules, one-decimal rounding) is not modelled.
 */
module Report {
  import opened Tally
  import opened Percentages

  datatype Row = Row(entry: Entry, percent: real, bar: int)

  /** Python's `int()` on a float: truncation toward zero. */
  function Truncate(x: real): (n: int)
    ensures 0.0 <= x ==> 0 <= n && n as real <= x < n as real + 1.0
    ensures x < 0.0 ==> n <= 0 && n as real - 1.0 < x <= n as real
  {
    if x >= 0.0 then x.Floor else -((-x).Floor)
  }

  /** The number of `#` characters drawn for a percentage: one per full 5 percent, at most 20. */
  function BarLength(percent: real): (n: int)
    ensures 0.0 <= percent ==> 0 <= n && 5.0 * (n as real) <= percent < 5.0 * (n as real) + 5.0
    ensures 0.0 <= percent <= 100.0 ==> n <= 20
  {
    Truncate(percent / 5.0)
  }

  /** The percentage recorded for `s`: a dictionary lookup that cannot miss. */
  function PercentOf(ps: seq<Share>, s: string): real
    requires s in ShareStatuses(ps)
  {
    if ps[0].status == s then ps[0].percent
    else
      assert s in ShareStatuses(ps[1..]) by {
        var i :| 0 <= i < |ps| && ps[i].status == s;
        assert ps[1..][i - 1] == ps[i];
      }
      PercentOf(ps[1..], s)
  }

  /** The rows for an already sorted tally, looking up each status's percentage. */
  function RowsOf(sorted: seq<Entry>, ps: seq<Share>): seq<Row>
    requires Statuses(sorted) <= ShareStatuses(ps)
  {
    if |sorted| == 0 then []
    else
      StatusesCons(sorted[0], sorted[1..]);
      assert sorted == [sorted[0]] + sorted[1..];
      var p := PercentOf(ps, sorted[0].status);
      [Row(sorted[0], p, BarLength(p))] + RowsOf(sorted[1..], ps)
  }

  /** One row per sorted entry, in order, each with its status's recorded percentage and the bar for it. */
  lemma {:induction false} RowsOfSpec(sorted: seq<Entry>, ps: seq<Share>)
    requires Statuses(sorted) <= ShareStatuses(ps)
    ensures |RowsOf(sorted, ps)| == |sorted|
    ensures forall i :: 0 <= i < |sorted| ==>
              && RowsOf(sorted, ps)[i].entry == sorted[i]
              && sorted[i].status in ShareStatuses(ps)
              && RowsOf(sorted, ps)[i].percent == PercentOf(ps, sorted[i].status)
              && RowsOf(sorted, ps)[i].bar == BarLength(RowsOf(sorted, ps)[i].percent)
  {
    if |sorted| > 0 {
      StatusesCons(sorted[0], sorted[1..]);
      assert sorted == [sorted[0]] + sorted[1..];
      RowsOfSpec(sorted[1..], ps);
      var rows := RowsOf(sorted, ps);
      forall i | 0 <= i < |sorted|
        ensures rows[i].entry == sorted[i] && sorted[i].status in ShareStatuses(ps)
        ensures rows[i].percent == PercentOf(ps, sorted[i].status) && rows[i].bar == BarLength(rows[i].percent)
      {
        if i > 0 {
          assert rows[i] == RowsOf(sorted[1..], ps)[i - 1];
          assert sorted[i] == sorted[1..][i - 1];
        }
      }
    }
  }

  /** The report rows: the tally sorted by descending count, stably. */
  function Rows(counts: seq<Entry>, ps: seq<Share>): (rows: seq<Row>)
    requires Statuses(counts) <= ShareStatuses(ps)
  {
    SortDescKeepsStatuses(counts);
    RowsOf(SortDesc(counts), ps)
  }

  /** The tally entries the rows show, top to bottom. */
  function RowEntries(rows: seq<Row>): seq<Entry>
  {
    seq(|rows|, i requires 0 <= i < |rows| => rows[i].entry)
  }

  /**
   The rows list the tally's entries in non-increasing order of count, as a
   permutation of the tally, so a repeat-free tally shows each status exactly
   once; every row carries its status's percentage and the matching bar.
   */
  lemma RowsSpec(counts: seq<Entry>, ps: seq<Share>)
    requires Statuses(counts) <= ShareStatuses(ps)
    ensures RowEntries(Rows(counts, ps)) == SortDesc(counts)
    ensures NonIncreasing(RowEntries(Rows(counts, ps)))
    ensures multiset(RowEntries(Rows(counts, ps))) == multiset(counts)
    ensures Statuses(RowEntries(Rows(counts, ps))) == Statuses(counts)
    ensures Distinct(counts) ==> Distinct(RowEntries(Rows(counts, ps)))
    ensures forall i :: 0 <= i < |Rows(counts, ps)| ==>
              var row := Rows(counts, ps)[i];
              row.entry.status in ShareStatuses(ps) && row.percent == PercentOf(ps, row.entry.status)
              && row.bar == BarLength(row.percent)
  {
    var rows := Rows(counts, ps);
    SortDescKeepsStatuses(counts);
    RowsOfSpec(SortDesc(counts), ps);
    assert RowEntries(rows) == SortDesc(counts);
    SortDescPermutes(counts);
    SortDescSorted(counts);
    if Distinct(counts) {
      SortDescKeepsCounts(counts);
    }
  }

  /** Looking a status up among the shares of a tally yields the percentage of that status's count. */
  lemma PercentOfShares(es: seq<Entry>, total: nat, s: string)
    requires total > 0 && s in Statuses(es)
    ensures s in ShareStatuses(Shares(es, total))
    ensures PercentOf(Shares(es, total), s) == Percent(Lookup(es, s), total)
  {
    SharesSpec(es, total);
    PercentOfAligned(es, Shares(es, total), total, s);
  }

  /** The same lookup through any share list that follows the tally position by position. */
  lemma {:induction false} PercentOfAligned(es: seq<Entry>, ps: seq<Share>, total: nat, s: string)
    requires total > 0 && s in Statuses(es) && |ps| == |es|
    requires forall i :: 0 <= i < |ps| ==> ps[i].status == es[i].status
    requires forall i :: 0 <= i < |ps| ==> ps[i].percent == Percent(es[i].count, total)
    ensures s in ShareStatuses(ps)
    ensures PercentOf(ps, s) == Percent(Lookup(es, s), total)
  {
    var i :| 0 <= i < |es| && es[i].status == s;
    assert ps[i].status == s;
    if es[0].status != s {
      assert es[1..][i - 1] == es[i];
      assert ps[1..][i - 1] == ps[i];
      PercentOfAligned(es[1..], ps[1..], total, s);
    }
  }

  /** The shares of a tally name exactly the tally's statuses. */
  lemma SharesStatuses(es: seq<Entry>, total: nat)
    requires |es| == 0 || total > 0
    ensures ShareStatuses(Shares(es, total)) == Statuses(es)
  {
    var ps := Shares(es, total);
    SharesSpec(es, total);
    forall s | s in Statuses(es) ensures s in ShareStatuses(ps) {
      var i :| 0 <= i < |es| && es[i].status == s;
      assert ps[i].status == s;
    }
    forall s | s in ShareStatuses(ps) ensures s in Statuses(es) {
      var i :| 0 <= i < |ps| && ps[i].status == s;
      assert es[i].status == s;
    }
  }

  /** A row of the report of a repeat-free tally shows its status's count and that count's percentage. */
  lemma RowOfShares(counts: seq<Entry>, total: nat, i: nat)
    requires total > 0 && Distinct(counts)
    requires Statuses(counts) <= ShareStatuses(Shares(counts, total))
    requires i < |Rows(counts, Shares(counts, total))|
    ensures var row := Rows(counts, Shares(counts, total))[i];
      && row.entry.status in Statuses(counts)
      && row.entry.count == Lookup(counts, row.entry.status)
      && row.percent == Percent(row.entry.count, total)
  {
    var ps := Shares(counts, total);
    var rows := Rows(counts, ps);
    var entries := RowEntries(rows);
    RowsSpec(counts, ps);
    SortDescKeepsCounts(counts);
    assert entries == SortDesc(counts);
    var s := rows[i].entry.status;
    assert entries[i] == rows[i].entry;
    assert s in Statuses(entries);
    LookupAt(entries, i);
    PercentOfShares(counts, total, s);
  }
}
