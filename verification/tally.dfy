/**
 The per-status tally that pandas' `value_counts()` produces for the Status
 column: one entry per distinct non-missing status, in non-increasing order
 of count. Python dictionaries keep insertion order, so the tally is an
 ordered sequence of entries rather than a map.
 */
module Tally {
  import opened Wrappers
  import opened Cells

  datatype Entry = Entry(status: string, count: nat)

  /** The statuses named by a tally. */
  function Statuses(es: seq<Entry>): set<string>
  {
    set i | 0 <= i < |es| :: es[i].status
  }

  /** No status is listed twice. */
  predicate Distinct(es: seq<Entry>)
  {
    forall i, j :: 0 <= i < j < |es| ==> es[i].status != es[j].status
  }

  /** Counts never grow along the sequence. */
  predicate NonIncreasing(es: seq<Entry>)
  {
    forall i, j :: 0 <= i < j < |es| ==> es[i].count >= es[j].count
  }

  /** The sum of all counts of a tally. */
  function SumCounts(es: seq<Entry>): nat
  {
    if |es| == 0 then 0 else es[0].count + SumCounts(es[1..])
  }

  /** The count listed for `s` (the first one, should there be several), or 0. */
  function Lookup(es: seq<Entry>, s: string): nat
  {
    if |es| == 0 then 0
    else if es[0].status == s then es[0].count
    else Lookup(es[1..], s)
  }

  /** `es` is a tally of `cells`: every distinct non-missing status listed once, with its number of occurrences. */
  ghost predicate IsTallyOf(es: seq<Entry>, cells: seq<Cell>)
  {
    && Distinct(es)
    && Statuses(es) == Present(cells)
    && forall i :: 0 <= i < |es| ==> es[i].count == Count(cells, es[i].status)
  }

  lemma StatusesCons(e: Entry, es: seq<Entry>)
    ensures Statuses([e] + es) == {e.status} + Statuses(es)
  {
    var xs := [e] + es;
    forall s | s in Statuses(es) ensures s in Statuses(xs) {
      var i :| 0 <= i < |es| && es[i].status == s;
      assert xs[i + 1] == es[i];
    }
    assert xs[0] == e;
  }

  lemma DistinctCons(e: Entry, es: seq<Entry>)
    ensures Distinct([e] + es) <==> e.status !in Statuses(es) && Distinct(es)
  {
    var xs := [e] + es;
    assert forall i :: 0 <= i < |es| ==> xs[i + 1] == es[i];
    if e.status in Statuses(es) {
      var i :| 0 <= i < |es| && es[i].status == e.status;
      assert xs[0].status == xs[i + 1].status;
    }
  }

  /** Records one more occurrence of `s`: its entry grows by one, or a new entry `s: 1` is appended. */
  function Bump(es: seq<Entry>, s: string): seq<Entry>
  {
    if |es| == 0 then [Entry(s, 1)]
    else if es[0].status == s then [Entry(s, es[0].count + 1)] + es[1..]
    else [es[0]] + Bump(es[1..], s)
  }

  /** Bumping adds `s` to the tally's statuses. */
  lemma {:induction false} BumpStatuses(es: seq<Entry>, s: string)
    ensures Statuses(Bump(es, s)) == Statuses(es) + {s}
  {
    if |es| == 0 {
      StatusesCons(Entry(s, 1), []);
    } else {
      StatusesCons(es[0], es[1..]);
      assert es == [es[0]] + es[1..];
      if es[0].status == s {
        StatusesCons(Entry(s, es[0].count + 1), es[1..]);
      } else {
        BumpStatuses(es[1..], s);
        StatusesCons(es[0], Bump(es[1..], s));
      }
    }
  }

  /** Bumping adds one to the total. */
  lemma {:induction false} BumpSum(es: seq<Entry>, s: string)
    ensures SumCounts(Bump(es, s)) == SumCounts(es) + 1
  {
    if |es| > 0 {
      var r := Bump(es, s);
      if es[0].status == s {
        assert r[1..] == es[1..];
      } else {
        BumpSum(es[1..], s);
        assert r[1..] == Bump(es[1..], s);
      }
    }
  }

  /** Bumping adds one to the count of `s` and leaves every other count alone. */
  lemma {:induction false} BumpLookup(es: seq<Entry>, s: string, x: string)
    ensures Lookup(Bump(es, s), x) == Lookup(es, x) + (if x == s then 1 else 0)
  {
    if |es| > 0 {
      var r := Bump(es, s);
      if es[0].status == s {
        assert r[1..] == es[1..];
      } else {
        BumpLookup(es[1..], s, x);
        assert r[1..] == Bump(es[1..], s);
      }
    }
  }

  /** Bumping never lists a status twice. */
  lemma {:induction false} BumpDistinct(es: seq<Entry>, s: string)
    requires Distinct(es)
    ensures Distinct(Bump(es, s))
  {
    if |es| > 0 {
      DistinctCons(es[0], es[1..]);
      StatusesCons(es[0], es[1..]);
      assert es == [es[0]] + es[1..];
      if es[0].status == s {
        DistinctCons(Entry(s, es[0].count + 1), es[1..]);
      } else {
        BumpDistinct(es[1..], s);
        BumpStatuses(es[1..], s);
        DistinctCons(es[0], Bump(es[1..], s));
      }
    }
  }

  /** Tallies the cells left to right, listing statuses in order of first appearance. */
  function FirstSeen(cells: seq<Cell>): seq<Entry>
  {
    if |cells| == 0 then []
    else
      var prev := FirstSeen(cells[..|cells| - 1]);
      match cells[|cells| - 1]
      case None => prev
      case Some(s) => Bump(prev, s)
  }

  /**
   The first-seen tally lists every present status exactly once, only present
   statuses, each with its number of occurrences, and its counts add up to the
   number of non-missing cells.
   */
  lemma {:induction false} FirstSeenTally(cells: seq<Cell>)
    ensures Distinct(FirstSeen(cells))
    ensures Statuses(FirstSeen(cells)) == Present(cells)
    ensures forall x :: Lookup(FirstSeen(cells), x) == Count(cells, x)
    ensures SumCounts(FirstSeen(cells)) == |Observed(cells)|
  {
    if |cells| == 0 {
      assert Statuses([]) == {};
      assert Present(cells) == {};
    } else {
      var prefix := cells[..|cells| - 1];
      var prev := FirstSeen(prefix);
      FirstSeenTally(prefix);
      match cells[|cells| - 1]
      case None =>
        assert Observed(cells) == Observed(prefix);
      case Some(s) =>
        assert Observed(cells) == Observed(prefix) + multiset{s};
        assert Present(cells) == Present(prefix) + {s};
        BumpStatuses(prev, s);
        BumpSum(prev, s);
        BumpDistinct(prev, s);
        forall x ensures Lookup(Bump(prev, s), x) == Count(cells, x) {
          BumpLookup(prev, s, x);
        }
    }
  }

  /** Places `e` before the first entry whose count does not exceed its own. */
  function Insert(e: Entry, xs: seq<Entry>): seq<Entry>
  {
    if |xs| == 0 || e.count >= xs[0].count then [e] + xs
    else [xs[0]] + Insert(e, xs[1..])
  }

  /** Inserting keeps every entry and adds the new one. */
  lemma {:induction false} InsertPermutes(e: Entry, xs: seq<Entry>)
    ensures multiset(Insert(e, xs)) == multiset(xs) + multiset{e}
  {
    if |xs| > 0 && e.count < xs[0].count {
      InsertPermutes(e, xs[1..]);
      assert xs == [xs[0]] + xs[1..];
    }
  }

  /** Inserting an entry under a bound into a tally under that bound stays under it. */
  lemma {:induction false} InsertBounded(e: Entry, xs: seq<Entry>, bound: nat)
    requires e.count <= bound
    requires forall k :: 0 <= k < |xs| ==> xs[k].count <= bound
    ensures forall k :: 0 <= k < |Insert(e, xs)| ==> Insert(e, xs)[k].count <= bound
  {
    if |xs| > 0 && e.count < xs[0].count {
      InsertBounded(e, xs[1..], bound);
      var rest := Insert(e, xs[1..]);
      assert Insert(e, xs) == [xs[0]] + rest;
    }
  }

  /** Inserting into a non-increasing tally keeps it non-increasing. */
  lemma {:induction false} InsertSorted(e: Entry, xs: seq<Entry>)
    requires NonIncreasing(xs)
    ensures NonIncreasing(Insert(e, xs))
  {
    if |xs| > 0 && e.count < xs[0].count {
      var tail := xs[1..];
      assert NonIncreasing(tail) by {
        forall i, j | 0 <= i < j < |tail| ensures tail[i].count >= tail[j].count {
          assert tail[i] == xs[i + 1] && tail[j] == xs[j + 1];
        }
      }
      forall k | 0 <= k < |tail| ensures tail[k].count <= xs[0].count {
        assert tail[k] == xs[k + 1];
      }
      var rest := Insert(e, tail);
      InsertSorted(e, tail);
      InsertBounded(e, tail, xs[0].count);
      var r := [xs[0]] + rest;
      assert Insert(e, xs) == r;
      forall i, j | 0 <= i < j < |r| ensures r[i].count >= r[j].count {
        assert r[j] == rest[j - 1];
        if i > 0 {
          assert r[i] == rest[i - 1];
        }
      }
    }
  }

  /**
   A stable sort by descending count: entries with equal counts keep their
   relative order, as Python's `sorted(..., reverse=True)` does.
   */
  function SortDesc(xs: seq<Entry>): seq<Entry>
  {
    if |xs| == 0 then [] else Insert(xs[0], SortDesc(xs[1..]))
  }

  /** Sorting is a permutation. */
  lemma {:induction false} SortDescPermutes(xs: seq<Entry>)
    ensures multiset(SortDesc(xs)) == multiset(xs)
  {
    if |xs| > 0 {
      SortDescPermutes(xs[1..]);
      InsertPermutes(xs[0], SortDesc(xs[1..]));
      assert xs == [xs[0]] + xs[1..];
    }
  }

  /** Sorting yields non-increasing counts. */
  lemma {:induction false} SortDescSorted(xs: seq<Entry>)
    ensures NonIncreasing(SortDesc(xs))
  {
    if |xs| > 0 {
      SortDescSorted(xs[1..]);
      InsertSorted(xs[0], SortDesc(xs[1..]));
    }
  }

  /** The entries whose count is `k`, in their order of appearance. */
  function WithCount(xs: seq<Entry>, k: nat): seq<Entry>
  {
    if |xs| == 0 then []
    else (if xs[0].count == k then [xs[0]] else []) + WithCount(xs[1..], k)
  }

  /**
   Inserting `e` only moves it past entries whose counts exceed its own, so
   among entries of any one count it lands exactly where prepending puts it.
   */
  lemma {:induction false} InsertWithCount(e: Entry, xs: seq<Entry>, k: nat)
    ensures WithCount(Insert(e, xs), k) == WithCount([e] + xs, k)
  {
    assert ([e] + xs)[1..] == xs;
    if |xs| > 0 && e.count < xs[0].count {
      var rest := Insert(e, xs[1..]);
      InsertWithCount(e, xs[1..], k);
      assert ([xs[0]] + rest)[1..] == rest;
      assert ([e] + xs[1..])[1..] == xs[1..];
      assert xs == [xs[0]] + xs[1..];
    }
  }

  /**
   The sort is stable: the entries sharing any one count come out in the
   order they went in.
   */
  lemma {:induction false} SortDescStable(xs: seq<Entry>, k: nat)
    ensures WithCount(SortDesc(xs), k) == WithCount(xs, k)
  {
    if |xs| > 0 {
      SortDescStable(xs[1..], k);
      InsertWithCount(xs[0], SortDesc(xs[1..]), k);
      assert ([xs[0]] + SortDesc(xs[1..]))[1..] == SortDesc(xs[1..]);
    }
  }

  /** Inserting an entry adds its status to the tally's statuses. */
  lemma {:induction false} InsertStatuses(e: Entry, xs: seq<Entry>)
    ensures Statuses(Insert(e, xs)) == Statuses(xs) + {e.status}
  {
    StatusesCons(e, xs);
    if |xs| > 0 && e.count < xs[0].count {
      var rest := Insert(e, xs[1..]);
      InsertStatuses(e, xs[1..]);
      StatusesCons(xs[0], xs[1..]);
      StatusesCons(xs[0], rest);
      assert xs == [xs[0]] + xs[1..];
    }
  }

  /** Inserting an entry adds its count to the total. */
  lemma {:induction false} InsertSum(e: Entry, xs: seq<Entry>)
    ensures SumCounts(Insert(e, xs)) == SumCounts(xs) + e.count
  {
    if |xs| > 0 && e.count < xs[0].count {
      InsertSum(e, xs[1..]);
      assert ([xs[0]] + Insert(e, xs[1..]))[1..] == Insert(e, xs[1..]);
    }
  }

  /** Inserting a new status into a repeat-free tally keeps it repeat-free. */
  lemma {:induction false} InsertDistinct(e: Entry, xs: seq<Entry>)
    requires Distinct(xs) && e.status !in Statuses(xs)
    ensures Distinct(Insert(e, xs))
  {
    DistinctCons(e, xs);
    if |xs| > 0 && e.count < xs[0].count {
      var rest := Insert(e, xs[1..]);
      StatusesCons(xs[0], xs[1..]);
      DistinctCons(xs[0], xs[1..]);
      assert xs == [xs[0]] + xs[1..];
      InsertDistinct(e, xs[1..]);
      InsertStatuses(e, xs[1..]);
      DistinctCons(xs[0], rest);
    }
  }

  /** After inserting a new status, it maps to its count and every other status is unchanged. */
  lemma {:induction false} InsertLookup(e: Entry, xs: seq<Entry>, x: string)
    requires e.status !in Statuses(xs)
    ensures Lookup(Insert(e, xs), x) == if x == e.status then e.count else Lookup(xs, x)
  {
    if |xs| > 0 && e.count < xs[0].count {
      StatusesCons(xs[0], xs[1..]);
      assert xs == [xs[0]] + xs[1..];
      InsertLookup(e, xs[1..], x);
      assert ([xs[0]] + Insert(e, xs[1..]))[1..] == Insert(e, xs[1..]);
    }
  }

  /** Sorting keeps the set of statuses. */
  lemma {:induction false} SortDescKeepsStatuses(xs: seq<Entry>)
    ensures Statuses(SortDesc(xs)) == Statuses(xs)
  {
    if |xs| > 0 {
      var rest := SortDesc(xs[1..]);
      SortDescKeepsStatuses(xs[1..]);
      InsertStatuses(xs[0], rest);
      StatusesCons(xs[0], xs[1..]);
      assert xs == [xs[0]] + xs[1..];
    }
  }

  /** Sorting keeps the sum of the counts. */
  lemma {:induction false} SortDescKeepsSum(xs: seq<Entry>)
    ensures SumCounts(SortDesc(xs)) == SumCounts(xs)
  {
    if |xs| > 0 {
      var rest := SortDesc(xs[1..]);
      SortDescKeepsSum(xs[1..]);
      InsertSum(xs[0], rest);
    }
  }

  /** Sorting a repeat-free tally keeps it repeat-free and keeps every status's count. */
  lemma {:induction false} SortDescKeepsCounts(xs: seq<Entry>)
    requires Distinct(xs)
    ensures Distinct(SortDesc(xs))
    ensures forall x :: Lookup(SortDesc(xs), x) == Lookup(xs, x)
  {
    if |xs| > 0 {
      StatusesCons(xs[0], xs[1..]);
      DistinctCons(xs[0], xs[1..]);
      assert xs == [xs[0]] + xs[1..];
      SortDescKeepsCounts(xs[1..]);
      SortDescKeepsStatuses(xs[1..]);
      InsertDistinct(xs[0], SortDesc(xs[1..]));
      forall x ensures Lookup(SortDesc(xs), x) == Lookup(xs, x) {
        InsertLookup(xs[0], SortDesc(xs[1..]), x);
      }
    }
  }

  /** pandas' `value_counts()` on the Status column. */
  function ValueCounts(cells: seq<Cell>): seq<Entry>
  {
    SortDesc(FirstSeen(cells))
  }

  /** In a tally without repeats, `Lookup` finds every entry's own count. */
  lemma {:induction false} LookupAt(es: seq<Entry>, i: nat)
    requires Distinct(es) && i < |es|
    ensures Lookup(es, es[i].status) == es[i].count
  {
    if i > 0 {
      DistinctCons(es[0], es[1..]);
      assert es == [es[0]] + es[1..];
      assert es[1..][i - 1] == es[i];
      assert es[0].status != es[i].status;
      LookupAt(es[1..], i - 1);
    }
  }

  /**
   The value count lists every distinct non-missing status exactly once, with
   its number of occurrences, in non-increasing order of count, and its counts
   add up to the number of non-missing cells.
   */
  lemma ValueCountsIsTally(cells: seq<Cell>)
    ensures IsTallyOf(ValueCounts(cells), cells)
    ensures NonIncreasing(ValueCounts(cells))
    ensures SumCounts(ValueCounts(cells)) + Missing(cells) == |cells|
  {
    var es := ValueCounts(cells);
    FirstSeenTally(cells);
    SortDescSorted(FirstSeen(cells));
    SortDescKeepsStatuses(FirstSeen(cells));
    SortDescKeepsSum(FirstSeen(cells));
    SortDescKeepsCounts(FirstSeen(cells));
    forall i | 0 <= i < |es| ensures es[i].count == Count(cells, es[i].status) {
      LookupAt(es, i);
    }
    ObservedPlusMissing(cells);
  }

  /** Every listed count is positive: only statuses that occur are tallied. */
  lemma TallyCountsPositive(es: seq<Entry>, cells: seq<Cell>)
    requires IsTallyOf(es, cells)
    ensures forall i :: 0 <= i < |es| ==> es[i].count > 0
  {
    forall i | 0 <= i < |es| ensures es[i].count > 0 {
      assert es[i].status in Statuses(es);
    }
  }

  /**
   The counts add up to the number of rows exactly when no Status cell is
   missing; otherwise they fall short of it.
   */
  lemma ValueCountsSum(cells: seq<Cell>)
    ensures SumCounts(ValueCounts(cells)) <= |cells|
    ensures SumCounts(ValueCounts(cells)) == |cells| <==> forall i :: 0 <= i < |cells| ==> cells[i].Some?
  {
    ValueCountsIsTally(cells);
    MissingZeroIff(cells);
  }

  /** Each count is bounded by the sum of counts. */
  lemma {:induction false} CountBelowSum(es: seq<Entry>, i: nat)
    requires i < |es|
    ensures es[i].count <= SumCounts(es)
  {
    if i > 0 {
      assert es[1..][i - 1] == es[i];
      CountBelowSum(es[1..], i - 1);
    }
  }

  /** Sorting an already non-increasing tally leaves it unchanged. */
  lemma {:induction false} SortDescOfSorted(xs: seq<Entry>)
    requires NonIncreasing(xs)
    ensures SortDesc(xs) == xs
  {
    if |xs| > 0 {
      SortDescOfSorted(xs[1..]);
      assert xs == [xs[0]] + xs[1..];
    }
  }
}
