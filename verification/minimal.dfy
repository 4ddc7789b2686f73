/**
 The minimal duplicate of `analyze_sprint_data`: it reads the table with no
 guard at all, takes `len(df)` as the total, and prints one breakdown line per
 entry of the Status value count.
 */
module Minimal {
  import opened Wrappers
  import opened Cells
  import opened Tally
  import opened Percentages
  import opened Validation
  import opened Analysis

  /** One printed breakdown line: status, count and percentage. */
  datatype Line = Line(status: string, count: nat, percent: real)

  /** The printed report: the total and the breakdown lines in order. */
  datatype Printout = Printout(totalTickets: nat, lines: seq<Line>)

  /** Indexing a table without a Status column raises a KeyError. */
  datatype KeyError = StatusKeyError

  /** The loop over the value count; the division runs once per entry, so an empty count divides nothing. */
  function Lines(es: seq<Entry>, total: nat): (ls: seq<Line>)
    requires |es| == 0 || total > 0
    ensures |ls| == |es|
    ensures forall i :: 0 <= i < |ls| ==>
              && ls[i].status == es[i].status
              && ls[i].count == es[i].count
              && total > 0 && ls[i].percent == Percent(es[i].count, total)
  {
    if |es| == 0 then []
    else [Line(es[0].status, es[0].count, Percent(es[0].count, total))] + Lines(es[1..], total)
  }

  /** A table without rows has an empty value count. */
  lemma NoRowsNoCounts(cells: seq<Cell>)
    ensures |cells| == 0 ==> ValueCounts(cells) == []
  {
  }

  /** The minimal analysis: no guard, so only a missing Status column stops it. */
  function MinimalAnalyze(t: Table): (r: Result<Printout, KeyError>)
    ensures r.Failure? <==> StatusColumn !in t.columns
    ensures r.Success? ==> r.value.totalTickets == |t.status|
  {
    if StatusColumn !in t.columns then Failure(StatusKeyError)
    else
      var total := |t.status|;
      var counts := ValueCounts(t.status);
      NoRowsNoCounts(t.status);
      Success(Printout(total, Lines(counts, total)))
  }

  /**
   Each distinct non-missing status gets exactly one line, carrying its number
   of occurrences and `count / total * 100`; a table without rows prints no
   line, so the division is never reached.
   */
  lemma MinimalLinesSpec(t: Table)
    requires StatusColumn in t.columns
    ensures var lines := MinimalAnalyze(t).value.lines;
      && (|t.status| == 0 ==> lines == [])
      && (forall i, j :: 0 <= i < j < |lines| ==> lines[i].status != lines[j].status)
      && (forall s :: s in Present(t.status) <==> exists i :: 0 <= i < |lines| && lines[i].status == s)
      && forall i :: 0 <= i < |lines| ==>
           && lines[i].count == Count(t.status, lines[i].status)
           && |t.status| > 0 && lines[i].percent == Percent(lines[i].count, |t.status|)
  {
    var lines := MinimalAnalyze(t).value.lines;
    NoRowsNoCounts(t.status);
    assert forall i, j :: 0 <= i < j < |lines| ==> lines[i].status != lines[j].status by {
      ValueCountsIsTally(t.status);
    }
    forall s ensures s in Present(t.status) <==> exists i :: 0 <= i < |lines| && lines[i].status == s {
      LineForEachStatus(t, s);
    }
    forall i | 0 <= i < |lines| ensures lines[i].count == Count(t.status, lines[i].status) {
      ValueCountsIsTally(t.status);
    }
  }

  /** A status has a line exactly when it occurs in the Status column. */
  lemma LineForEachStatus(t: Table, s: string)
    requires StatusColumn in t.columns
    ensures var lines := MinimalAnalyze(t).value.lines;
      s in Present(t.status) <==> exists i :: 0 <= i < |lines| && lines[i].status == s
  {
    var counts := ValueCounts(t.status);
    var lines := MinimalAnalyze(t).value.lines;
    ValueCountsIsTally(t.status);
    if s in Present(t.status) {
      assert s in Statuses(counts);
      var i :| 0 <= i < |counts| && counts[i].status == s;
      assert lines[i].status == s;
    }
    if exists i :: 0 <= i < |lines| && lines[i].status == s {
      var i :| 0 <= i < |lines| && lines[i].status == s;
      assert counts[i].status == s;
    }
  }

  /**
   On a table the hardened version accepts, both versions report the same
   total and the same breakdown, line for line in the same order.
   */
  lemma MinimalAgreesWithHardened(f: PathFacts, t: Table)
    requires CheckPath(f) == Pass && RequiredColumns <= t.columns
    ensures MinimalAnalyze(t).Success? && Analyze(f, Loaded(t)).Success?
    ensures var printout := MinimalAnalyze(t).value;
      var res := Analyze(f, Loaded(t)).value.result;
      && printout.totalTickets == res.totalTickets
      && |printout.lines| == |res.statusCounts| == |res.statusPercentages|
      && forall i :: 0 <= i < |printout.lines| ==>
           printout.lines[i] == Line(res.statusCounts[i].status, res.statusCounts[i].count, res.statusPercentages[i].percent)
  {
    assert StatusColumn in RequiredColumns;
    NoRowsNoCounts(t.status);
    SharesSpec(ValueCounts(t.status), |t.status|);
  }

  /**
   The minimal version never checks for a Ticket ID column: every table with
   a Status column but no Ticket ID column is reported by it and refused by
   the hardened version, which names exactly the missing Ticket ID column.
   */
  lemma MinimalIgnoresTicketId(f: PathFacts, t: Table)
    requires CheckPath(f) == Pass && StatusColumn in t.columns && TicketIdColumn !in t.columns
    ensures MinimalAnalyze(t).Success? && MinimalAnalyze(t).value.totalTickets == |t.status|
    ensures Analyze(f, Loaded(t)) == Failure(Rejected(MissingColumns({TicketIdColumn})))
  {
    assert RequiredColumns - t.columns == {TicketIdColumn};
  }
}
