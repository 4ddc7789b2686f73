/**
 A worked sprint: five tickets, three Done, one In Progress, one Blocked.
 */
module Sample {
  import opened Wrappers
  import opened Cells
  import opened Tally
  import opened Percentages
  import opened Report
  import opened Analysis

  /** Tallying one more present cell bumps the tally of the cells before it. */
  lemma FirstSeenStep(cells: seq<Cell>, s: string, before: seq<Entry>, after: seq<Entry>)
    requires FirstSeen(cells) == before && Bump(before, s) == after
    ensures FirstSeen(cells + [Some(s)]) == after
  {
    assert (cells + [Some(s)])[..|cells|] == cells;
  }

  lemma SampleBumps(done: string, prog: string, blocked: string)
    requires done != prog && done != blocked && prog != blocked
    ensures Bump([], done) == [Entry(done, 1)]
    ensures Bump([Entry(done, 1)], done) == [Entry(done, 2)]
    ensures Bump([Entry(done, 2)], prog) == [Entry(done, 2), Entry(prog, 1)]
    ensures Bump([Entry(done, 2), Entry(prog, 1)], done) == [Entry(done, 3), Entry(prog, 1)]
    ensures Bump([Entry(done, 3), Entry(prog, 1)], blocked) == [Entry(done, 3), Entry(prog, 1), Entry(blocked, 1)]
  {
    assert [Entry(done, 2), Entry(prog, 1)][1..] == [Entry(prog, 1)];
    assert [Entry(done, 3), Entry(prog, 1)][1..] == [Entry(prog, 1)];
    assert [Entry(prog, 1)][1..] == [];
    assert Bump([Entry(prog, 1)], blocked) == [Entry(prog, 1), Entry(blocked, 1)];
  }

  /** The first-seen tally of the sample, for any three distinct status names. */
  lemma SampleTally(done: string, prog: string, blocked: string)
    requires done != prog && done != blocked && prog != blocked
    ensures FirstSeen([Some(done), Some(done), Some(prog), Some(done), Some(blocked)])
         == [Entry(done, 3), Entry(prog, 1), Entry(blocked, 1)]
  {
    SampleBumps(done, prog, blocked);
    var c0: seq<Cell> := [];
    var c1 := c0 + [Some(done)];
    var c2 := c1 + [Some(done)];
    var c3 := c2 + [Some(prog)];
    var c4 := c3 + [Some(done)];
    assert FirstSeen(c0) == [];
    FirstSeenStep(c0, done, [], [Entry(done, 1)]);
    FirstSeenStep(c1, done, [Entry(done, 1)], [Entry(done, 2)]);
    FirstSeenStep(c2, prog, [Entry(done, 2)], [Entry(done, 2), Entry(prog, 1)]);
    FirstSeenStep(c3, done, [Entry(done, 2), Entry(prog, 1)], [Entry(done, 3), Entry(prog, 1)]);
    FirstSeenStep(c4, blocked, [Entry(done, 3), Entry(prog, 1)], [Entry(done, 3), Entry(prog, 1), Entry(blocked, 1)]);
    assert c4 + [Some(blocked)] == [Some(done), Some(done), Some(prog), Some(done), Some(blocked)];
  }

  /** The sample's value count, for any three distinct names. */
  lemma SampleCounts(done: string, prog: string, blocked: string)
    requires done != prog && done != blocked && prog != blocked
    ensures ValueCounts([Some(done), Some(done), Some(prog), Some(done), Some(blocked)])
         == [Entry(done, 3), Entry(prog, 1), Entry(blocked, 1)]
  {
    SampleTally(done, prog, blocked);
    SortDescOfSorted([Entry(done, 3), Entry(prog, 1), Entry(blocked, 1)]);
  }

  /** The sample's percentages. */
  lemma SampleShares(done: string, prog: string, blocked: string)
    ensures Shares([Entry(done, 3), Entry(prog, 1), Entry(blocked, 1)], 5)
         == [Share(done, 60.0), Share(prog, 20.0), Share(blocked, 20.0)]
  {
    var counts := [Entry(done, 3), Entry(prog, 1), Entry(blocked, 1)];
    assert counts[1..][1..] == [Entry(blocked, 1)];
    assert Shares(counts[1..][1..], 5) == [Share(blocked, 20.0)];
  }

  /** The sample's first printed row. */
  lemma SampleFirstRow(done: string, prog: string, blocked: string)
    requires done != prog && done != blocked && prog != blocked
    ensures PrintedRows([Some(done), Some(done), Some(prog), Some(done), Some(blocked)])[0]
         == Row(Entry(done, 3), 60.0, 12)
  {
    var counts := [Entry(done, 3), Entry(prog, 1), Entry(blocked, 1)];
    var ps := [Share(done, 60.0), Share(prog, 20.0), Share(blocked, 20.0)];
    SampleCounts(done, prog, blocked);
    SampleShares(done, prog, blocked);
    SharesStatuses(counts, 5);
    SortDescOfSorted(counts);
    assert PercentOf(ps, done) == 60.0;
    assert BarLength(60.0) == 12;
    assert Rows(counts, ps)[0] == Row(Entry(done, 3), 60.0, 12);
  }

  /**
   The sample sprint yields 5 tickets, counts Done 3, In Progress 1, Blocked 1,
   percentages 60, 20, 20, and a report whose first row is Done with a bar of 12.
   */
  lemma SampleSprint()
    ensures var out := Summarize([Some("Done"), Some("Done"), Some("In Progress"), Some("Done"), Some("Blocked")]);
      && out.result == AnalysisResult(5,
           [Entry("Done", 3), Entry("In Progress", 1), Entry("Blocked", 1)],
           [Share("Done", 60.0), Share("In Progress", 20.0), Share("Blocked", 20.0)])
      && out.report == Some(PrintedRows([Some("Done"), Some("Done"), Some("In Progress"), Some("Done"), Some("Blocked")]))
      && out.report.value[0] == Row(Entry("Done", 3), 60.0, 12)
  {
    SampleCounts("Done", "In Progress", "Blocked");
    SampleShares("Done", "In Progress", "Blocked");
    SampleFirstRow("Done", "In Progress", "Blocked");
  }
}
