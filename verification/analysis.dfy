/**
 `analyze_sprint_data` of the hardened implementation: the guards, the read
 of the table, the zero-row early return, the tally, the percentages and the
 report that is printed when there is at least one row.
 */
module Analysis {
  import opened Wrappers
  import opened Cells
  import opened Tally
  import opened Percentages
  import opened Report
  import opened Validation

  /** The ways `read_csv` can fail after the path guards passed. */
  datatype ReadError = ParserError | PermissionDenied | OsError

  /** What reading the file produced: the parsed table, or the error raised. */
  datatype Load = Loaded(table: Table) | ReadFailed(error: ReadError)

  /** The exceptions of `analyze_sprint_data` that the model distinguishes. */
  datatype AnalysisError = Rejected(reason: Rejection) | Unreadable(error: ReadError)

  /** The returned dictionary: `total_tickets`, `status_counts`, `status_percentages`. */
  datatype AnalysisResult = AnalysisResult(totalTickets: nat, statusCounts: seq<Entry>, statusPercentages: seq<Share>)

  /** The returned result together with the rows printed to standard output, if a report was printed. */
  datatype Output = Output(result: AnalysisResult, report: Option<seq<Row>>)

  /** The dictionary returned for a table that passed every guard, given its Status cells. */
  function Dictionary(cells: seq<Cell>): (res: AnalysisResult)
    ensures res.totalTickets == |cells|
    ensures |cells| == 0 ==> res.statusCounts == [] && res.statusPercentages == []
  {
    var total := |cells|;
    if total == 0 then
      AnalysisResult(0, [], [])
    else
      var counts := ValueCounts(cells);
      AnalysisResult(total, counts, Shares(counts, total))
  }

  /** The analysis of a table that passed every guard: the dictionary, and the report printed when there is a row. */
  function Summarize(cells: seq<Cell>): (out: Output)
    ensures out.result.totalTickets == |cells|
    ensures |cells| == 0 <==> out.report.None?
  {
    Output(Dictionary(cells), if |cells| == 0 then None else Some(PrintedRows(cells)))
  }

  /**
   The whole analysis. The path guards run before the file is read, a read
   error surfaces only once they pass, and the column guard runs on whatever
   was read before the row count is looked at, so on a readable file the
   outcome is exactly the verdict of the four guards.
   */
  function Analyze(f: PathFacts, load: Load): (r: Result<Output, AnalysisError>)
    ensures CheckPath(f).Fail? ==> r == Failure(Rejected(CheckPath(f).reason))
    ensures CheckPath(f) == Pass && load.ReadFailed? ==> r == Failure(Unreadable(load.error))
    ensures load.Loaded? ==> (r.Success? <==> Validate(f, load.table.columns) == Pass)
    ensures load.Loaded? && r.Failure? ==> r.error == Rejected(Validate(f, load.table.columns).reason)
    ensures r.Success? ==> load.Loaded? && r.value == Summarize(load.table.status)
  {
    match CheckPath(f)
    case Fail(reason) => Failure(Rejected(reason))
    case Pass =>
      match load
      case ReadFailed(e) => Failure(Unreadable(e))
      case Loaded(t) =>
        match CheckColumns(t.columns)
        case Fail(reason) => Failure(Rejected(reason))
        case Pass => Success(Summarize(t.status))
  }

  /**
   The invariant of the returned dictionary: the total is the row count, the
   counts are a tally of the Status cells in non-increasing order, and the
   percentages follow the counts key for key with `percent * total == count * 100`.
   */
  ghost predicate Consistent(res: AnalysisResult, cells: seq<Cell>)
  {
    && res.totalTickets == |cells|
    && IsTallyOf(res.statusCounts, cells)
    && NonIncreasing(res.statusCounts)
    && |res.statusPercentages| == |res.statusCounts|
    && (forall i :: 0 <= i < |res.statusCounts| ==> res.statusPercentages[i].status == res.statusCounts[i].status)
    && (forall i :: 0 <= i < |res.statusCounts| ==>
          |cells| > 0 && res.statusPercentages[i].percent == Percent(res.statusCounts[i].count, |cells|))
  }

  /** Every result the analysis returns satisfies the invariant. */
  lemma DictionaryConsistent(cells: seq<Cell>)
    ensures Consistent(Dictionary(cells), cells)
  {
    if |cells| == 0 {
      assert Statuses([]) == {};
      assert Observed(cells) == multiset{};
      assert Present(cells) == {};
    } else {
      var counts := ValueCounts(cells);
      var ps := Shares(counts, |cells|);
      assert Dictionary(cells) == AnalysisResult(|cells|, counts, ps);
      ValueCountsIsTally(cells);
      SharesSpec(counts, |cells|);
    }
  }

  /**
   The counts add up to at most the row count, exactly to it when no Status
   cell is missing; every percentage lies in (0, 100] and they add up to at
   most 100, exactly 100 when there is a row and no Status cell is missing.
   */
  lemma DictionaryBounds(cells: seq<Cell>)
    ensures var res := Dictionary(cells);
      && SumCounts(res.statusCounts) <= res.totalTickets
      && (SumCounts(res.statusCounts) == res.totalTickets <==> forall i :: 0 <= i < |cells| ==> cells[i].Some?)
      && (forall i :: 0 <= i < |res.statusPercentages| ==> 0.0 < res.statusPercentages[i].percent <= 100.0)
      && SumPercent(res.statusPercentages) <= 100.0
      && (SumPercent(res.statusPercentages) == 100.0 <==>
            |cells| > 0 && forall i :: 0 <= i < |cells| ==> cells[i].Some?)
  {
    ValueCountsSum(cells);
    if |cells| > 0 {
      var counts := ValueCounts(cells);
      ValueCountsIsTally(cells);
      TallyCountsPositive(counts, cells);
      SharesBounded(counts, |cells|);
    } else {
      MissingZeroIff(cells);
    }
  }

  /** The rows printed for a table with at least one row. */
  function PrintedRows(cells: seq<Cell>): seq<Row>
    requires |cells| > 0
  {
    var counts := ValueCounts(cells);
    SharesStatuses(counts, |cells|);
    Rows(counts, Shares(counts, |cells|))
  }

  /**
   The report lists the value count's entries in the value count's own order:
   re-sorting an already non-increasing tally by count moves nothing.
   */
  lemma PrintedOrder(cells: seq<Cell>)
    requires |cells| > 0
    ensures RowEntries(PrintedRows(cells)) == ValueCounts(cells)
  {
    var counts := ValueCounts(cells);
    SharesStatuses(counts, |cells|);
    RowsSpec(counts, Shares(counts, |cells|));
    ValueCountsIsTally(cells);
    SortDescOfSorted(counts);
  }

  /** A printed row shows its status's number of occurrences, which is positive. */
  lemma PrintedRowCount(cells: seq<Cell>, i: nat)
    requires |cells| > 0 && i < |PrintedRows(cells)|
    ensures PrintedRows(cells)[i].entry.count == Count(cells, PrintedRows(cells)[i].entry.status) > 0
  {
    var total := |cells|;
    var counts := ValueCounts(cells);
    SharesStatuses(counts, total);
    ValueCountsIsTally(cells);
    RowOfShares(counts, total, i);
    var row := PrintedRows(cells)[i];
    var j :| 0 <= j < |counts| && counts[j].status == row.entry.status;
    LookupAt(counts, j);
    TallyCountsPositive(counts, cells);
  }

  /** A printed row's count is at most the number of rows. */
  lemma PrintedRowWithinTotal(cells: seq<Cell>, i: nat)
    requires |cells| > 0 && i < |PrintedRows(cells)|
    ensures PrintedRows(cells)[i].entry.count <= |cells|
  {
    var total := |cells|;
    var counts := ValueCounts(cells);
    SharesStatuses(counts, total);
    ValueCountsIsTally(cells);
    RowOfShares(counts, total, i);
    var row := PrintedRows(cells)[i];
    var j :| 0 <= j < |counts| && counts[j].status == row.entry.status;
    LookupAt(counts, j);
    CountBelowSum(counts, j);
    ValueCountsSum(cells);
  }

  /** A printed row shows the percentage of its count and the bar for that percentage. */
  lemma PrintedRowPercent(cells: seq<Cell>, i: nat)
    requires |cells| > 0 && i < |PrintedRows(cells)|
    ensures PrintedRows(cells)[i].percent == Percent(PrintedRows(cells)[i].entry.count, |cells|)
    ensures PrintedRows(cells)[i].bar == BarLength(PrintedRows(cells)[i].percent)
  {
    var total := |cells|;
    var counts := ValueCounts(cells);
    SharesStatuses(counts, total);
    ValueCountsIsTally(cells);
    RowOfShares(counts, total, i);
    RowsSpec(counts, Shares(counts, total));
  }

  /** One printed row shows its status's count, its percentage and a bar of at most 20 characters. */
  lemma ReportRowFacts(cells: seq<Cell>, i: nat)
    requires |cells| > 0 && i < |PrintedRows(cells)|
    ensures var row := PrintedRows(cells)[i];
      && row.entry.count == Count(cells, row.entry.status)
      && row.percent == Percent(row.entry.count, |cells|)
      && row.bar == BarLength(row.percent)
      && 0 <= row.bar <= 20
  {
    var row := PrintedRows(cells)[i];
    PrintedRowCount(cells, i);
    PrintedRowWithinTotal(cells, i);
    PrintedRowPercent(cells, i);
    PercentBounded(row.entry.count, |cells|);
  }

  /**
   When there is at least one row a report is printed; its rows show the
   counts in non-increasing order, each non-missing status exactly once, each
   with its own count, its percentage and a bar of `floor(percent / 5)`
   characters, between 0 and 20.
   */
  lemma SummarizeReport(cells: seq<Cell>)
    requires |cells| > 0
    ensures var out := Summarize(cells);
      && out.report.Some?
      && NonIncreasing(RowEntries(out.report.value))
      && multiset(RowEntries(out.report.value)) == multiset(out.result.statusCounts)
      && Distinct(RowEntries(out.report.value))
      && Statuses(RowEntries(out.report.value)) == Present(cells)
      && forall i :: 0 <= i < |out.report.value| ==>
           var row := out.report.value[i];
           && row.entry.count == Count(cells, row.entry.status)
           && row.percent == Percent(row.entry.count, |cells|)
           && 0 <= row.bar <= 20
  {
    var total := |cells|;
    var counts := ValueCounts(cells);
    var ps := Shares(counts, total);
    SharesStatuses(counts, total);
    var rows := Rows(counts, ps);
    assert rows == PrintedRows(cells);
    assert Summarize(cells).report == Some(rows);
    assert Summarize(cells).result.statusCounts == counts;
    RowsSpec(counts, ps);
    ValueCountsIsTally(cells);
    forall i | 0 <= i < |rows|
      ensures rows[i].entry.count == Count(cells, rows[i].entry.status)
      ensures rows[i].percent == Percent(rows[i].entry.count, total)
      ensures 0 <= rows[i].bar <= 20
    {
      ReportRowFacts(cells, i);
    }
  }
}
