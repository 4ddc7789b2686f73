/**
 The parsed ticket table, reduced to what the analysis reads: the header's
 column names and, for every data row in file order, the row's Status cell.
 A cell is `None` when pandas reads it as NaN: when it is empty, when it
 holds one of `read_csv`'s default missing-value texts (`NA`, `N/A`, `null`,
 `None`, `NaN`, `#N/A` and the like), or when the table has no Status column
 at all.
 */
module Cells {
  import opened Wrappers

  type Cell = Option<string>

  datatype Table = Table(columns: set<string>, status: seq<Cell>)

  const StatusColumn: string := "Status"
  const TicketIdColumn: string := "Ticket ID"

  /** The contribution of one cell to the bag of observed statuses. */
  function CellBag(c: Cell): multiset<string>
  {
    match c
    case None => multiset{}
    case Some(s) => multiset{s}
  }

  /** The bag of non-missing Status values: what a value count tallies. */
  function Observed(cells: seq<Cell>): multiset<string>
  {
    if |cells| == 0 then multiset{}
    else Observed(cells[..|cells| - 1]) + CellBag(cells[|cells| - 1])
  }

  /** How many cells hold status `s`. */
  function Count(cells: seq<Cell>, s: string): nat
  {
    Observed(cells)[s]
  }

  /** The distinct non-missing Status values. */
  function Present(cells: seq<Cell>): set<string>
  {
    set s | s in Observed(cells)
  }

  /** How many cells are missing (NaN). */
  function Missing(cells: seq<Cell>): nat
  {
    if |cells| == 0 then 0
    else Missing(cells[..|cells| - 1]) + (if cells[|cells| - 1].None? then 1 else 0)
  }

  /** The row indices whose Status cell is exactly `s`. */
  function Occurrences(cells: seq<Cell>, s: string): set<nat>
  {
    set i: nat | i < |cells| && cells[i] == Some(s)
  }

  /** The tally of `s` is its number of occurrences. */
  lemma {:induction false} CountIsOccurrences(cells: seq<Cell>, s: string)
    ensures Count(cells, s) == |Occurrences(cells, s)|
  {
    if |cells| == 0 {
      assert Occurrences(cells, s) == {};
    } else {
      var n := |cells| - 1;
      var prefix := cells[..n];
      CountIsOccurrences(prefix, s);
      if cells[n] == Some(s) {
        assert Occurrences(cells, s) == Occurrences(prefix, s) + {n};
        assert n !in Occurrences(prefix, s);
      } else {
        assert Occurrences(cells, s) == Occurrences(prefix, s);
      }
    }
  }

  /** A status is present exactly when some row carries it. */
  lemma {:induction false} PresentIffOccurs(cells: seq<Cell>, s: string)
    ensures s in Present(cells) <==> exists i :: 0 <= i < |cells| && cells[i] == Some(s)
  {
    CountIsOccurrences(cells, s);
    if s in Present(cells) {
      assert |Occurrences(cells, s)| > 0;
      var i :| i in Occurrences(cells, s);
      assert cells[i] == Some(s);
    }
    if exists i :: 0 <= i < |cells| && cells[i] == Some(s) {
      var i :| 0 <= i < |cells| && cells[i] == Some(s);
      assert i in Occurrences(cells, s);
    }
  }

  /** Every row is either tallied or missing. */
  lemma {:induction false} ObservedPlusMissing(cells: seq<Cell>)
    ensures |Observed(cells)| + Missing(cells) == |cells|
  {
    if |cells| > 0 {
      ObservedPlusMissing(cells[..|cells| - 1]);
    }
  }

  /** No cell is missing exactly when the missing count is zero. */
  lemma {:induction false} MissingZeroIff(cells: seq<Cell>)
    ensures Missing(cells) == 0 <==> forall i :: 0 <= i < |cells| ==> cells[i].Some?
  {
    if |cells| > 0 {
      var n := |cells| - 1;
      MissingZeroIff(cells[..n]);
      assert forall i :: 0 <= i < n ==> cells[..n][i] == cells[i];
    }
  }
}
