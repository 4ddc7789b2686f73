/**
 The fail-fast guards of `analyze_sprint_data`, over abstract facts about the
 resolved path (does it exist, what is its suffix, does it lie under the
 working directory) and the loaded table's column names.
 */
module Validation {

  datatype PathFacts = PathFacts(fileExists: bool, suffix: string, withinCwd: bool)

  /** Why the input was refused, one kind per guard. */
  datatype Rejection =
    | NotFound
    | BadSuffix(suffix: string)
    | Traversal
    | MissingColumns(missing: set<string>)

  datatype Check = Pass | Fail(reason: Rejection)

  const RequiredColumns: set<string> := {"Status", "Ticket ID"}

  /** ASCII lower-casing of one character. */
  function LowerChar(c: char): char
  {
    if 'A' <= c <= 'Z' then (c as int + 32) as char else c
  }

  function Lower(s: string): string
  {
    seq(|s|, i requires 0 <= i < |s| => LowerChar(s[i]))
  }

  /** The suffix is ".csv" up to case. */
  predicate IsCsvSuffix(suffix: string)
  {
    Lower(suffix) == ".csv"
  }

  /** A suffix passes exactly when it is a dot followed by c, s, v, each in either case. */
  lemma CsvSuffixSpelled(suffix: string)
    ensures IsCsvSuffix(suffix) <==>
              && |suffix| == 4
              && suffix[0] == '.'
              && (suffix[1] == 'c' || suffix[1] == 'C')
              && (suffix[2] == 's' || suffix[2] == 'S')
              && (suffix[3] == 'v' || suffix[3] == 'V')
  {
    var l := Lower(suffix);
    if IsCsvSuffix(suffix) {
      assert l[0] == '.' && l[1] == 'c' && l[2] == 's' && l[3] == 'v';
    }
    if |suffix| == 4 && suffix[0] == '.' && (suffix[1] == 'c' || suffix[1] == 'C')
       && (suffix[2] == 's' || suffix[2] == 'S') && (suffix[3] == 'v' || suffix[3] == 'V') {
      assert l == ".csv";
    }
  }

  /** The three path guards, in the order the source runs them. */
  function CheckPath(f: PathFacts): (c: Check)
    ensures c == Pass <==> f.fileExists && IsCsvSuffix(f.suffix) && f.withinCwd
    ensures c == Fail(NotFound) <==> !f.fileExists
    ensures c == Fail(BadSuffix(f.suffix)) <==> f.fileExists && !IsCsvSuffix(f.suffix)
    ensures c == Fail(Traversal) <==> f.fileExists && IsCsvSuffix(f.suffix) && !f.withinCwd
    ensures c.Fail? ==> !c.reason.MissingColumns?
  {
    if !f.fileExists then Fail(NotFound)
    else if !IsCsvSuffix(f.suffix) then Fail(BadSuffix(f.suffix))
    else if !f.withinCwd then Fail(Traversal)
    else Pass
  }

  /** The column guard: refuses exactly when a required column is absent, naming all absent ones. */
  function CheckColumns(columns: set<string>): (c: Check)
    ensures c == Pass <==> RequiredColumns <= columns
    ensures c.Fail? ==> c.reason == MissingColumns(RequiredColumns - columns) && c.reason.missing != {}
  {
    var missing := RequiredColumns - columns;
    assert missing == {} <==> RequiredColumns <= columns by {
      if missing == {} {
        forall x | x in RequiredColumns ensures x in columns {
          assert x !in missing;
        }
      }
    }
    if missing != {} then Fail(MissingColumns(missing)) else Pass
  }

  /**
   All four guards in order; the first one that fails decides the rejection,
   so each rejection kind holds exactly when every earlier guard passed and
   its own failed.
   */
  function Validate(f: PathFacts, columns: set<string>): (c: Check)
    ensures c == Pass <==> f.fileExists && IsCsvSuffix(f.suffix) && f.withinCwd && RequiredColumns <= columns
    ensures c == Fail(NotFound) <==> !f.fileExists
    ensures c == Fail(BadSuffix(f.suffix)) <==> f.fileExists && !IsCsvSuffix(f.suffix)
    ensures c == Fail(Traversal) <==> f.fileExists && IsCsvSuffix(f.suffix) && !f.withinCwd
    ensures c == Fail(MissingColumns(RequiredColumns - columns)) <==>
              f.fileExists && IsCsvSuffix(f.suffix) && f.withinCwd && !(RequiredColumns <= columns)
    ensures c.Fail? && c.reason.BadSuffix? ==> c.reason.suffix == f.suffix
    ensures c.Fail? && c.reason.MissingColumns? ==> c.reason.missing == RequiredColumns - columns
  {
    match CheckPath(f)
    case Fail(r) => Fail(r)
    case Pass => CheckColumns(columns)
  }
}
