/**
 `main`: picks the path to analyse and maps the outcome to an exit code.
 The file system is a parameter: `files` tells, for each path argument, the
 facts about the resolved path and what reading it produces.
 */
module Cli {
  import opened Wrappers
  import opened Validation
  import opened Analysis

  datatype FileState = FileState(facts: PathFacts, load: Load)

  /** The argument list: the one given, or the process arguments after the program name. */
  function Arguments(argv: Option<seq<string>>, processArgs: seq<string>): seq<string>
  {
    match argv
    case Some(args) => args
    case None => if |processArgs| == 0 then [] else processArgs[1..]
  }

  /** The first argument, or the default path when there is none. */
  function ChoosePath(args: seq<string>, defaultPath: string): string
  {
    if |args| > 0 then args[0] else defaultPath
  }

  /** 0 when the analysis returned, 1 for every exception `main` handles. */
  function ExitCode<T>(outcome: Result<T, AnalysisError>): (code: int)
    ensures code == 0 <==> outcome.Success?
    ensures code == 1 <==> outcome.Failure?
  {
    match outcome
    case Success(_) => 0
    case Failure(_) => 1
  }

  predicate Succeeds(file: FileState)
  {
    Analyze(file.facts, file.load).Success?
  }

  /**
   The exit code of `main(argv)` run with `processArgs` as `sys.argv`. The
   argument list is the explicit one if one is given, else `sys.argv[1:]`;
   the analysed path is its first element, else the default path. The code
   is 0 exactly when that file's analysis succeeds and 1 otherwise.
   */
  function Run(argv: Option<seq<string>>, processArgs: seq<string>, defaultPath: string,
               files: string -> FileState): (code: int)
    ensures code == 0 || code == 1
    ensures argv.Some? && |argv.value| > 0 ==> (code == 0 <==> Succeeds(files(argv.value[0])))
    ensures argv.Some? && |argv.value| == 0 ==> (code == 0 <==> Succeeds(files(defaultPath)))
    ensures argv.None? && |processArgs| > 1 ==> (code == 0 <==> Succeeds(files(processArgs[1])))
    ensures argv.None? && |processArgs| <= 1 ==> (code == 0 <==> Succeeds(files(defaultPath)))
  {
    var path := ChoosePath(Arguments(argv, processArgs), defaultPath);
    var file := files(path);
    ExitCode(Analyze(file.facts, file.load))
  }
}
