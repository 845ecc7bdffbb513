/** The command line of the benchmark program: the argument loop of `main`
    and the checks that decide which of generation and solving run. The
    arguments are `argv` without the program name. */
module Cli {
  import opened Wrappers
  import opened Ints

  predicate IsHelp(a: string) { a == "--help" || a == "-h" }
  predicate IsGenerate(a: string) { a == "--generate" || a == "-g" }
  predicate IsSolve(a: string) { a == "--solve" || a == "-s" }
  predicate IsNumProblems(a: string) { a == "--num-problems" || a == "-n" }

  /** The argument loop's outcome: the three options it collects, an exit
      code, or the abort an uncaught `std::stoi` exception causes. */
  datatype Parse = Parsed(gen: Option<string>, sol: Option<string>, num: Option<u32>)
                 | Exit(code: int)
                 | Crash

  const INT_MIN: int := -0x8000_0000
  const INT_MAX: int := 0x7FFF_FFFF

  /** `std::stoi`: `strtol` gives the number a prefix of `s` spells, or
      `None` when there is none (`invalid_argument`); a value outside `int`
      is `out_of_range`. */
  function Stoi(strtol: string -> Option<int>, s: string): (r: Option<int>)
    ensures r.Some? ==> INT_MIN <= r.value <= INT_MAX && strtol(s) == r
    ensures r.None? ==> strtol(s).None? || strtol(s).value < INT_MIN || strtol(s).value > INT_MAX
  {
    match strtol(s)
    case None => None
    case Some(v) => if INT_MIN <= v <= INT_MAX then Some(v) else None
  }

  /** The conversion of an `int` to `unsigned int`: modulo 2^32. */
  function ToUnsigned(v: int): (u: u32)
    ensures 0 <= v < U32_LIMIT ==> u == v
    ensures v < 0 && v + U32_LIMIT >= 0 ==> u == v + U32_LIMIT
  {
    v % U32_LIMIT
  }

  /** The argument loop from position `i` on, with the options collected
      so far: each value flag consumes the next argument whatever it is. */
  function ParseFrom(args: seq<string>, i: nat, gen: Option<string>, sol: Option<string>,
                     num: Option<u32>, strtol: string -> Option<int>): Parse
    decreases |args| - i
  {
    if i >= |args| then Parsed(gen, sol, num)
    else if IsHelp(args[i]) then Exit(0)
    else if IsGenerate(args[i]) then
      if i + 1 < |args| then ParseFrom(args, i + 2, Some(args[i + 1]), sol, num, strtol) else Exit(1)
    else if IsSolve(args[i]) then
      if i + 1 < |args| then ParseFrom(args, i + 2, gen, Some(args[i + 1]), num, strtol) else Exit(1)
    else if IsNumProblems(args[i]) then
      if i + 1 < |args| then
        match Stoi(strtol, args[i + 1])
        case None => Crash
        case Some(v) => ParseFrom(args, i + 2, gen, sol, Some(ToUnsigned(v)), strtol)
      else Exit(1)
    else Exit(1)
  }

  /** The whole argument handling of `main`: no arguments is an error, and
      so is a command line that asks for neither generation nor solving. */
  function CommandLine(args: seq<string>, strtol: string -> Option<int>): Parse
  {
    if args == [] then Exit(1)
    else match ParseFrom(args, 0, None, None, None, strtol)
      case Parsed(gen, sol, num) => if gen.None? && sol.None? then Exit(1) else Parsed(gen, sol, num)
      case other => other
  }

  /** The `for` loop of `main` over the arguments, then the action check. */
  method ParseArgs(args: seq<string>, strtol: string -> Option<int>) returns (r: Parse)
    ensures r == CommandLine(args, strtol)
  {
    if |args| == 0 {
      return Exit(1);
    }
    var gen: Option<string> := None;
    var sol: Option<string> := None;
    var num: Option<u32> := None;
    var i := 0;
    while i < |args|
      invariant ParseFrom(args, i, gen, sol, num, strtol) == ParseFrom(args, 0, None, None, None, strtol)
      decreases |args| - i
    {
      var arg := args[i];
      if IsHelp(arg) {
        return Exit(0);
      }
      if IsGenerate(arg) {
        if i + 1 < |args| {
          i := i + 1;
          gen := Some(args[i]);
        } else {
          return Exit(1);
        }
      } else if IsSolve(arg) {
        if i + 1 < |args| {
          i := i + 1;
          sol := Some(args[i]);
        } else {
          return Exit(1);
        }
      } else if IsNumProblems(arg) {
        if i + 1 < |args| {
          i := i + 1;
          var v := Stoi(strtol, args[i]);
          if v.None? {
            return Crash;
          }
          num := Some(ToUnsigned(v.value));
        } else {
          return Exit(1);
        }
      } else {
        return Exit(1);
      }
      i := i + 1;
    }
    if gen.None? && sol.None? {
      return Exit(1);
    }
    return Parsed(gen, sol, num);
  }

  /** Exit code 0 comes only from a help flag met where a flag is read. */
  lemma {:induction false} ExitZeroOnlyByHelp(args: seq<string>, i: nat, gen: Option<string>, sol: Option<string>,
                                              num: Option<u32>, strtol: string -> Option<int>)
    requires ParseFrom(args, i, gen, sol, num, strtol) == Exit(0)
    ensures exists j :: i <= j < |args| && IsHelp(args[j])
    decreases |args| - i
  {
    if i < |args| && !IsHelp(args[i]) {
      if IsGenerate(args[i]) {
        ExitZeroOnlyByHelp(args, i + 2, Some(args[i + 1]), sol, num, strtol);
      } else if IsSolve(args[i]) {
        ExitZeroOnlyByHelp(args, i + 2, gen, Some(args[i + 1]), num, strtol);
      } else {
        var v := Stoi(strtol, args[i + 1]);
        ExitZeroOnlyByHelp(args, i + 2, gen, sol, Some(ToUnsigned(v.value)), strtol);
      }
    }
  }

  /** Whatever follows a help flag or a failed conversion is never read:
      the exit or abort decided on `args` stands for any longer command
      line. */
  lemma {:induction false} StopsIgnoreRest(args: seq<string>, rest: seq<string>, i: nat, gen: Option<string>,
                                           sol: Option<string>, num: Option<u32>, strtol: string -> Option<int>)
    requires ParseFrom(args, i, gen, sol, num, strtol) == Exit(0) || ParseFrom(args, i, gen, sol, num, strtol) == Crash
    ensures ParseFrom(args + rest, i, gen, sol, num, strtol) == ParseFrom(args, i, gen, sol, num, strtol)
    decreases |args| - i
  {
    var all := args + rest;
    assert i < |args|;
    assert all[i] == args[i];
    if IsHelp(args[i]) {
    } else if IsGenerate(args[i]) {
      if i + 1 < |args| {
        assert all[i + 1] == args[i + 1];
        StopsIgnoreRest(args, rest, i + 2, Some(args[i + 1]), sol, num, strtol);
      }
    } else if IsSolve(args[i]) {
      if i + 1 < |args| {
        assert all[i + 1] == args[i + 1];
        StopsIgnoreRest(args, rest, i + 2, gen, Some(args[i + 1]), num, strtol);
      }
    } else if IsNumProblems(args[i]) {
      if i + 1 < |args| {
        assert all[i + 1] == args[i + 1];
        var v := Stoi(strtol, args[i + 1]);
        if v.Some? {
          StopsIgnoreRest(args, rest, i + 2, gen, sol, Some(ToUnsigned(v.value)), strtol);
          assert ParseFrom(all, i, gen, sol, num, strtol) ==
            ParseFrom(all, i + 2, gen, sol, Some(ToUnsigned(v.value)), strtol);
        } else {
          assert ParseFrom(all, i, gen, sol, num, strtol) == Crash;
        }
      }
    }
  }

  /** A help flag first ends the program with 0, whatever follows. */
  lemma HelpFirst(args: seq<string>, strtol: string -> Option<int>)
    requires |args| >= 1 && IsHelp(args[0])
    ensures CommandLine(args, strtol) == Exit(0)
  {
  }

  /** The value of a flag is never read as a flag: `-g -h` generates into
      a directory named `-h`. */
  lemma ValueNotReadAsFlag(strtol: string -> Option<int>)
    ensures CommandLine(["-g", "-h"], strtol) == Parsed(Some("-h"), None, None)
  {
  }

  /** A repeated flag overwrites the earlier value. */
  lemma RepeatedFlagOverwrites(strtol: string -> Option<int>)
    ensures CommandLine(["-s", "a", "--solve", "b"], strtol) == Parsed(None, Some("b"), None)
  {
  }

  /** A value flag in last position, an unknown argument, or no action
      ends the program with 1. */
  lemma ErrorsExitOne(strtol: string -> Option<int>)
    requires strtol("3") == Some(3)
    ensures CommandLine([], strtol) == Exit(1)
    ensures CommandLine(["-g", "out", "-n"], strtol) == Exit(1)
    ensures CommandLine(["--verbose"], strtol) == Exit(1)
    ensures CommandLine(["-n", "3"], strtol) == Exit(1)
  {
  }

  /** A negative count wraps around to a huge unsigned one. */
  lemma NegativeCountWraps(strtol: string -> Option<int>)
    requires strtol("-1") == Some(-1)
    ensures CommandLine(["-s", "d", "-n", "-1"], strtol) == Parsed(None, Some("d"), Some(U32_MAX))
  {
  }

  /** What `main` goes on to do with a directory. */
  datatype Task = GenerateInto(dir: string, num: Option<u32>) | SolveFrom(dir: string, num: Option<u32>)

  /** How `main` ends: an exit code after the tasks it ran, or an abort. */
  datatype MainOutcome = Finished(code: int, tasks: seq<Task>) | Aborted

  /** The tasks a parsed command line asks for: generation first, then
      solving, each with the problem count. */
  function Requested(p: Parse): (tasks: seq<Task>)
    requires p.Parsed?
    ensures |tasks| <= 2
    ensures tasks == [] <==> p.gen.None? && p.sol.None?
    ensures p.gen.Some? ==> |tasks| >= 1 && tasks[0] == GenerateInto(p.gen.value, p.num)
    ensures p.sol.Some? ==> |tasks| >= 1 && tasks[|tasks| - 1] == SolveFrom(p.sol.value, p.num)
  {
    (if p.gen.Some? then [GenerateInto(p.gen.value, p.num)] else []) +
    (if p.sol.Some? then [SolveFrom(p.sol.value, p.num)] else [])
  }

  /** `main`. `isDirectory(p)` is the file system's answer for `p` once a
      missing generation directory has been created. */
  method MainProgram(args: seq<string>, strtol: string -> Option<int>, isDirectory: string -> bool)
    returns (o: MainOutcome)
    ensures CommandLine(args, strtol) == Crash <==> o == Aborted
    ensures CommandLine(args, strtol).Exit? ==> o == Finished(CommandLine(args, strtol).code, [])
    ensures CommandLine(args, strtol).Parsed? ==>
      var p := CommandLine(args, strtol);
      o.Finished? && Requested(p) != [] &&
      |o.tasks| <= |Requested(p)| && o.tasks == Requested(p)[..|o.tasks|] &&
      (o.code == 0 <==> forall t :: t in Requested(p) ==> isDirectory(t.dir)) &&
      (o.code == 0 ==> o.tasks == Requested(p)) &&
      (o.code != 0 ==> o.code == 1)
  {
    var parse := ParseArgs(args, strtol);
    match parse {
      case Crash => return Aborted;
      case Exit(c) => return Finished(c, []);
      case Parsed(gen, sol, num) =>
        var tasks := [];
        if gen.Some? {
          if !isDirectory(gen.value) {
            return Finished(1, tasks);
          }
          tasks := tasks + [GenerateInto(gen.value, num)];
        }
        if sol.Some? {
          if !isDirectory(sol.value) {
            assert Requested(parse)[|Requested(parse)| - 1] == SolveFrom(sol.value, num);
            return Finished(1, tasks);
          }
          tasks := tasks + [SolveFrom(sol.value, num)];
        }
        return Finished(0, tasks);
    }
  }
}
