/**
  The read-dispatch-resolve loop of the shell. Launching a program is not
  carried out: the model records which path would be executed with which
  argument vector, and each loop iteration is summarised by an `Effect`.
 */
module Shell {
  import opened Wrappers
  import opened LineReader
  import opened Tokenizer
  import opened Builtins
  import opened PathSearch

  /** What one iteration of the main loop does. */
  datatype Effect =
    | EndOfInput                                // EOF: print a newline, leave the loop, return 0
    | EmptyLine                                 // nothing typed: straight back to the prompt
    | Exited(status: int)                       // the `exit` builtin ended the process
    | EnvListed                                 // the `env` builtin listed the environment
    | NotFound(command: string)                 // "<command>: command not found"
    | Launched(path: string, argv: seq<string>) // fork, execve(path, argv, NULL), wait

  /** The process ends after this effect. */
  predicate Terminal(e: Effect) {
    e.EndOfInput? || e.Exited?
  }

  /** The status the process ends with after a terminal effect. */
  function Status(e: Effect): int
    requires Terminal(e)
  {
    if e.Exited? then e.status else 0
  }

  /**
    A non-empty line the source can process: it has at least one word (the
    handler reads `argv[0]` without a NULL check) and fewer words than the
    `argv` array has slots.
   */
  predicate Runnable(line: string) {
    0 < |Split(line, ' ')| < ArgvCapacity
  }

  /** Input the loop can process: end of input, an empty line or a runnable one. */
  predicate Admissible(input: Option<string>) {
    input.None? || StripNewline(input.value) == [] || Runnable(StripNewline(input.value))
  }

  /** `execute_command` for one line: tokenize, try the builtins, then resolve. */
  function ExecuteCommand(line: string, pathEnv: Option<string>, exec: set<string>): (e: Effect)
    requires Runnable(line)
    ensures !e.EndOfInput? && !e.EmptyLine?
    ensures e.Exited? <==> Split(line, ' ')[0] == ExitName
    ensures e.Exited? ==> e.status == 0
    ensures e.EnvListed? <==> Split(line, ' ')[0] == EnvName
    ensures e.NotFound? ==> e.command == Split(line, ' ')[0]
    ensures e.Launched? ==> e.path in exec && e.argv == Split(line, ' ')
    ensures e.Launched? ==> Some(e.path) == FindCommand(pathEnv, Split(line, ' ')[0], exec)
    ensures e.Launched? && '/' in e.argv[0] ==> e.path == e.argv[0]
    ensures Split(line, ' ')[0] != ExitName && Split(line, ' ')[0] != EnvName ==>
              (e.NotFound? <==> FindCommand(pathEnv, Split(line, ' ')[0], exec).None?)
    ensures !Dispatch(Split(line, ' ')).Terminate? ==>
              (ReturnValue(Dispatch(Split(line, ' '))) != 0 <==> e.EnvListed?)
  {
    var argv := Split(line, ' ');
    var outcome := Dispatch(argv);
    if outcome.Terminate? then Exited(outcome.status)
    else if ReturnValue(outcome) != 0 then EnvListed
    else
      var resolved := FindCommand(pathEnv, argv[0], exec);
      if resolved.None? then NotFound(argv[0]) else Launched(resolved.value, argv)
  }

  /** One iteration of `main`: read, cut the newline, and run only a non-empty line. */
  function Step(input: Option<string>, pathEnv: Option<string>, exec: set<string>): (e: Effect)
    requires Admissible(input)
    ensures e.EndOfInput? <==> input.None?
    ensures e.EmptyLine? <==> input.Some? && StripNewline(input.value) == []
    ensures input.Some? && StripNewline(input.value) != [] ==>
              e == ExecuteCommand(StripNewline(input.value), pathEnv, exec)
  {
    if input.None? then EndOfInput
    else
      var line := StripNewline(input.value);
      if |line| > 0 then ExecuteCommand(line, pathEnv, exec) else EmptyLine
  }

  /** The line, once read, starts with the word `exit`. */
  predicate ExitsOn(raw: string) {
    var line := StripNewline(raw);
    line != [] && |Split(line, ' ')| > 0 && Split(line, ' ')[0] == ExitName
  }

  /**
    Every line the loop reads can be processed: each line up to and
    including the first `exit` line is admissible. Lines queued after it
    are never read and may be anything.
   */
  predicate AdmissibleUntilExit(lines: seq<string>) {
    lines == [] ||
    (Admissible(Some(lines[0])) && (ExitsOn(lines[0]) || AdmissibleUntilExit(lines[1..])))
  }

  /** For a line the loop can process, `exit` is its effect exactly when it starts with that word. */
  lemma StepExitsOn(raw: string, pathEnv: Option<string>, exec: set<string>)
    requires Admissible(Some(raw))
    ensures Step(Some(raw), pathEnv, exec).Exited? <==> ExitsOn(raw)
  {
  }

  /**
    The whole run on `lines` followed by end of input: one effect per line
    read, stopping at the first terminal one.
   */
  function Session(lines: seq<string>, pathEnv: Option<string>, exec: set<string>): (trace: seq<Effect>)
    requires AdmissibleUntilExit(lines)
    ensures 0 < |trace| <= |lines| + 1
    ensures Terminal(trace[|trace| - 1]) && Status(trace[|trace| - 1]) == 0
    ensures forall i :: 0 <= i < |trace| - 1 ==> !Terminal(trace[i])
    ensures forall i :: 0 <= i < |trace| - 1 ==>
              Admissible(Some(lines[i])) && trace[i] == Step(Some(lines[i]), pathEnv, exec)
    ensures trace[|trace| - 1].EndOfInput? ==> |trace| == |lines| + 1
    ensures trace[|trace| - 1].Exited? ==>
              && |trace| <= |lines|
              && Admissible(Some(lines[|trace| - 1]))
              && ExitsOn(lines[|trace| - 1])
              && trace[|trace| - 1] == Step(Some(lines[|trace| - 1]), pathEnv, exec)
    decreases |lines|
  {
    if lines == [] then [EndOfInput]
    else
      var e := Step(Some(lines[0]), pathEnv, exec);
      StepExitsOn(lines[0], pathEnv, exec);
      if e.Exited? then [e]
      else
        var rest := Session(lines[1..], pathEnv, exec);
        assert forall i :: 1 <= i < |lines| ==> lines[1..][i - 1] == lines[i];
        [e] + rest
  }

  /** One step of the run: the first line's effect, then the run on the rest unless it exited. */
  lemma SessionUnfold(lines: seq<string>, pathEnv: Option<string>, exec: set<string>)
    requires lines != [] && AdmissibleUntilExit(lines)
    ensures Admissible(Some(lines[0]))
    ensures !ExitsOn(lines[0]) ==> AdmissibleUntilExit(lines[1..])
    ensures Session(lines, pathEnv, exec)
            == if ExitsOn(lines[0]) then [Step(Some(lines[0]), pathEnv, exec)]
               else [Step(Some(lines[0]), pathEnv, exec)] + Session(lines[1..], pathEnv, exec)
  {
    StepExitsOn(lines[0], pathEnv, exec);
  }

  /** Some line read by the loop starts with `exit`. */
  predicate ReachesExit(lines: seq<string>) {
    lines != [] && (ExitsOn(lines[0]) || ReachesExit(lines[1..]))
  }

  /** A run that ends with `exit` reached an `exit` line. */
  lemma {:induction false} ExitedRunReachesExit(lines: seq<string>, pathEnv: Option<string>, exec: set<string>)
    requires AdmissibleUntilExit(lines)
    requires Session(lines, pathEnv, exec)[|Session(lines, pathEnv, exec)| - 1].Exited?
    ensures ReachesExit(lines)
    decreases |lines|
  {
    assert lines != [];
    SessionUnfold(lines, pathEnv, exec);
    if !ExitsOn(lines[0]) {
      var run := Session(lines, pathEnv, exec);
      var rest := Session(lines[1..], pathEnv, exec);
      assert run == [Step(Some(lines[0]), pathEnv, exec)] + rest;
      assert rest[|rest| - 1] == run[|run| - 1];
      ExitedRunReachesExit(lines[1..], pathEnv, exec);
    }
  }

  /** Lines queued behind the first `exit` line change neither admissibility nor the run. */
  lemma {:induction false} QueuedAfterExit(lines: seq<string>, more: seq<string>, pathEnv: Option<string>, exec: set<string>)
    requires AdmissibleUntilExit(lines) && ReachesExit(lines)
    ensures AdmissibleUntilExit(lines + more)
    ensures Session(lines + more, pathEnv, exec) == Session(lines, pathEnv, exec)
    decreases |lines|
  {
    var all := lines + more;
    assert all[0] == lines[0];
    SessionUnfold(lines, pathEnv, exec);
    if !ExitsOn(lines[0]) {
      assert all[1..] == lines[1..] + more;
      QueuedAfterExit(lines[1..], more, pathEnv, exec);
    }
    assert AdmissibleUntilExit(all);
    SessionUnfold(all, pathEnv, exec);
  }

  /** After `exit`, whatever input is still queued is never read, admissible or not. */
  lemma ExitIgnoresQueuedInput(lines: seq<string>, more: seq<string>, pathEnv: Option<string>, exec: set<string>)
    requires AdmissibleUntilExit(lines)
    requires Session(lines, pathEnv, exec)[|Session(lines, pathEnv, exec)| - 1].Exited?
    ensures AdmissibleUntilExit(lines + more)
    ensures Session(lines + more, pathEnv, exec) == Session(lines, pathEnv, exec)
  {
    ExitedRunReachesExit(lines, pathEnv, exec);
    QueuedAfterExit(lines, more, pathEnv, exec);
  }

  /**
    A line that is empty, or starts with a newline or a NUL, is empty once
    read and never reaches the builtins or the search.
   */
  lemma EmptyLineSkipsDispatch(raw: string, pathEnv: Option<string>, exec: set<string>)
    requires raw == [] || raw[0] == '\n' || raw[0] == Nul
    ensures Step(Some(raw), pathEnv, exec) == EmptyLine
  {
  }

  /** `exit` ends the run with status 0 whatever words follow it. */
  lemma {:induction false} ExitWithArguments(args: seq<string>, pathEnv: Option<string>, exec: set<string>)
    requires forall i :: 0 <= i < |args| ==> IsToken(args[i], ' ')
    requires |args| < ArgvCapacity - 1
    ensures Runnable(Join([ExitName] + args, " "))
    ensures ExecuteCommand(Join([ExitName] + args, " "), pathEnv, exec) == Exited(0)
  {
    var words := [ExitName] + args;
    assert ' ' !in ExitName;
    assert forall i :: 1 <= i < |words| ==> words[i] == args[i - 1];
    SplitJoin(words, ' ');
    ExitFirstWord(Join(words, " "), pathEnv, exec);
  }

  lemma ExitFirstWord(line: string, pathEnv: Option<string>, exec: set<string>)
    requires Runnable(line) && Split(line, ' ')[0] == ExitName
    ensures ExecuteCommand(line, pathEnv, exec) == Exited(0)
  {
  }
}
