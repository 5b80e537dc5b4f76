/**
  The two commands the shell runs itself. Only the first word of the command
  is looked at, and only by exact string equality.
 */
module Builtins {

  /**
    What the handler does: end the shell with a status (`exit`), report the
    command handled (`env`, which returns 1 in the source after listing the
    environment), or report it not handled (return value 0).
   */
  datatype Outcome = Terminate(status: int) | Handled | NotHandled

  const ExitName: string := "exit"
  const EnvName: string := "env"

  /** The handler applied to an argument vector with at least one word. */
  function Dispatch(argv: seq<string>): (r: Outcome)
    requires |argv| > 0
    ensures r.Terminate? <==> argv[0] == ExitName
    ensures r.Terminate? ==> r.status == 0
    ensures r.Handled? <==> argv[0] == EnvName
    ensures r.NotHandled? <==> argv[0] != ExitName && argv[0] != EnvName
  {
    if argv[0] == ExitName then Terminate(0)
    else if argv[0] == EnvName then Handled
    else NotHandled
  }

  /** The integer the source's handler returns when it returns at all. */
  function ReturnValue(o: Outcome): (v: int)
    requires !o.Terminate?
    ensures v == 1 <==> o.Handled?
    ensures v == 0 <==> o.NotHandled?
  {
    if o.Handled? then 1 else 0
  }

  /** The words after the first never change the outcome. */
  lemma DispatchReadsFirstWordOnly(argv: seq<string>, other: seq<string>)
    requires |argv| > 0 && |other| > 0
    requires argv[0] == other[0]
    ensures Dispatch(argv) == Dispatch(other)
  {
  }
}
