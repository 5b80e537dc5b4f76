/**
  Resolution of a command name to an executable file, as `find_command`
  does it. The environment value of PATH is a parameter (`None` when the
  variable is unset), and the executability test `access(_, X_OK)` is the
  set `exec` of paths it accepts.
 */
module PathSearch {
  import opened Wrappers
  import opened Tokenizer

  const PathSeparator: char := ':'

  /** The path tried for `command` in directory `dir`. */
  function Candidate(dir: string, command: string): string {
    dir + "/" + command
  }

  /** The directories searched, in order: PATH split on ':' with empty entries dropped. */
  function SearchPath(pathValue: string): (dirs: seq<string>)
    ensures forall i :: 0 <= i < |dirs| ==> |dirs[i]| > 0 && PathSeparator !in dirs[i]
  {
    Split(pathValue, PathSeparator)
  }

  /** Directory `i` is the earliest of `dirs` whose candidate `exec` accepts. */
  predicate IsFirstMatch(dirs: seq<string>, command: string, exec: set<string>, i: int) {
    && 0 <= i < |dirs|
    && Candidate(dirs[i], command) in exec
    && forall j :: 0 <= j < i ==> Candidate(dirs[j], command) !in exec
  }

  /** The first candidate of `dirs` that `exec` accepts. */
  function FirstAccepted(dirs: seq<string>, command: string, exec: set<string>): (r: Option<string>)
    ensures r.None? <==> forall i :: 0 <= i < |dirs| ==> Candidate(dirs[i], command) !in exec
    ensures r.Some? ==> exists i :: IsFirstMatch(dirs, command, exec, i) && r.value == Candidate(dirs[i], command)
  {
    if dirs == [] then None
    else if Candidate(dirs[0], command) in exec then
      assert IsFirstMatch(dirs, command, exec, 0);
      Some(Candidate(dirs[0], command))
    else
      var r := FirstAccepted(dirs[1..], command, exec);
      if r.Some? then
        var i :| IsFirstMatch(dirs[1..], command, exec, i) && r.value == Candidate(dirs[1..][i], command);
        assert IsFirstMatch(dirs, command, exec, i + 1);
        r
      else
        r
  }

  /** Conversely, the earliest accepted directory is the one whose candidate is returned. */
  lemma FirstMatchIsReturned(dirs: seq<string>, command: string, exec: set<string>, i: int)
    requires IsFirstMatch(dirs, command, exec, i)
    ensures FirstAccepted(dirs, command, exec) == Some(Candidate(dirs[i], command))
  {
  }

  /**
    `find_command`: not found when PATH is unset or the command is empty;
    a command containing '/' is checked as it stands; otherwise the first
    accepted candidate of the search path.
   */
  function FindCommand(pathEnv: Option<string>, command: string, exec: set<string>): (r: Option<string>)
    ensures pathEnv.None? || command == [] ==> r.None?
    ensures pathEnv.Some? && command != [] && '/' in command ==>
              (r.Some? <==> command in exec) && (r.Some? ==> r.value == command)
    ensures pathEnv.Some? && command != [] && '/' !in command ==>
              (r.None? <==> forall i :: 0 <= i < |SearchPath(pathEnv.value)| ==>
                               Candidate(SearchPath(pathEnv.value)[i], command) !in exec)
    ensures pathEnv.Some? && command != [] && '/' !in command && r.Some? ==>
              exists i :: IsFirstMatch(SearchPath(pathEnv.value), command, exec, i)
                          && r.value == Candidate(SearchPath(pathEnv.value)[i], command)
    ensures r.Some? ==> r.value in exec
  {
    if pathEnv.None? || command == [] then None
    else if '/' in command then
      if command in exec then Some(command) else None
    else
      FirstAccepted(SearchPath(pathEnv.value), command, exec)
  }

  /**
    The loop of `find_command`: walk PATH with `strtok`, build each
    candidate and return the first one accepted.
   */
  method FindCommandScan(pathEnv: Option<string>, command: string, exec: set<string>) returns (r: Option<string>)
    ensures r == FindCommand(pathEnv, command, exec)
  {
    if pathEnv.None? || command == [] {
      return None;
    }
    if '/' in command {
      if command in exec {
        return Some(command);
      }
      return None;
    }
    var path := pathEnv.value;
    var pos := 0;
    var found := NextToken(path, pos, PathSeparator);
    assert path[pos..] == path;
    while found.Some?
      invariant pos <= |path|
      invariant found == NextToken(path, pos, PathSeparator)
      invariant FirstAccepted(Split(path[pos..], PathSeparator), command, exec)
                == FindCommand(pathEnv, command, exec)
      decreases |path| - pos
    {
      var candidate := Candidate(found.value.token, command);
      if candidate in exec {
        return Some(candidate);
      }
      pos := found.value.resume;
      found := NextToken(path, pos, PathSeparator);
    }
    return None;
  }

  /** A match in the first list hides the second; otherwise the second decides. */
  lemma {:induction false} FirstAcceptedAppend(a: seq<string>, b: seq<string>, command: string, exec: set<string>)
    ensures FirstAccepted(a + b, command, exec)
            == if FirstAccepted(a, command, exec).Some? then FirstAccepted(a, command, exec)
               else FirstAccepted(b, command, exec)
    decreases |a|
  {
    if a == [] {
      assert a + b == b;
    } else {
      assert (a + b)[0] == a[0];
      assert (a + b)[1..] == a[1..] + b;
      FirstAcceptedAppend(a[1..], b, command, exec);
    }
  }

  /** Once a PATH finds the command, entries appended after it change nothing. */
  lemma LaterEntriesIgnored(p: string, q: string, command: string, exec: set<string>)
    requires FindCommand(Some(p), command, exec).Some?
    ensures FindCommand(Some(p + ":" + q), command, exec) == FindCommand(Some(p), command, exec)
  {
    if command != [] && '/' !in command {
      SplitAround(p, q, PathSeparator);
      FirstAcceptedAppend(SearchPath(p), SearchPath(q), command, exec);
    }
  }

  /** Entries in front that do not hold the command change nothing either. */
  lemma EarlierMissesIgnored(p: string, q: string, command: string, exec: set<string>)
    requires FindCommand(Some(p), command, exec).None?
    ensures FindCommand(Some(p + ":" + q), command, exec) == FindCommand(Some(q), command, exec)
  {
    if command != [] && '/' !in command {
      SplitAround(p, q, PathSeparator);
      FirstAcceptedAppend(SearchPath(p), SearchPath(q), command, exec);
    }
  }

  /** A doubled ':' contributes no (empty) directory. */
  lemma DoubledSeparatorIgnored(p: string, q: string, command: string, exec: set<string>)
    ensures FindCommand(Some(p + "::" + q), command, exec) == FindCommand(Some(p + ":" + q), command, exec)
  {
    assert p + "::" + q == p + [PathSeparator] + (":" + q);
    SplitAround(p, ":" + q, PathSeparator);
    assert ":" + q == [] + [PathSeparator] + q;
    SplitAround([], q, PathSeparator);
    assert p + ":" + q == p + [PathSeparator] + q;
    SplitAround(p, q, PathSeparator);
  }

  /** A leading ':' contributes no (empty) directory. */
  lemma LeadingSeparatorIgnored(p: string, command: string, exec: set<string>)
    ensures FindCommand(Some(":" + p), command, exec) == FindCommand(Some(p), command, exec)
  {
    assert ":" + p == [] + [PathSeparator] + p;
    SplitAround([], p, PathSeparator);
  }

  /** A trailing ':' contributes no (empty) directory. */
  lemma TrailingSeparatorIgnored(p: string, command: string, exec: set<string>)
    ensures FindCommand(Some(p + ":"), command, exec) == FindCommand(Some(p), command, exec)
  {
    assert p + ":" == p + [PathSeparator] + [];
    SplitAround(p, [], PathSeparator);
    assert Split([], PathSeparator) == [];
    assert SearchPath(p) + [] == SearchPath(p);
  }

  /** A command with '/' resolves the same way under every set PATH value. */
  lemma DirectPathIgnoresSearchPath(p: string, q: string, command: string, exec: set<string>)
    requires '/' in command
    ensures FindCommand(Some(p), command, exec) == FindCommand(Some(q), command, exec)
  {
  }

  /** The example search path /bin:/usr/bin has the two directories in that order. */
  lemma ExampleSearchPath()
    ensures SearchPath("/bin" + [PathSeparator] + "/usr/bin") == ["/bin", "/usr/bin"]
  {
    SplitAround("/bin", "/usr/bin", PathSeparator);
    SplitToken("/bin", PathSeparator);
    SplitToken("/usr/bin", PathSeparator);
  }

  /** A command without '/' under a set PATH is the search of its directories. */
  lemma SearchedCommand(p: string, command: string, exec: set<string>)
    requires command != [] && '/' !in command
    ensures FindCommand(Some(p), command, exec) == FirstAccepted(SearchPath(p), command, exec)
  {
  }

  /** With PATH=/bin:/usr/bin and `ls` in both, the /bin one is chosen. */
  lemma FirstMatchWinsExample()
    ensures FindCommand(Some("/bin:/usr/bin"), "ls", {"/bin/ls", "/usr/bin/ls"}) == Some("/bin/ls")
  {
    var exec := {"/bin/ls", "/usr/bin/ls"};
    var dirs := ["/bin", "/usr/bin"];
    assert "/bin:/usr/bin" == "/bin" + [PathSeparator] + "/usr/bin";
    ExampleSearchPath();
    assert Candidate(dirs[0], "ls") == "/bin/ls";
    assert FirstAccepted(dirs, "ls", exec) == Some("/bin/ls");
    assert '/' !in "ls";
    SearchedCommand("/bin:/usr/bin", "ls", exec);
  }
}
