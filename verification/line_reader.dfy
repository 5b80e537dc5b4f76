/**
  The line reader of the shell: one line of input as delivered by `getline`
  (or end of input), seen as the C string that is left once the first
  newline is overwritten by a NUL. `getline` may deliver NUL bytes inside
  the line; the C string, and so every later step, ends at the first one.
 */
module LineReader {
  import opened Wrappers

  /** The NUL byte that ends a C string. */
  const Nul: char := '\0'

  /**
    The C string left in the buffer after the newline is cut: the part of
    `line` before its first '\n' or NUL, the whole line when it has neither.
   */
  function StripNewline(line: string): (r: string)
    ensures r <= line
    ensures '\n' !in r && Nul !in r
    ensures |r| < |line| ==> line[|r|] == '\n' || line[|r|] == Nul
    ensures '\n' !in line && Nul !in line ==> r == line
  {
    if line == [] then []
    else if line[0] == '\n' || line[0] == Nul then []
    else [line[0]] + StripNewline(line[1..])
  }

  /**
    The index `strcspn` computes on a C string for a single rejected
    character: the length of the longest prefix of `s` that contains
    neither `c` nor the terminating NUL.
   */
  method Strcspn(s: string, c: char) returns (n: nat)
    ensures n <= |s|
    ensures c !in s[..n] && Nul !in s[..n]
    ensures n < |s| ==> s[n] == c || s[n] == Nul
  {
    n := 0;
    while n < |s| && s[n] != c && s[n] != Nul
      invariant n <= |s|
      invariant c !in s[..n] && Nul !in s[..n]
    {
      assert s[..n + 1] == s[..n] + [s[n]];
      n := n + 1;
    }
  }

  /**
    One call of the reader. `input` is what `getline` produced: `None` for end
    of input, otherwise the characters read (including any newline). The
    result is `None` exactly at end of input, and otherwise the C string
    left after the newline is cut.
   */
  method ReadCommand(input: Option<string>) returns (r: Option<string>)
    ensures r.None? <==> input.None?
    ensures r.Some? ==> r.value == StripNewline(input.value)
  {
    if input.None? {
      return None;
    }
    var line := input.value;
    var n := Strcspn(line, '\n');
    StripNewlineUnique(line, line[..n]);
    r := Some(line[..n]);
  }

  /** The properties in the contract of `StripNewline` determine its result. */
  lemma StripNewlineUnique(line: string, r: string)
    requires r <= line
    requires '\n' !in r && Nul !in r
    requires |r| < |line| ==> line[|r|] == '\n' || line[|r|] == Nul
    ensures r == StripNewline(line)
  {
  }

  /** Cutting an already cut line changes nothing. */
  lemma StripNewlineIdempotent(line: string)
    ensures StripNewline(StripNewline(line)) == StripNewline(line)
  {
  }

  /** Bytes after an embedded NUL are invisible: "ls\0x\n" reads as "ls". */
  lemma NulEndsTheLine()
    ensures StripNewline("ls\0x\n") == "ls"
  {
    var line := "ls\0x\n";
    assert line[2] == Nul;
    StripNewlineUnique(line, line[..2]);
    assert line[..2] == "ls";
  }
}
