/**
  Splitting a string the way repeated calls of `strtok` with a single
  delimiter character do: runs of delimiters separate tokens, leading and
  trailing delimiters are skipped, and no token is ever empty.
 */
module Tokenizer {
  import opened Wrappers

  /** Slots of the shell's `argv` array; the last token is followed by a NULL slot. */
  const ArgvCapacity: nat := 1024

  /** A token as `strtok` returns it: non-empty and free of the delimiter. */
  predicate IsToken(t: string, d: char) {
    |t| > 0 && d !in t
  }

  /** Length of the longest prefix of `s` that does not contain `d`. */
  function TokenEnd(s: string, d: char): (n: nat)
    ensures n <= |s|
    ensures d !in s[..n]
    ensures n < |s| ==> s[n] == d
  {
    if s == [] || s[0] == d then 0
    else
      var m := TokenEnd(s[1..], d);
      assert s[..m + 1] == [s[0]] + s[1..][..m];
      m + 1
  }

  /** The tokens of `s`, left to right, for the delimiter `d`. */
  function Split(s: string, d: char): (r: seq<string>)
    ensures forall i :: 0 <= i < |r| ==> IsToken(r[i], d)
    decreases |s|
  {
    if s == [] then []
    else if s[0] == d then Split(s[1..], d)
    else
      var n := TokenEnd(s, d);
      [s[..n]] + Split(s[n..], d)
  }

  /** The tokens joined with `sep` between neighbours. */
  function Join(ts: seq<string>, sep: string): string {
    if |ts| == 0 then []
    else if |ts| == 1 then ts[0]
    else ts[0] + sep + Join(ts[1..], sep)
  }

  /** The tokens written one after the other. */
  function Concat(ts: seq<string>): string {
    if ts == [] then [] else ts[0] + Concat(ts[1..])
  }

  /** `s` with every occurrence of `d` deleted. */
  function RemoveAll(s: string, d: char): string {
    if s == [] then []
    else (if s[0] == d then [] else [s[0]]) + RemoveAll(s[1..], d)
  }

  /** Where the scan of `strtok` stopped: the token found and the index it resumes from. */
  datatype Found = Found(token: string, resume: nat)

  /**
    One call of `strtok` that continues from index `pos` of `s`: skip
    delimiters, take the characters up to the next delimiter, and resume
    after that delimiter. `None` is the NULL returned when only delimiters
    are left.
   */
  function NextToken(s: string, pos: nat, d: char): (r: Option<Found>)
    requires pos <= |s|
    ensures r.None? ==> Split(s[pos..], d) == []
    ensures r.Some? ==> pos < r.value.resume <= |s|
    ensures r.Some? ==> Split(s[pos..], d) == [r.value.token] + Split(s[r.value.resume..], d)
    decreases |s| - pos
  {
    if pos == |s| then None
    else if s[pos] == d then
      assert s[pos..][1..] == s[pos + 1..];
      NextToken(s, pos + 1, d)
    else
      var n := TokenEnd(s[pos..], d);
      var e := pos + n;
      assert s[pos..][..n] == s[pos..e];
      assert s[pos..][n..] == s[e..];
      if e < |s| then
        assert s[e..][1..] == s[e + 1..];
        Some(Found(s[pos..e], e + 1))
      else
        Some(Found(s[pos..e], e))
  }

  /**
    The tokenizing loop of the shell: call `strtok` until it returns NULL,
    storing each token in the next `argv` slot. The source's array has
    `ArgvCapacity` slots, so the line may hold fewer tokens than that.
   */
  method Tokenize(line: string) returns (argv: seq<string>)
    requires |Split(line, ' ')| < ArgvCapacity
    ensures argv == Split(line, ' ')
  {
    argv := [];
    var pos := 0;
    var found := NextToken(line, pos, ' ');
    assert line[pos..] == line;
    while found.Some?
      invariant pos <= |line|
      invariant found == NextToken(line, pos, ' ')
      invariant argv + Split(line[pos..], ' ') == Split(line, ' ')
      invariant |argv| < ArgvCapacity
      decreases |line| - pos
    {
      argv := argv + [found.value.token];
      pos := found.value.resume;
      found := NextToken(line, pos, ' ');
    }
  }

  /** `TokenEnd` is the only length with the three properties of its contract. */
  lemma TokenEndUnique(s: string, d: char, m: nat)
    requires m <= |s|
    requires d !in s[..m]
    requires m < |s| ==> s[m] == d
    ensures m == TokenEnd(s, d)
  {
  }

  /** A token on its own splits into itself. */
  lemma SplitToken(t: string, d: char)
    requires IsToken(t, d)
    ensures Split(t, d) == [t]
  {
    TokenEndUnique(t, d, |t|);
    assert t[..|t|] == t;
    assert t[|t|..] == [];
  }

  /** A string made only of delimiters has no tokens. */
  lemma {:induction false} SplitDelimiters(g: string, d: char)
    requires forall i :: 0 <= i < |g| ==> g[i] == d
    ensures Split(g, d) == []
    decreases |g|
  {
    if g != [] {
      SplitDelimiters(g[1..], d);
    }
  }

  /**
    A delimiter separates: the tokens of `x + [d] + y` are those of `x`
    followed by those of `y`, and no token spans the delimiter.
   */
  lemma {:induction false} SplitAround(x: string, y: string, d: char)
    ensures Split(x + [d] + y, d) == Split(x, d) + Split(y, d)
    decreases |x|
  {
    var s := x + [d] + y;
    if x == [] {
      assert s[1..] == y;
    } else if x[0] == d {
      assert s[1..] == x[1..] + [d] + y;
      SplitAround(x[1..], y, d);
    } else {
      var n := TokenEnd(x, d);
      if n < |x| {
        assert s[..n] == x[..n];
        TokenEndUnique(s, d, n);
        assert s[n..] == x[n..] + [d] + y;
        SplitAround(x[n..], y, d);
      } else {
        assert s[..|x|] == x;
        TokenEndUnique(s, d, |x|);
        assert s[|x|..] == [d] + y;
        assert ([d] + y)[1..] == y;
        SplitToken(x, d);
      }
    }
  }

  /**
    Joining tokens with a single delimiter and splitting again gives back
    the same tokens, in the same order.
   */
  lemma {:induction false} SplitJoin(ts: seq<string>, d: char)
    requires forall i :: 0 <= i < |ts| ==> IsToken(ts[i], d)
    ensures Split(Join(ts, [d]), d) == ts
    decreases |ts|
  {
    if |ts| == 1 {
      SplitToken(ts[0], d);
    } else if |ts| > 1 {
      SplitAround(ts[0], Join(ts[1..], [d]), d);
      SplitToken(ts[0], d);
      SplitJoin(ts[1..], d);
    }
  }

  lemma {:induction false} RemoveAllAppend(a: string, b: string, d: char)
    ensures RemoveAll(a + b, d) == RemoveAll(a, d) + RemoveAll(b, d)
    decreases |a|
  {
    if a == [] {
      assert a + b == b;
    } else {
      assert (a + b)[1..] == a[1..] + b;
      RemoveAllAppend(a[1..], b, d);
    }
  }

  lemma {:induction false} RemoveAllAbsent(t: string, d: char)
    requires d !in t
    ensures RemoveAll(t, d) == t
    decreases |t|
  {
    if t != [] {
      RemoveAllAbsent(t[1..], d);
    }
  }

  /**
    Nothing but delimiters is lost: the tokens, written one after the other,
    are exactly the characters of `s` other than `d`, in their order.
   */
  lemma {:induction false} SplitKeepsContent(s: string, d: char)
    ensures Concat(Split(s, d)) == RemoveAll(s, d)
    decreases |s|
  {
    if s != [] {
      if s[0] == d {
        SplitKeepsContent(s[1..], d);
      } else {
        var n := TokenEnd(s, d);
        var ts := Split(s, d);
        assert ts[0] == s[..n] && ts[1..] == Split(s[n..], d);
        SplitKeepsContent(s[n..], d);
        assert s == s[..n] + s[n..];
        RemoveAllAppend(s[..n], s[n..], d);
        RemoveAllAbsent(s[..n], d);
      }
    }
  }

  /** Only the space splits a command line: a tab stays inside its token. */
  lemma TabIsNotADelimiter()
    ensures Split("ls\t-l", ' ') == ["ls\t-l"]
  {
    SplitToken("ls\t-l", ' ');
  }
}
