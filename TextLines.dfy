/**
 * Lines of a text, as Python's `.` sees them: a line ends at `\n`. The
 * manifest patterns act line by line; these functions give the reference
 * view in which their behaviour is stated.
 */
module TextLines {
  import opened Text

  /** The length of the first line of `t`: the index of the first newline, or `|t|`. */
  function LineLength(t: string): (n: nat)
    ensures n <= |t| && '\n' !in t[..n] && (n < |t| ==> t[n] == '\n')
    decreases |t|
  {
    if t == [] || t[0] == '\n' then 0
    else
      var n := LineLength(t[1..]);
      assert t[..n + 1] == [t[0]] + t[1..][..n];
      1 + n
  }

  /** `s.split('\n')`: always at least one line, none holding a newline. */
  function Lines(s: string): (ls: seq<string>)
    ensures |ls| >= 1
    ensures forall k :: 0 <= k < |ls| ==> '\n' !in ls[k]
    decreases |s|
  {
    var n := LineLength(s);
    if n == |s| then [s] else [s[..n]] + Lines(s[n + 1..])
  }

  /** `'\n'.join(ls)`. */
  function Unlines(ls: seq<string>): string
    requires |ls| >= 1
  {
    if |ls| == 1 then ls[0] else ls[0] + "\n" + Unlines(ls[1..])
  }

  /** A text whose first line ends with a line break is that line, the break and the rest. */
  lemma SplitFirstLine(s: string)
    requires LineLength(s) < |s|
    ensures s == s[..LineLength(s)] + ("\n" + s[LineLength(s) + 1..])
  {
    var n := LineLength(s);
    SplitAt(s, n);
  }

  lemma UnlinesCons(a: string, ls: seq<string>)
    requires |ls| >= 1
    ensures Unlines([a] + ls) == a + ("\n" + Unlines(ls))
  {
    assert ([a] + ls)[1..] == ls;
  }

  lemma LineLengthOfLine(x: string, t: string)
    requires '\n' !in x && (t == [] || t[0] == '\n')
    ensures LineLength(x + t) == |x|
    decreases |x|
  {
    if x != [] {
      assert (x + t)[1..] == x[1..] + t;
      LineLengthOfLine(x[1..], t);
    }
  }

  /** Splitting and joining are inverse. */
  lemma {:induction false} UnlinesLines(s: string)
    ensures Unlines(Lines(s)) == s
    decreases |s|
  {
    var n := LineLength(s);
    if n < |s| {
      var rest := s[n + 1..];
      UnlinesLines(rest);
      assert Lines(s) == [s[..n]] + Lines(rest);
      UnlinesCons(s[..n], Lines(rest));
      SplitFirstLine(s);
    }
  }

  lemma {:induction false} LinesUnlines(ls: seq<string>)
    requires |ls| >= 1 && forall k :: 0 <= k < |ls| ==> '\n' !in ls[k]
    ensures Lines(Unlines(ls)) == ls
    decreases |ls|
  {
    if |ls| == 1 {
      LineLengthOfLine(ls[0], []);
      assert ls[0] + [] == ls[0];
    } else {
      var rest := Unlines(ls[1..]);
      var s := ls[0] + "\n" + rest;
      LineLengthOfLine(ls[0], "\n" + rest);
      assert s == ls[0] + ("\n" + rest);
      assert s[..|ls[0]|] == ls[0];
      assert s[|ls[0]| + 1..] == rest;
      LinesUnlines(ls[1..]);
    }
  }
}
