/**
 * The greedy substitution `re.sub(r'<Tag>.*</Tag>', replacement, content)`
 * behind update_csproj_file. Every match is replaced, from the left; `.*`
 * first runs to the end of the line and then backs off to the last closing
 * tag on that line.
 */
module TagReplace {
  import opened Wrappers
  import opened Text
  import opened TextLines
  import opened TagSearch

  /** The backtracking of `.*`: from `n` down to 0, the first position where `close` starts. */
  function LastCloseUpTo(t: string, close: string, n: nat): (r: Option<nat>)
    requires n <= |t|
    ensures r.Some? ==> r.value <= n && StartsAt(t, close, r.value)
    ensures r.Some? ==> forall m: nat :: r.value < m <= n ==> !StartsAt(t, close, m)
    ensures r.None? ==> forall m: nat :: m <= n ==> !StartsAt(t, close, m)
    decreases n
  {
    if StartsAt(t, close, n) then Some(n)
    else if n == 0 then None
    else LastCloseUpTo(t, close, n - 1)
  }

  /** `<Tag>.*</Tag>` tried at the head of `s`: the length of the matched span. */
  function GreedyMatch(s: string, name: string): (n: Option<nat>)
    ensures n.Some? ==> |OpenTag(name)| + |CloseTag(name)| <= n.value <= |s|
  {
    var open, close := OpenTag(name), CloseTag(name);
    if !StartsAt(s, open, 0) then None
    else
      var t := s[|open|..];
      match LastCloseUpTo(t, close, LineLength(t))
      case None => None
      case Some(j) => Some(|open| + j + |close|)
  }

  /** `re.sub`: matches are found from the left, without overlap, and each is replaced by `r`. */
  function ReplaceAll(s: string, name: string, r: string): string
    decreases |s|
  {
    if s == [] then []
    else match GreedyMatch(s, name)
      case Some(n) => r + ReplaceAll(s[n..], name, r)
      case None => [s[0]] + ReplaceAll(s[1..], name, r)
  }

  /**
   * Reference: what the substitution does to one line. A line with an opening
   * tag followed by a closing tag has the span from its first opening tag to
   * its last closing tag replaced; any other line is left as it is.
   */
  function RewriteLine(line: string, name: string, r: string): string
  {
    var a, b := IndexOf(line, OpenTag(name)), LastIndexOf(line, CloseTag(name));
    if a.Some? && b.Some? && a.value + |OpenTag(name)| <= b.value
    then line[..a.value] + r + line[b.value + |CloseTag(name)|..]
    else line
  }

  /** Reference: every line rewritten. */
  function RewriteLines(ls: seq<string>, name: string, r: string): (rs: seq<string>)
    ensures |rs| == |ls|
    ensures forall k :: 0 <= k < |ls| ==> rs[k] == RewriteLine(ls[k], name, r)
  {
    if ls == [] then [] else [RewriteLine(ls[0], name, r)] + RewriteLines(ls[1..], name, r)
  }

  /**
   * Reference: on a line that starts with the opening tag, the span up to the
   * end of the line's last closing tag, if that tag comes after the opening one.
   */
  function SpanToLastClose(x: string, name: string): Option<nat>
  {
    var open, close := OpenTag(name), CloseTag(name);
    if StartsAt(x, open, 0) && LastIndexOf(x, close).Some? && LastIndexOf(x, close).value >= |open|
    then Some(LastIndexOf(x, close).value + |close|)
    else None
  }

  /**
   * Backing off from the end of the line `y` (in `x = a + y`, `|a| == k`)
   * finds the last closing tag of `x`, if that tag lies within `y`.
   */
  lemma LastCloseOnLine(x: string, t: string, close: string, k: nat)
    requires k <= |x| && '\n' !in close && (t == [] || t[0] == '\n')
    ensures LastCloseUpTo(x[k..] + t, close, |x| - k) ==
      if LastIndexOf(x, close).Some? && LastIndexOf(x, close).value >= k
      then Some(LastIndexOf(x, close).value - k) else None
  {
    var y := x[k..];
    var u := y + t;
    var n := |y|;
    forall m: nat | m <= n ensures StartsAt(u, close, m) <==> StartsAt(x, close, k + m) {
      StartsAtLine(y, t, close, m);
      StartsAtSlice(x, close, k, |x|, m);
    }
    match LastIndexOf(x, close)
    case Some(b) =>
      if b >= k {
        assert StartsAt(u, close, b - k);
        forall m: nat | b - k < m <= n ensures !StartsAt(u, close, m) {
          assert !StartsAt(x, close, k + m);
        }
        assert LastCloseUpTo(u, close, n) == Some(b - k);
      } else {
        forall m: nat | m <= n ensures !StartsAt(u, close, m) {
          assert !StartsAt(x, close, k + m);
        }
        assert LastCloseUpTo(u, close, n) == None;
      }
    case None =>
      forall m: nat | m <= n ensures !StartsAt(u, close, m) {
        assert !StartsAt(x, close, k + m);
      }
  }

  /** On a line followed by a line break (or by nothing), the greedy match ends at the line's last closing tag. */
  lemma GreedyMatchLine(x: string, t: string, name: string)
    requires IsTagName(name) && '\n' !in x && (t == [] || t[0] == '\n')
    ensures GreedyMatch(x + t, name) == SpanToLastClose(x, name)
  {
    var open, close := OpenTag(name), CloseTag(name);
    TagShapes(name);
    var s := x + t;
    StartsAtLine(x, t, open, 0);
    if StartsAt(x, open, 0) {
      var k := |open|;
      DropConcat(x, t, k);
      LineLengthOfLine(x[k..], t);
      LastCloseOnLine(x, t, close, k);
    }
  }

  /** Where no match starts, `re.sub` keeps the character and moves on. */
  lemma ReplaceAllSkip(s: string, name: string, r: string)
    requires s != [] && GreedyMatch(s, name).None?
    ensures ReplaceAll(s, name, r) == [s[0]] + ReplaceAll(s[1..], name, r)
  {
  }

  /** Where a match starts, `re.sub` emits the replacement and resumes after the match. */
  lemma ReplaceAllJump(s: string, name: string, r: string)
    requires GreedyMatch(s, name).Some?
    ensures ReplaceAll(s, name, r) == r + ReplaceAll(s[GreedyMatch(s, name).value..], name, r)
  {
  }

  /** A line with no greedy match at its head is rewritten from its second character on. */
  lemma RewriteLineTail(x: string, name: string, r: string)
    requires IsTagName(name) && |x| > 0 && SpanToLastClose(x, name).None?
    ensures RewriteLine(x, name, r) == [x[0]] + RewriteLine(x[1..], name, r)
  {
    if StartsAt(x, OpenTag(name), 0) {
      RewriteLineKept(x, name, r);
    } else {
      RewriteLineShift(x, name, r);
    }
  }

  /**
   * A line that starts with an opening tag but has no closing tag after it is
   * kept, and so is its tail.
   */
  lemma RewriteLineKept(x: string, name: string, r: string)
    requires IsTagName(name) && |x| > 0 && SpanToLastClose(x, name).None? && StartsAt(x, OpenTag(name), 0)
    ensures RewriteLine(x, name, r) == x && RewriteLine(x[1..], name, r) == x[1..]
  {
    var open, close := OpenTag(name), CloseTag(name);
    TagShapes(name);
    StartsAtTailAll(x, close);
    var a1, b1 := IndexOf(x[1..], open), LastIndexOf(x[1..], close);
    if a1.Some? && b1.Some? {
      assert StartsAt(x, close, b1.value + 1);
      assert b1.value + 1 < |open|;
    }
  }

  /** A line that does not start with an opening tag is rewritten as its tail is, after its first character. */
  lemma RewriteLineShift(x: string, name: string, r: string)
    requires IsTagName(name) && |x| > 0 && !StartsAt(x, OpenTag(name), 0)
    ensures RewriteLine(x, name, r) == [x[0]] + RewriteLine(x[1..], name, r)
  {
    if IndexOf(x[1..], OpenTag(name)).Some? && LastIndexOf(x[1..], CloseTag(name)).Some? {
      ShiftBothTags(x, name, r);
    } else {
      ShiftMissingTag(x, name, r);
    }
  }

  /** RewriteLineShift when the tail holds both tags: both are found one place later in `x`. */
  lemma ShiftBothTags(x: string, name: string, r: string)
    requires |x| > 0 && !StartsAt(x, OpenTag(name), 0)
    requires IndexOf(x[1..], OpenTag(name)).Some? && LastIndexOf(x[1..], CloseTag(name)).Some?
    ensures RewriteLine(x, name, r) == [x[0]] + RewriteLine(x[1..], name, r)
  {
    var a, b := IndexOf(x[1..], OpenTag(name)).value, LastIndexOf(x[1..], CloseTag(name)).value;
    IndexOfShift(x, OpenTag(name));
    LastIndexOfShift(x, CloseTag(name));
    RewriteLineAt(x, name, r, a + 1, b + 1);
    RewriteLineAt(x[1..], name, r, a, b);
    if a + |OpenTag(name)| <= b {
      SpliceShift(x, a, b + |CloseTag(name)|, r);
    } else {
      assert x == [x[0]] + x[1..];
    }
  }

  /** The first occurrence in `x`, when `x` does not start with `p`, is one place after the first in its tail. */
  lemma IndexOfShift(x: string, p: string)
    requires |x| > 0 && !StartsAt(x, p, 0) && IndexOf(x[1..], p).Some?
    ensures IndexOf(x, p) == Some(IndexOf(x[1..], p).value + 1)
  {
  }

  /** The last occurrence in `x` is one place after the last in its tail, when there is one. */
  lemma LastIndexOfShift(x: string, p: string)
    requires |x| > 0 && LastIndexOf(x[1..], p).Some?
    ensures LastIndexOf(x, p) == Some(LastIndexOf(x[1..], p).value + 1)
  {
  }

  /** RewriteLine once the first opening tag and the last closing tag are known. */
  lemma RewriteLineAt(x: string, name: string, r: string, a: nat, b: nat)
    requires IndexOf(x, OpenTag(name)) == Some(a) && LastIndexOf(x, CloseTag(name)) == Some(b)
    ensures b + |CloseTag(name)| <= |x|
    ensures RewriteLine(x, name, r) ==
      if a + |OpenTag(name)| <= b then x[..a] + r + x[b + |CloseTag(name)|..] else x
  {
  }

  /** RewriteLineShift when the tail lacks a tag: neither `x` nor its tail is rewritten. */
  lemma ShiftMissingTag(x: string, name: string, r: string)
    requires IsTagName(name) && |x| > 0 && !StartsAt(x, OpenTag(name), 0)
    requires IndexOf(x[1..], OpenTag(name)).None? || LastIndexOf(x[1..], CloseTag(name)).None?
    ensures RewriteLine(x, name, r) == [x[0]] + RewriteLine(x[1..], name, r)
  {
    assert x == [x[0]] + x[1..];
    assert RewriteLine(x[1..], name, r) == x[1..];
    assert IndexOf(x, OpenTag(name)).None? || LastIndexOf(x, CloseTag(name)).None? ||
           LastIndexOf(x, CloseTag(name)).value < IndexOf(x, OpenTag(name)).value + |OpenTag(name)|;
  }

  /** Replacing `x[a + 1..c + 1]` keeps the first character in front of the same replacement in `x[1..]`. */
  lemma SpliceShift(x: string, a: nat, c: nat, r: string)
    requires |x| > 0 && a <= c < |x|
    ensures x[..a + 1] + r + x[c + 1..] == [x[0]] + (x[1..][..a] + r + x[1..][c..])
  {
    assert x[..a + 1] == [x[0]] + x[1..][..a];
    assert x[c + 1..] == x[1..][c..];
  }

  /** A line without closing tags is never rewritten. */
  lemma RewriteLineNoClose(x: string, name: string, r: string)
    requires LastIndexOf(x, CloseTag(name)).None?
    ensures RewriteLine(x, name, r) == x
  {
  }

  /**
   * A line that starts with a greedy match is rewritten into the replacement
   * followed by the rest of the line, and that rest has no closing tag left.
   */
  lemma RewriteLineSpan(x: string, name: string, r: string)
    requires SpanToLastClose(x, name).Some?
    ensures SpanToLastClose(x, name).value <= |x|
    ensures RewriteLine(x, name, r) == r + x[SpanToLastClose(x, name).value..]
    ensures RewriteLine(x[SpanToLastClose(x, name).value..], name, r) == x[SpanToLastClose(x, name).value..]
  {
    var open, close := OpenTag(name), CloseTag(name);
    var n := SpanToLastClose(x, name).value;
    var b := LastIndexOf(x, close).value;
    assert IndexOf(x, open) == Some(0);
    forall m: nat ensures !StartsAt(x[n..], close, m) {
      StartsAtSlice(x, close, n, |x|, m);
    }
    RewriteLineNoClose(x[n..], name, r);
  }

  /** A line followed by a line break (or by nothing) is rewritten on its own. */
  lemma {:induction false} ReplaceLine(x: string, t: string, name: string, r: string)
    requires IsTagName(name) && '\n' !in x && (t == [] || t[0] == '\n')
    ensures ReplaceAll(x + t, name, r) == RewriteLine(x, name, r) + ReplaceAll(t, name, r)
    decreases |x|, 1
  {
    if x == [] {
      assert x + t == t;
      assert IndexOf(x, OpenTag(name)) == None;
    } else {
      GreedyMatchLine(x, t, name);
      if GreedyMatch(x + t, name).Some? {
        ReplaceLineAtMatch(x, t, name, r);
      } else {
        ReplaceLineNoMatch(x, t, name, r);
      }
    }
  }

  lemma {:induction false} ReplaceLineAtMatch(x: string, t: string, name: string, r: string)
    requires IsTagName(name) && '\n' !in x && (t == [] || t[0] == '\n')
    requires x != [] && GreedyMatch(x + t, name).Some?
    ensures ReplaceAll(x + t, name, r) == RewriteLine(x, name, r) + ReplaceAll(t, name, r)
    decreases |x|, 0
  {
    var s := x + t;
    GreedyMatchLine(x, t, name);
    var n := GreedyMatch(s, name).value;
    var y, rt := x[n..], ReplaceAll(t, name, r);
    RewriteLineSpan(x, name, r);
    ReplaceAllJump(s, name, r);
    DropConcat(x, t, n);
    ReplaceLine(y, t, name, r);
    assert ReplaceAll(s, name, r) == r + (y + rt);
    assert RewriteLine(x, name, r) == r + y;
    ConcatAssoc(r, y, rt);
  }

  lemma {:induction false} ReplaceLineNoMatch(x: string, t: string, name: string, r: string)
    requires IsTagName(name) && '\n' !in x && (t == [] || t[0] == '\n')
    requires x != [] && GreedyMatch(x + t, name).None?
    ensures ReplaceAll(x + t, name, r) == RewriteLine(x, name, r) + ReplaceAll(t, name, r)
    decreases |x|, 0
  {
    var s := x + t;
    var c, y, rt := [x[0]], x[1..], ReplaceAll(t, name, r);
    ReplaceAllSkip(s, name, r);
    assert s[0] == x[0];
    DropConcat(x, t, 1);
    ReplaceLine(y, t, name, r);
    GreedyMatchLine(x, t, name);
    RewriteLineTail(x, name, r);
    ConcatAssoc(c, RewriteLine(y, name, r), rt);
  }

  lemma ReplaceAfterNewline(u: string, name: string, r: string)
    ensures ReplaceAll("\n" + u, name, r) == "\n" + ReplaceAll(u, name, r)
  {
    assert ("\n" + u)[1..] == u;
    assert !StartsAt("\n" + u, OpenTag(name), 0) by {
      assert OpenTag(name)[0] == '<';
    }
  }

  lemma RewriteLinesCons(line: string, ls: seq<string>, name: string, r: string)
    ensures RewriteLines([line] + ls, name, r) == [RewriteLine(line, name, r)] + RewriteLines(ls, name, r)
  {
    assert ([line] + ls)[1..] == ls;
  }

  lemma ReplaceSingleLine(s: string, name: string, r: string)
    requires IsTagName(name) && LineLength(s) == |s|
    ensures ReplaceAll(s, name, r) == Unlines(RewriteLines(Lines(s), name, r))
  {
    var e: string := [];
    assert s + e == s;
    ReplaceLine(s, e, name, r);
    var h := RewriteLine(s, name, r);
    assert ReplaceAll(e, name, r) == e;
    assert h + e == h;
    assert Lines(s) == [s];
    assert RewriteLines([s], name, r) == [h];
    calc {
      Unlines(RewriteLines(Lines(s), name, r));
      Unlines([h]);
      h;
      ReplaceAll(s, name, r);
    }
  }

  /** The step of ReplaceByLines: the first line, then the line break, then the rest. */
  lemma ReplaceFirstLine(s: string, name: string, r: string)
    requires IsTagName(name) && LineLength(s) < |s|
    requires ReplaceAll(s[LineLength(s) + 1..], name, r) == Unlines(RewriteLines(Lines(s[LineLength(s) + 1..]), name, r))
    ensures ReplaceAll(s, name, r) == Unlines(RewriteLines(Lines(s), name, r))
  {
    var n := LineLength(s);
    var line, rest := s[..n], s[n + 1..];
    var u := "\n" + rest;
    SplitFirstLine(s);
    ReplaceLine(line, u, name, r);
    ReplaceAfterNewline(rest, name, r);
    var tail := RewriteLines(Lines(rest), name, r);
    RewriteLinesCons(line, Lines(rest), name, r);
    UnlinesCons(RewriteLine(line, name, r), tail);
  }

  /**
   * update_csproj_file's substitution works line by line: each line is
   * rewritten on its own (first opening tag to last closing tag replaced, or
   * nothing), and the line breaks stay where they were.
   */
  lemma {:induction false} ReplaceByLines(s: string, name: string, r: string)
    requires IsTagName(name)
    ensures ReplaceAll(s, name, r) == Unlines(RewriteLines(Lines(s), name, r))
    decreases |s|
  {
    if LineLength(s) < |s| {
      ReplaceByLines(s[LineLength(s) + 1..], name, r);
      ReplaceFirstLine(s, name, r);
    } else {
      ReplaceSingleLine(s, name, r);
    }
  }

  lemma RewriteLineNoNewline(x: string, name: string, r: string)
    requires '\n' !in x && '\n' !in r
    ensures '\n' !in RewriteLine(x, name, r)
  {
    var open, close := OpenTag(name), CloseTag(name);
    match (IndexOf(x, open), LastIndexOf(x, close))
    case (Some(a), Some(b)) =>
      if a + |open| <= b {
        assert x == x[..a] + x[a..];
        assert x == x[..b + |close|] + x[b + |close|..];
      }
    case _ =>
  }

  /** With a replacement that holds no line break, the lines after the substitution are the rewritten lines. */
  lemma LinesOfReplaceAll(s: string, name: string, r: string)
    requires IsTagName(name) && '\n' !in r
    ensures Lines(ReplaceAll(s, name, r)) == RewriteLines(Lines(s), name, r)
  {
    var ls := Lines(s);
    var rs := RewriteLines(ls, name, r);
    ReplaceByLines(s, name, r);
    forall k | 0 <= k < |rs| ensures '\n' !in rs[k] {
      RewriteLineNoNewline(ls[k], name, r);
    }
    LinesUnlines(rs);
  }
}
