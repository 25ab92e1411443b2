/**
 * The non-greedy lookup `re.search(r'<Tag>(.*?)</Tag>', content)` behind
 * get_current_version and get_package_info. The manifest is flat text, not
 * parsed XML. Python's `.` matches every character except a newline, so a
 * match never crosses a line break.
 */
module TagSearch {
  import opened Wrappers
  import opened Text
  import opened TextLines

  function OpenTag(name: string): string { "<" + name + ">" }

  function CloseTag(name: string): string { "</" + name + ">" }

  /** Every tag name the script uses contains neither `<` nor a newline. */
  predicate IsTagName(name: string)
  {
    '<' !in name && '\n' !in name
  }

  lemma TagShapes(name: string)
    requires IsTagName(name)
    ensures SingleLt(OpenTag(name)) && SingleLt(CloseTag(name))
    ensures |CloseTag(name)| >= 3 && CloseTag(name)[1] == '/'
  {
    assert forall k :: 1 <= k < |OpenTag(name)| - 1 ==> OpenTag(name)[k] == name[k - 1];
    assert forall k :: 2 <= k < |CloseTag(name)| - 1 ==> CloseTag(name)[k] == name[k - 2];
  }

  /**
   * `(.*?)` followed by `close`, tried at the head of `t`: the lazy star
   * tries the closing tag before consuming each further character, and stops
   * at a newline.
   */
  function LazyGroup(t: string, close: string): Option<string>
    decreases |t|
  {
    if StartsAt(t, close, 0) then Some([])
    else if t == [] || t[0] == '\n' then None
    else match LazyGroup(t[1..], close)
      case None => None
      case Some(g) => Some([t[0]] + g)
  }

  /** The whole pattern tried at the head of `s`; the result is group 1. */
  function MatchHere(s: string, name: string): Option<string>
  {
    var open := OpenTag(name);
    if StartsAt(s, open, 0) then LazyGroup(s[|open|..], CloseTag(name)) else None
  }

  /** `re.search`: the pattern is tried at each position from the left and the first success wins. */
  function Search(s: string, name: string): Option<string>
    decreases |s|
  {
    if MatchHere(s, name).Some? then MatchHere(s, name)
    else if s == [] then None
    else Search(s[1..], name)
  }

  /** Reference: an opening tag at `i`, a closing tag at `j`, and no newline in between. */
  ghost predicate PairAt(s: string, name: string, i: nat, j: nat)
  {
    StartsAt(s, OpenTag(name), i) && i + |OpenTag(name)| <= j && StartsAt(s, CloseTag(name), j)
    && '\n' !in s[i + |OpenTag(name)|..j]
  }

  /** Reference: the leftmost pair, closed by the nearest closing tag after its opening tag. */
  ghost predicate FirstPair(s: string, name: string, i: nat, j: nat)
  {
    && PairAt(s, name, i, j)
    && (forall i': nat, j': nat :: i' < i ==> !PairAt(s, name, i', j'))
    && (forall j': nat :: j' < j ==> !PairAt(s, name, i, j'))
  }

  lemma {:induction false} LazyGroupSpec(t: string, close: string)
    ensures LazyGroup(t, close).Some? ==>
      var g := LazyGroup(t, close).value;
      && |g| <= |t| && g == t[..|g|] && '\n' !in g && StartsAt(t, close, |g|)
      && forall m: nat :: m < |g| ==> !StartsAt(t, close, m)
    ensures LazyGroup(t, close).None? ==>
      forall m: nat :: m <= |t| ==> '\n' in t[..m] || !StartsAt(t, close, m)
    decreases |t|
  {
    if StartsAt(t, close, 0) {
    } else if t == [] {
    } else if t[0] == '\n' {
      forall m: nat | m <= |t| ensures '\n' in t[..m] || !StartsAt(t, close, m) {
        if m > 0 { assert t[..m][0] == t[0]; }
      }
    } else {
      LazyGroupSpec(t[1..], close);
      forall m: nat | m < |t| ensures StartsAt(t, close, m + 1) <==> StartsAt(t[1..], close, m) {
        StartsAtTail(t, close, m);
      }
      match LazyGroup(t[1..], close)
      case None =>
        forall m: nat | m <= |t| ensures '\n' in t[..m] || !StartsAt(t, close, m) {
          if m > 0 {
            assert t[..m] == [t[0]] + t[1..][..m - 1];
          }
        }
      case Some(g) =>
        assert t[..|g| + 1] == [t[0]] + t[1..][..|g|];
        forall m: nat | m < |g| + 1 ensures !StartsAt(t, close, m) {
          if m > 0 {
            assert !StartsAt(t[1..], close, m - 1);
          }
        }
    }
  }

  lemma PairAtTail(s: string, name: string, i: nat, j: nat)
    requires |s| > 0
    ensures PairAt(s, name, i + 1, j + 1) <==> PairAt(s[1..], name, i, j)
  {
    StartsAtTail(s, OpenTag(name), i);
    StartsAtTail(s, CloseTag(name), j);
    if i + |OpenTag(name)| <= j < |s| {
      SliceOfTail(s, i + 1 + |OpenTag(name)|, j + 1);
    }
  }

  /** What MatchHere finds is a pair at position 0, closed by the nearest closing tag. */
  lemma MatchHereSpec(s: string, name: string)
    ensures MatchHere(s, name).Some? ==>
      var j := |OpenTag(name)| + |MatchHere(s, name).value|;
      FirstPair(s, name, 0, j) && MatchHere(s, name).value == s[|OpenTag(name)|..j]
    ensures MatchHere(s, name).None? ==> forall j: nat :: !PairAt(s, name, 0, j)
  {
    var open, close := OpenTag(name), CloseTag(name);
    if StartsAt(s, open, 0) {
      var t := s[|open|..];
      LazyGroupSpec(t, close);
      forall m: nat | m <= |t| ensures StartsAt(t, close, m) <==> StartsAt(s, close, |open| + m) {
        StartsAtSlice(s, close, |open|, |s|, m);
      }
      forall j: nat | |open| <= j <= |s| ensures s[|open|..j] == t[..j - |open|] { }
      match LazyGroup(t, close)
      case Some(g) =>
        var j := |open| + |g|;
        assert PairAt(s, name, 0, j);
        forall j': nat | j' < j ensures !PairAt(s, name, 0, j') {
          if |open| <= j' { assert !StartsAt(t, close, j' - |open|); }
        }
      case None =>
        forall j: nat ensures !PairAt(s, name, 0, j) {
          if |open| <= j <= |s| {
            assert '\n' in t[..j - |open|] || !StartsAt(t, close, j - |open|);
          }
        }
    }
  }

  /**
   * get_current_version and get_package_info succeed exactly when some
   * opening tag is followed on the same line by a closing tag.
   */
  lemma {:induction false} SearchNone(s: string, name: string)
    ensures Search(s, name).None? <==> forall i: nat, j: nat :: !PairAt(s, name, i, j)
    decreases |s|
  {
    MatchHereSpec(s, name);
    if MatchHere(s, name).Some? {
      assert PairAt(s, name, 0, |OpenTag(name)| + |MatchHere(s, name).value|);
    } else if s != [] {
      SearchNone(s[1..], name);
      assert Search(s, name) == Search(s[1..], name);
      if Search(s[1..], name).None? {
        forall i: nat, j: nat ensures !PairAt(s, name, i, j) {
          if i > 0 && j > 0 { PairAtTail(s, name, i - 1, j - 1); }
        }
      } else {
        var i: nat, j: nat :| PairAt(s[1..], name, i, j);
        PairAtTail(s, name, i, j);
      }
    }
  }

  /** The positions behind a successful Search. */
  lemma {:induction false} SearchWitness(s: string, name: string) returns (i: nat, j: nat)
    requires Search(s, name).Some?
    ensures FirstPair(s, name, i, j) && Search(s, name).value == s[i + |OpenTag(name)|..j]
    decreases |s|
  {
    MatchHereSpec(s, name);
    if MatchHere(s, name).Some? {
      i, j := 0, |OpenTag(name)| + |MatchHere(s, name).value|;
    } else {
      var i0, j0 := SearchWitness(s[1..], name);
      FirstPairShift(s, name, i0, j0);
      SliceOfTail(s, i0 + 1 + |OpenTag(name)|, j0 + 1);
      i, j := i0 + 1, j0 + 1;
    }
  }

  /** With no pair at position 0, the first pair of `s[1..]` is, one place on, the first pair of `s`. */
  lemma FirstPairShift(s: string, name: string, i0: nat, j0: nat)
    requires |s| > 0 && (forall j: nat :: !PairAt(s, name, 0, j)) && FirstPair(s[1..], name, i0, j0)
    ensures FirstPair(s, name, i0 + 1, j0 + 1)
  {
    PairAtTail(s, name, i0, j0);
    forall i': nat, j': nat | i' < i0 + 1 ensures !PairAt(s, name, i', j') {
      if i' > 0 && j' > 0 { PairAtTail(s, name, i' - 1, j' - 1); }
    }
    var i: nat := i0 + 1;
    forall j': nat | j' < j0 + 1 ensures !PairAt(s, name, i, j') {
      if j' > 0 { PairAtTail(s, name, i0, j' - 1); }
    }
  }

  /**
   * When they succeed, they return the text between the leftmost opening tag
   * that has a closing tag on its line and the nearest such closing tag.
   */
  lemma SearchSpec(s: string, name: string)
    ensures Search(s, name).Some? ==>
      exists i: nat, j: nat :: FirstPair(s, name, i, j) && Search(s, name).value == s[i + |OpenTag(name)|..j]
  {
    if Search(s, name).Some? {
      var i, j := SearchWitness(s, name);
    }
  }

  /** A found value never holds a newline or the closing tag. */
  lemma SearchValueShape(s: string, name: string)
    ensures Search(s, name).Some? ==>
      '\n' !in Search(s, name).value && !Contains(Search(s, name).value, CloseTag(name))
  {
    if Search(s, name).Some? {
      var open, close := OpenTag(name), CloseTag(name);
      var v := Search(s, name).value;
      var i, j := SearchWitness(s, name);
      forall m: nat | m <= |v| ensures !StartsAt(v, close, m) {
        StartsAtSlice(s, close, i + |open|, j, m);
        assert s[i + |open|..i + |open| + m] == v[..m];
        var jm: nat := i + |open| + m;
        assert StartsAt(v, close, m) ==> PairAt(s, name, i, jm);
      }
    }
  }

  /** On a line followed by a line break (or by nothing), the lazy group sees only that line. */
  lemma {:induction false} LazyGroupLine(x: string, t: string, close: string)
    requires '\n' !in x && (t == [] || t[0] == '\n') && '\n' !in close && |close| > 0
    ensures LazyGroup(x + t, close) == LazyGroup(x, close)
    decreases |x|
  {
    StartsAtLine(x, t, close, 0);
    if x == [] {
      assert x + t == t;
      assert t != [] ==> t[0] != close[0];
    } else {
      assert (x + t)[1..] == x[1..] + t;
      LazyGroupLine(x[1..], t, close);
    }
  }

  lemma MatchHereLine(x: string, t: string, name: string)
    requires IsTagName(name) && '\n' !in x && (t == [] || t[0] == '\n')
    ensures MatchHere(x + t, name) == MatchHere(x, name)
  {
    var open, close := OpenTag(name), CloseTag(name);
    TagShapes(name);
    if |open| <= |x| {
      StartsAtLine(x, t, open, 0);
      assert (x + t)[|open|..] == x[|open|..] + t;
      LazyGroupLine(x[|open|..], t, close);
    } else {
      StartsAtLine(x, t, open, 0);
    }
  }

  /** The search over a line followed by more lines looks at that line first, and only at it. */
  lemma {:induction false} SearchLine(x: string, t: string, name: string)
    requires IsTagName(name) && '\n' !in x && (t == [] || t[0] == '\n')
    ensures Search(x + t, name) == if Search(x, name).Some? then Search(x, name) else Search(t, name)
    decreases |x|
  {
    if x == [] {
      assert x + t == t;
    } else {
      MatchHereLine(x, t, name);
      assert (x + t)[1..] == x[1..] + t;
      SearchLine(x[1..], t, name);
    }
  }

  lemma SearchAfterNewline(u: string, name: string)
    ensures Search("\n" + u, name) == Search(u, name)
  {
    assert ("\n" + u)[1..] == u;
    assert !StartsAt("\n" + u, OpenTag(name), 0) by {
      assert OpenTag(name)[0] == '<';
    }
  }

  /** Reference: the value of the first line on which the tag is found. */
  function FirstFound(ls: seq<string>, name: string): Option<string>
    requires |ls| >= 1
  {
    if Search(ls[0], name).Some? then Search(ls[0], name)
    else if |ls| == 1 then None
    else FirstFound(ls[1..], name)
  }

  /** The search works line by line: its value is that of the first line holding a pair. */
  lemma {:induction false} SearchByLines(s: string, name: string)
    requires IsTagName(name)
    ensures Search(s, name) == FirstFound(Lines(s), name)
    decreases |s|
  {
    var n := LineLength(s);
    if n < |s| {
      assert s == s[..n] + s[n..];
      SearchLine(s[..n], s[n..], name);
      assert s[n..] == "\n" + s[n + 1..];
      SearchAfterNewline(s[n + 1..], name);
      SearchByLines(s[n + 1..], name);
    }
  }

  /** The first line holding a pair decides FirstFound. */
  lemma {:induction false} FirstFoundAt(ls: seq<string>, name: string, k: nat)
    requires k < |ls| && Search(ls[k], name).Some?
    requires forall j :: 0 <= j < k ==> Search(ls[j], name).None?
    ensures FirstFound(ls, name) == Search(ls[k], name)
    decreases k
  {
    if k > 0 {
      assert Search(ls[0], name).None?;
      assert ls[1..][k - 1] == ls[k];
      FirstFoundAt(ls[1..], name, k - 1);
    }
  }

  /** When FirstFound finds something, it is the value of some line that comes before every other line holding a pair. */
  lemma {:induction false} FirstFoundIndex(ls: seq<string>, name: string) returns (k: nat)
    requires |ls| >= 1 && FirstFound(ls, name).Some?
    ensures k < |ls| && Search(ls[k], name) == FirstFound(ls, name)
    ensures forall j :: 0 <= j < k ==> Search(ls[j], name).None?
    decreases |ls|
  {
    if Search(ls[0], name).Some? {
      k := 0;
    } else {
      var k' := FirstFoundIndex(ls[1..], name);
      k := k' + 1;
      assert ls[k] == ls[1..][k'];
      forall j | 0 <= j < k ensures Search(ls[j], name).None? {
        if j > 0 {
          assert ls[j] == ls[1..][j - 1];
        }
      }
    }
  }
}
