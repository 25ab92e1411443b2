/**
 * What update_csproj_file promises the next run of get_current_version: the
 * version it wrote is the version read back. The proof goes line by line
 * (both patterns stop at line breaks): lines before the first line holding a
 * version pair stay free of version pairs, and that line now carries the new
 * version in its first pair.
 */
module RoundTrip {
  import opened Wrappers
  import opened Text
  import opened TextLines
  import opened TagSearch
  import opened TagReplace
  import opened Manifest

  /** The layout of `<name>v</name>`: the two tags around `v`. */
  lemma ElementParts(name: string, v: string)
    ensures |Element(name, v)| == |OpenTag(name)| + |v| + |CloseTag(name)|
    ensures forall k :: 0 <= k < |OpenTag(name)| ==> Element(name, v)[k] == OpenTag(name)[k]
    ensures forall k :: 0 <= k < |v| ==> Element(name, v)[|OpenTag(name)| + k] == v[k]
    ensures forall k :: 0 <= k < |CloseTag(name)| ==>
      Element(name, v)[|OpenTag(name)| + |v| + k] == CloseTag(name)[k]
  {
    assert Element(name, v) == OpenTag(name) + v + CloseTag(name);
  }

  lemma ElementTags(name: string, v: string)
    requires IsTagName(name)
    ensures StartsAt(Element(name, v), OpenTag(name), 0)
    ensures StartsAt(Element(name, v), CloseTag(name), |OpenTag(name)| + |v|)
    ensures Element(name, v)[|OpenTag(name)|..|OpenTag(name)| + |v|] == v
  {
    var open, e := OpenTag(name), Element(name, v);
    ElementParts(name, v);
    assert forall k :: 0 <= k < |v| ==> e[|open|..|open| + |v|][k] == v[k];
  }

  lemma ElementLts(name: string, v: string)
    requires IsTagName(name) && '<' !in v
    ensures forall k :: 0 <= k < |Element(name, v)| && Element(name, v)[k] == '<' ==>
      k == 0 || k == |OpenTag(name)| + |v|
  {
    var open, close, e := OpenTag(name), CloseTag(name), Element(name, v);
    var c := |open| + |v|;
    TagShapes(name);
    ElementParts(name, v);
    forall k | 0 <= k < |e| ensures e[k] == '<' ==> k == 0 || k == c {
      if k < |open| {
        assert e[k] == open[k];
      } else if k < c {
        assert e[|open| + (k - |open|)] == v[k - |open|];
      } else {
        assert e[c + (k - c)] == close[k - c];
      }
    }
  }

  lemma ElementLetters(name: string, v: string)
    requires |name| > 0
    ensures Element(name, v)[1] == name[0]
    ensures Element(name, v)[|OpenTag(name)| + |v| + 1] == '/'
    ensures Element(name, v)[|OpenTag(name)| + |v| + 2] == name[0]
  {
    var c := |OpenTag(name)| + |v|;
    ElementParts(name, v);
    assert Element(name, v)[c + 1] == CloseTag(name)[1];
    assert Element(name, v)[c + 2] == CloseTag(name)[2];
  }

  /** ... whose only `<` are the two tags' first characters when `v` has none. */
  lemma ElementShape(name: string, v: string)
    requires IsTagName(name) && '<' !in v
    ensures |Element(name, v)| == |OpenTag(name)| + |v| + |CloseTag(name)|
    ensures StartsAt(Element(name, v), OpenTag(name), 0)
    ensures StartsAt(Element(name, v), CloseTag(name), |OpenTag(name)| + |v|)
    ensures Element(name, v)[|OpenTag(name)|..|OpenTag(name)| + |v|] == v
    ensures forall k :: 0 <= k < |Element(name, v)| && Element(name, v)[k] == '<' ==>
      k == 0 || k == |OpenTag(name)| + |v|
    ensures |name| > 0 ==> Element(name, v)[1] == name[0]
    ensures |name| > 0 ==> Element(name, v)[|OpenTag(name)| + |v| + 1] == '/'
    ensures |name| > 0 ==> Element(name, v)[|OpenTag(name)| + |v| + 2] == name[0]
  {
    ElementParts(name, v);
    ElementTags(name, v);
    ElementLts(name, v);
    if |name| > 0 {
      ElementLetters(name, v);
    }
  }

  /**
   * `e` is laid out as `<name>v</name>` with no `<` in `v`: the opening tag
   * at 0, `v` after it, the closing tag at the end, and no other `<`.
   */
  predicate Layout(e: string, name: string, v: string)
  {
    var c := |OpenTag(name)| + |v|;
    && |e| == c + |CloseTag(name)|
    && StartsAt(e, OpenTag(name), 0)
    && StartsAt(e, CloseTag(name), c)
    && e[|OpenTag(name)|..c] == v
    && (forall k :: 0 <= k < |e| && e[k] == '<' ==> k == 0 || k == c)
  }

  lemma ElementLayout(name: string, v: string)
    requires IsTagName(name) && '<' !in v
    ensures Layout(Element(name, v), name, v)
  {
    ElementShape(name, v);
  }

  lemma ElementNoNewline(name: string, v: string)
    requires IsTagName(name) && '\n' !in v
    ensures '\n' !in Element(name, v)
  {
  }

  /** The tags of `b` never start inside an element of `a` when the names differ in their first letter. */
  lemma ForeignTags(a: string, v: string, b: string)
    requires IsTagName(a) && IsTagName(b) && |a| > 0 && |b| > 0
    requires a[0] != b[0] && a[0] != '/' && b[0] != '/' && '<' !in v
    ensures NowhereIn(Element(a, v), OpenTag(b)) && NowhereIn(Element(a, v), CloseTag(b))
  {
    var e := Element(a, v);
    var c := |OpenTag(a)| + |v|;
    ElementShape(a, v);
    forall k | 0 <= k < |e| && e[k] == '<'
      ensures exists y :: 0 <= y < |OpenTag(b)| && k + y < |e| && e[k + y] != OpenTag(b)[y]
      ensures exists y :: 0 <= y < |CloseTag(b)| && k + y < |e| && e[k + y] != CloseTag(b)[y]
    {
      assert OpenTag(b)[1] == b[0] && CloseTag(b)[1] == '/' && CloseTag(b)[2] == b[0];
      if k == 0 {
        assert e[k + 1] != OpenTag(b)[1];
        assert e[k + 1] != CloseTag(b)[1];
      } else {
        assert e[k + 1] != OpenTag(b)[1];
        assert e[k + 2] != CloseTag(b)[2];
      }
    }
  }

  lemma TagNames()
    ensures IsTagName(VersionTag) && IsTagName(NotesTag)
    ensures |VersionTag| > 0 && |NotesTag| > 0
    ensures VersionTag[0] == 'V' && NotesTag[0] == 'P'
  {
  }

  /** On a line, an opening tag with a closing tag after it is a pair, so a lookup finds something. */
  lemma PairOnLine(x: string, name: string, i: nat, j: nat)
    requires '\n' !in x && StartsAt(x, OpenTag(name), i) && i + |OpenTag(name)| <= j
    requires StartsAt(x, CloseTag(name), j)
    ensures PairAt(x, name, i, j) && Search(x, name).Some?
  {
    assert forall k :: i + |OpenTag(name)| <= k < j ==> x[i + |OpenTag(name)|..j][k - i - |OpenTag(name)|] == x[k];
    assert PairAt(x, name, i, j);
    SearchNone(x, name);
  }

  /** A line without a pair is not rewritten. */
  lemma RewriteUnmatched(x: string, name: string, r: string)
    requires '\n' !in x
    ensures RewriteLine(x, name, r) == x || Search(x, name).Some?
  {
    var open, close := OpenTag(name), CloseTag(name);
    match (IndexOf(x, open), LastIndexOf(x, close))
    case (Some(a), Some(b)) =>
      if a + |open| <= b {
        PairOnLine(x, name, a, b);
      }
    case _ =>
  }

  /** The opening and closing tags of some pair a lookup finds. */
  lemma SomePair(s: string, name: string) returns (i: nat, j: nat)
    requires Search(s, name).Some?
    ensures StartsAt(s, OpenTag(name), i) && i + |OpenTag(name)| <= j && StartsAt(s, CloseTag(name), j)
  {
    i, j := SearchWitness(s, name);
  }

  /**
   * Replacing `x[lo..hi]` on a line by a text in which the tags of `name`
   * never start, and across whose borders they cannot reach, creates no pair.
   */
  lemma SpliceAddsNoPair(x: string, lo: nat, hi: nat, r: string, name: string)
    requires '\n' !in x && lo <= hi <= |x| && IsTagName(name) && |r| > 0 && r[0] == '<'
    requires NowhereIn(r, OpenTag(name)) && NowhereIn(r, CloseTag(name))
    ensures Search(x[..lo] + r + x[hi..], name).Some? ==> Search(x, name).Some?
  {
    var y := x[..lo] + r + x[hi..];
    if Search(y, name).Some? {
      var open, close := OpenTag(name), CloseTag(name);
      TagShapes(name);
      var i, j := SomePair(y, name);
      SpliceOutside(x, lo, hi, r, open, i);
      SpliceOutside(x, lo, hi, r, close, j);
      var i' := if i + |open| <= lo then i else i - lo - |r| + hi;
      var j' := if j + |close| <= lo then j else j - lo - |r| + hi;
      PairOnLine(x, name, i', j');
    }
  }

  /** A line rewrite either leaves the line alone or replaces one span of it. */
  lemma RewriteSpliced(x: string, name: string, r: string) returns (lo: nat, hi: nat)
    ensures lo <= hi <= |x|
    ensures RewriteLine(x, name, r) == x || RewriteLine(x, name, r) == x[..lo] + r + x[hi..]
  {
    var open, close := OpenTag(name), CloseTag(name);
    lo, hi := 0, 0;
    match (IndexOf(x, open), LastIndexOf(x, close))
    case (Some(a), Some(b)) =>
      if a + |open| <= b {
        lo, hi := a, b + |close|;
      }
    case _ =>
  }

  /** Rewriting the elements of `a` on a line creates no pair of a tag `b` with another first letter. */
  lemma RewriteAddsNoPair(x: string, a: string, v: string, b: string)
    requires '\n' !in x && '<' !in v && IsTagName(a) && IsTagName(b) && |a| > 0 && |b| > 0
    requires a[0] != b[0] && a[0] != '/' && b[0] != '/'
    ensures Search(RewriteLine(x, a, Element(a, v)), b).Some? ==> Search(x, b).Some?
  {
    var e := Element(a, v);
    var lo, hi := RewriteSpliced(x, a, e);
    ElementShape(a, v);
    ForeignTags(a, v, b);
    SpliceAddsNoPair(x, lo, hi, e, b);
  }

  /**
   * Rewriting the release notes on a line creates no version pair: the new
   * notes element holds no version tag, and a version tag cannot straddle it.
   */
  lemma NotesRewriteAddsNoVersion(x: string, notes: string)
    requires '\n' !in x && '<' !in notes
    ensures Search(RewriteLine(x, NotesTag, Element(NotesTag, notes)), VersionTag).Some? ==>
      Search(x, VersionTag).Some?
  {
    TagNames();
    RewriteAddsNoPair(x, NotesTag, notes, VersionTag);
  }

  /** Where the version rewrite puts its element on a line that holds a version pair. */
  lemma RewriteShape(x: string, name: string, r: string) returns (lo: nat, hi: nat)
    requires '\n' !in x && Search(x, name).Some?
    ensures lo <= hi <= |x| && IndexOf(x, OpenTag(name)) == Some(lo)
    ensures RewriteLine(x, name, r) == x[..lo] + r + x[hi..]
  {
    var open, close := OpenTag(name), CloseTag(name);
    var i0, j0 := SearchWitness(x, name);
    lo := IndexOf(x, open).value;
    var b := LastIndexOf(x, close).value;
    assert lo <= i0 && j0 <= b;
    hi := b + |close|;
  }

  /**
   * Replacing `x[lo..hi]` by an element `<name>v</name>`, where no opening
   * tag of `name` starts in `x` before `lo`, makes that element the first
   * pair of the line.
   */
  lemma SpliceFirstPair(x: string, lo: nat, hi: nat, name: string, v: string, e: string)
    requires '\n' !in x && lo <= hi <= |x| && IsTagName(name) && '\n' !in v && Layout(e, name, v)
    requires forall k: nat :: k < lo ==> !StartsAt(x, OpenTag(name), k)
    ensures Search(x[..lo] + e + x[hi..], name) == Some(v)
  {
    var y := x[..lo] + e + x[hi..];
    var jv := lo + |OpenTag(name)| + |v|;
    ElementPair(x, lo, hi, name, v, e);
    PairFound(y, name, lo, jv);
    NoEarlierOpen(x, lo, hi, name, v, e);
    NoEarlierClose(x, lo, hi, name, v, e);
    var i, j := SearchWitness(y, name);
    assert i == lo;
    assert j == jv;
  }

  /** A pair is something a lookup finds. */
  lemma PairFound(s: string, name: string, i: nat, j: nat)
    requires PairAt(s, name, i, j)
    ensures Search(s, name).Some?
  {
    SearchNone(s, name);
  }

  lemma ElementPair(x: string, lo: nat, hi: nat, name: string, v: string, e: string)
    requires lo <= hi <= |x| && IsTagName(name) && '\n' !in v && Layout(e, name, v)
    ensures PairAt(x[..lo] + e + x[hi..], name, lo, lo + |OpenTag(name)| + |v|)
    ensures (x[..lo] + e + x[hi..])[lo + |OpenTag(name)|..lo + |OpenTag(name)| + |v|] == v
  {
    var open, close := OpenTag(name), CloseTag(name);
    var jv := lo + |open| + |v|;
    SpliceMiddle(x, lo, hi, e, open, lo);
    SpliceMiddle(x, lo, hi, e, close, jv);
    SpliceSlice(x, lo, hi, e, |open|, |open| + |v|);
  }

  lemma NoEarlierOpen(x: string, lo: nat, hi: nat, name: string, v: string, e: string)
    requires lo <= hi <= |x| && IsTagName(name) && Layout(e, name, v)
    requires forall k: nat :: k < lo ==> !StartsAt(x, OpenTag(name), k)
    ensures forall k: nat :: k < lo ==> !StartsAt(x[..lo] + e + x[hi..], OpenTag(name), k)
  {
    var open := OpenTag(name);
    var y := x[..lo] + e + x[hi..];
    TagShapes(name);
    forall k: nat | k < lo ensures !StartsAt(y, open, k) {
      if k + |open| <= lo {
        SpliceLeft(x, lo, hi, e, open, k);
      } else {
        var d := lo - k;
        assert e[0] == open[0];
        assert y[k + d] == e[0] == '<' != open[d];
      }
    }
  }

  lemma NoEarlierClose(x: string, lo: nat, hi: nat, name: string, v: string, e: string)
    requires lo <= hi <= |x| && IsTagName(name) && Layout(e, name, v)
    ensures forall m: nat :: lo + |OpenTag(name)| <= m < lo + |OpenTag(name)| + |v| ==>
      !StartsAt(x[..lo] + e + x[hi..], CloseTag(name), m)
  {
    var open, close := OpenTag(name), CloseTag(name);
    var y := x[..lo] + e + x[hi..];
    TagShapes(name);
    forall m: nat | lo + |open| <= m < lo + |open| + |v| ensures !StartsAt(y, close, m) {
      assert y[m] == e[m - lo];
      assert e[m - lo] != '<';
    }
  }

  /** On the line holding the first version pair, the rewritten line's first pair holds the new version. */
  lemma VersionLine(x: string, v: string)
    requires '\n' !in x && Search(x, VersionTag).Some? && '\n' !in v && '<' !in v
    ensures Search(RewriteLine(x, VersionTag, Element(VersionTag, v)), VersionTag) == Some(v)
  {
    TagNames();
    var lo, hi := RewriteShape(x, VersionTag, Element(VersionTag, v));
    ElementLayout(VersionTag, v);
    SpliceFirstPair(x, lo, hi, VersionTag, v, Element(VersionTag, v));
  }

  /** A splice whose inserted text cannot hold `p` adds no occurrence of `p`. */
  lemma SpliceAddsNoTag(x: string, lo: nat, hi: nat, r: string, p: string)
    requires lo <= hi <= |x| && SingleLt(p) && |r| > 0 && r[0] == '<' && NowhereIn(r, p)
    requires forall m: nat :: !StartsAt(x, p, m)
    ensures forall k: nat :: !StartsAt(x[..lo] + r + x[hi..], p, k)
  {
    forall k: nat ensures !StartsAt(x[..lo] + r + x[hi..], p, k) {
      if StartsAt(x[..lo] + r + x[hi..], p, k) {
        SpliceOutside(x, lo, hi, r, p, k);
      }
    }
  }

  /** The version rewrite adds no release-notes opening tag to a line, so the notes rewrite then leaves it alone. */
  lemma VersionRewriteAddsNoNotes(x: string, v: string, r: string)
    requires '\n' !in x && Search(x, VersionTag).Some? && '<' !in v
    requires !Contains(x, OpenTag(NotesTag))
    ensures RewriteLine(RewriteLine(x, VersionTag, Element(VersionTag, v)), NotesTag, r)
      == RewriteLine(x, VersionTag, Element(VersionTag, v))
  {
    var rv := Element(VersionTag, v);
    TagNames();
    var lo, hi := RewriteShape(x, VersionTag, rv);
    TagShapes(NotesTag);
    ElementShape(VersionTag, v);
    ForeignTags(VersionTag, v, NotesTag);
    SpliceAddsNoTag(x, lo, hi, rv, OpenTag(NotesTag));
  }

  /** A line before the first version pair still holds no version pair after both rewrites. */
  lemma EarlierLine(x: string, v: string, notes: string)
    requires '\n' !in x && Search(x, VersionTag).None? && '<' !in notes
    ensures Search(RewriteLine(RewriteLine(x, VersionTag, Element(VersionTag, v)), NotesTag,
      Element(NotesTag, notes)), VersionTag).None?
  {
    RewriteUnmatched(x, VersionTag, Element(VersionTag, v));
    NotesRewriteAddsNoVersion(x, notes);
  }

  /** The line holding the first version pair carries the new version after both rewrites. */
  lemma VersionLineBoth(x: string, v: string, notes: string)
    requires '\n' !in x && Search(x, VersionTag).Some? && '\n' !in v && '<' !in v
    requires !Contains(x, OpenTag(NotesTag))
    ensures Search(RewriteLine(RewriteLine(x, VersionTag, Element(VersionTag, v)), NotesTag,
      Element(NotesTag, notes)), VersionTag) == Some(v)
  {
    VersionLine(x, v);
    VersionRewriteAddsNoNotes(x, v, Element(NotesTag, notes));
  }

  /** The first line of the file that holds a version pair has no release-notes opening tag. */
  predicate VersionApartFromNotes(c: string)
  {
    forall k ::
      (&& 0 <= k < |Lines(c)| && Search(Lines(c)[k], VersionTag).Some?
       && (forall j :: 0 <= j < k ==> Search(Lines(c)[j], VersionTag).None?))
      ==> !Contains(Lines(c)[k], OpenTag(NotesTag))
  }

  /**
   * The round trip: after update_csproj_file has written a version and
   * release notes into a file that had a version, get_current_version reads
   * back exactly that version. The values must be single-line and free of
   * `<`, and the line of the first version pair must not also open the
   * release notes.
   */
  lemma VersionRoundTrip(c: string, v: string, notes: string)
    requires GetCurrentVersion(Some(c)).1
    requires '\n' !in v && '<' !in v && '\n' !in notes && '<' !in notes
    requires VersionApartFromNotes(c)
    ensures GetCurrentVersion(Some(UpdatedManifest(c, v, notes))) == (v, true)
  {
    TagNames();
    var rv, rn := Element(VersionTag, v), Element(NotesTag, notes);
    ElementNoNewline(VersionTag, v);
    ElementNoNewline(NotesTag, notes);
    var u1 := ReplaceAll(c, VersionTag, rv);
    var u2 := ReplaceAll(u1, NotesTag, rn);
    LinesOfReplaceAll(c, VersionTag, rv);
    LinesOfReplaceAll(u1, NotesTag, rn);
    var ls := Lines(c);
    var ms := RewriteLines(RewriteLines(ls, VersionTag, rv), NotesTag, rn);
    assert Lines(u2) == ms;
    assert Search(c, VersionTag).Some?;
    SearchByLines(c, VersionTag);
    var k := FirstFoundIndex(ls, VersionTag);
    forall j | 0 <= j < k ensures Search(ms[j], VersionTag).None? {
      EarlierLine(ls[j], v, notes);
    }
    VersionLineBoth(ls[k], v, notes);
    FirstFoundAt(ms, VersionTag, k);
    SearchByLines(u2, VersionTag);
    assert u2 == UpdatedManifest(c, v, notes);
  }

  /**
   * The update keeps the file's line structure, and a line holding neither
   * a version pair nor a release-notes pair keeps its text.
   */
  lemma UpdateKeepsOtherLines(c: string, v: string, notes: string)
    requires '\n' !in v && '\n' !in notes
    ensures |Lines(UpdatedManifest(c, v, notes))| == |Lines(c)|
    ensures forall k :: 0 <= k < |Lines(c)| ==>
      (Search(Lines(c)[k], VersionTag).None? && Search(Lines(c)[k], NotesTag).None? ==>
         Lines(UpdatedManifest(c, v, notes))[k] == Lines(c)[k])
  {
    TagNames();
    var rv, rn := Element(VersionTag, v), Element(NotesTag, notes);
    ElementNoNewline(VersionTag, v);
    ElementNoNewline(NotesTag, notes);
    var u1 := ReplaceAll(c, VersionTag, rv);
    LinesOfReplaceAll(c, VersionTag, rv);
    LinesOfReplaceAll(u1, NotesTag, rn);
    var ls := Lines(c);
    forall k | 0 <= k < |ls| && Search(ls[k], VersionTag).None? && Search(ls[k], NotesTag).None?
      ensures Lines(UpdatedManifest(c, v, notes))[k] == ls[k]
    {
      RewriteUnmatched(ls[k], VersionTag, rv);
      RewriteUnmatched(ls[k], NotesTag, rn);
    }
  }
}
