/**
 * Character-level facts shared by the manifest patterns, the artifact filters
 * and the driver. Strings are `seq<char>`; indices are positions in them.
 */
module Text {
  import opened Wrappers

  /** `p` occurs in `s` starting at index `i`. */
  predicate StartsAt(s: string, p: string, i: nat)
  {
    i + |p| <= |s| && forall k :: 0 <= k < |p| ==> s[i + k] == p[k]
  }

  /** Python's `p in s` for strings. */
  predicate Contains(s: string, p: string)
  {
    exists i :: 0 <= i <= |s| && StartsAt(s, p, i)
  }

  /** Python's `s.endswith(suffix)`. */
  predicate EndsWith(s: string, suffix: string)
  {
    |suffix| <= |s| && s[|s| - |suffix|..] == suffix
  }

  /** A pattern that begins with `<` and has no other `<` and no newline: every tag. */
  predicate SingleLt(p: string)
  {
    |p| > 0 && p[0] == '<' && '\n' !in p && forall k :: 1 <= k < |p| ==> p[k] != '<'
  }

  lemma ConcatAssoc(a: string, b: string, c: string)
    ensures a + (b + c) == (a + b) + c
  {
  }

  /** A concatenation starts with its left part and ends with its right part. */
  lemma ConcatEnds(a: string, b: string)
    ensures StartsAt(a + b, a, 0) && EndsWith(a + b, b)
  {
    assert (a + b)[|a + b| - |b|..] == b;
  }

  /** In `a + b + c + d`: `a` at the start, `b` right after it, `c` after `b`, and `d` at the end. */
  lemma ConcatFour(a: string, b: string, c: string, d: string)
    ensures StartsAt(a + b + c + d, a, 0)
    ensures (a + b + c + d)[|a|..|a| + |b|] == b
    ensures StartsAt(a + b + c + d, c, |a| + |b|)
    ensures EndsWith(a + b + c + d, d)
  {
    var s := a + b + c + d;
    assert s[..|a|] == a;
    assert s[|a|..|a| + |b|] == b;
    assert forall k :: 0 <= k < |c| ==> s[|a| + |b| + k] == c[k];
    assert s[|s| - |d|..] == d;
  }

  lemma SplitAt(s: string, n: nat)
    requires n < |s|
    ensures s == s[..n] + ([s[n]] + s[n + 1..])
  {
    assert s == s[..n] + s[n..];
  }

  lemma DropConcat(x: string, t: string, n: nat)
    requires n <= |x|
    ensures (x + t)[n..] == x[n..] + t
  {
  }

  /** A slice of `s` that starts after its first character is a slice of `s[1..]`. */
  lemma SliceOfTail(s: string, a: nat, b: nat)
    requires 1 <= a <= b <= |s|
    ensures s[a..b] == s[1..][a - 1..b - 1]
  {
    assert forall k :: 0 <= k < b - a ==> s[a..b][k] == s[a + k] == s[1..][a - 1..b - 1][k];
  }

  lemma StartsAtTail(s: string, p: string, i: nat)
    requires |s| > 0
    ensures StartsAt(s, p, i + 1) <==> StartsAt(s[1..], p, i)
  {
    if StartsAt(s[1..], p, i) {
      forall k | 0 <= k < |p| ensures s[i + 1 + k] == p[k] {
        assert s[1..][i + k] == p[k];
      }
    }
  }

  /** Occurrences in a slice are occurrences in the whole string, shifted by the slice's start. */
  lemma StartsAtSlice(s: string, p: string, lo: nat, hi: nat, i: nat)
    requires lo <= hi <= |s|
    ensures StartsAt(s[lo..hi], p, i) <==> i + |p| <= hi - lo && StartsAt(s, p, lo + i)
  {
    if i + |p| <= hi - lo && StartsAt(s, p, lo + i) {
      forall k | 0 <= k < |p| ensures s[lo..hi][i + k] == p[k] {
        assert s[lo + i + k] == p[k];
      }
    }
  }

  lemma StartsAtTailAll(s: string, p: string)
    requires |s| > 0
    ensures forall m: nat :: m >= 1 ==> (StartsAt(s, p, m) <==> StartsAt(s[1..], p, m - 1))
  {
    forall m: nat | m >= 1 ensures StartsAt(s, p, m) <==> StartsAt(s[1..], p, m - 1) {
      StartsAtTail(s, p, m - 1);
    }
  }

  /** The first occurrence of `p` in `s` (Python's `s.find(p)`, with None for -1). */
  function IndexOf(s: string, p: string): (r: Option<nat>)
    ensures r.Some? ==> StartsAt(s, p, r.value) && forall m: nat :: m < r.value ==> !StartsAt(s, p, m)
    ensures r.None? ==> forall m: nat :: !StartsAt(s, p, m)
    decreases |s|
  {
    if StartsAt(s, p, 0) then Some(0)
    else if s == [] then None
    else
      StartsAtTailAll(s, p);
      match IndexOf(s[1..], p)
      case None => None
      case Some(k) => Some(k + 1)
  }

  /** The last occurrence of `p` in `s` (Python's `s.rfind(p)`, with None for -1). */
  function LastIndexOf(s: string, p: string): (r: Option<nat>)
    ensures r.Some? ==> StartsAt(s, p, r.value) && forall m: nat :: r.value < m ==> !StartsAt(s, p, m)
    ensures r.None? ==> forall m: nat :: !StartsAt(s, p, m)
    decreases |s|
  {
    if s == [] then (if StartsAt(s, p, 0) then Some(0) else None)
    else
      StartsAtTailAll(s, p);
      match LastIndexOf(s[1..], p)
      case Some(k) => Some(k + 1)
      case None => if StartsAt(s, p, 0) then Some(0) else None
  }

  /**
   * On a line `x` followed by a line break (or by nothing), an occurrence of a
   * newline-free pattern that starts in `x` lies inside `x`.
   */
  lemma StartsAtLine(x: string, t: string, p: string, i: nat)
    requires '\n' !in p && (t == [] || t[0] == '\n') && i <= |x|
    ensures StartsAt(x + t, p, i) <==> StartsAt(x, p, i)
  {
    if i + |p| <= |x| {
      StartsAtLeft(x, t, p, i);
    } else if i + |p| <= |x + t| {
      var k := |x| - i;
      assert (x + t)[i + k] == t[0] == '\n' != p[k];
    }
  }

  /** An occurrence inside `x + y` that starts in `x` and fits in it is an occurrence in `x`. */
  lemma StartsAtLeft(x: string, y: string, p: string, i: nat)
    requires i + |p| <= |x|
    ensures StartsAt(x + y, p, i) <==> StartsAt(x, p, i)
  {
  }

  /** At every `<` of `r`, `p` disagrees with `r` before `r` ends: `p` never starts inside `r`. */
  predicate NowhereIn(r: string, p: string)
  {
    forall x :: 0 <= x < |r| && r[x] == '<' ==> exists y :: 0 <= y < |p| && x + y < |r| && r[x + y] != p[y]
  }

  /** In `x` with `x[lo..hi]` replaced by `r`, an occurrence before `lo` is one of `x`. */
  lemma SpliceLeft(x: string, lo: nat, hi: nat, r: string, p: string, i: nat)
    requires lo <= hi <= |x| && i + |p| <= lo
    ensures StartsAt(x[..lo] + r + x[hi..], p, i) <==> StartsAt(x, p, i)
  {
    var y := x[..lo] + r + x[hi..];
    assert forall k :: 0 <= k < |p| ==> (y[i + k] == p[k] <==> x[i + k] == p[k]);
  }

  /** ... an occurrence after `r` is one of `x`, shifted back to `x[hi..]`. */
  lemma SpliceRight(x: string, lo: nat, hi: nat, r: string, p: string, i: nat)
    requires lo <= hi <= |x| && lo + |r| <= i
    ensures StartsAt(x[..lo] + r + x[hi..], p, i) <==> StartsAt(x, p, i - lo - |r| + hi)
  {
    var y := x[..lo] + r + x[hi..];
    var d := i - lo - |r| + hi;
    assert |y| == |x| - hi + lo + |r|;
    assert forall k :: 0 <= k < |p| && i + k < |y| ==> (y[i + k] == p[k] <==> x[d + k] == p[k]);
  }

  /** ... and an occurrence inside `r` is one of `r`. */
  lemma SpliceMiddle(x: string, lo: nat, hi: nat, r: string, p: string, i: nat)
    requires lo <= hi <= |x| && lo <= i && i + |p| <= lo + |r|
    ensures StartsAt(x[..lo] + r + x[hi..], p, i) <==> StartsAt(r, p, i - lo)
  {
    var y := x[..lo] + r + x[hi..];
    assert forall k :: 0 <= k < |p| ==> (y[i + k] == p[k] <==> r[i - lo + k] == p[k]);
  }

  lemma SpliceSlice(x: string, lo: nat, hi: nat, r: string, m: nat, n: nat)
    requires lo <= hi <= |x| && m <= n <= |r|
    ensures (x[..lo] + r + x[hi..])[lo + m..lo + n] == r[m..n]
  {
  }

  /**
   * When `p` never starts inside `r`, an occurrence of `p` once `x[lo..hi]`
   * is replaced by `r` is one of `x`, before `r` or (shifted) after it.
   */
  lemma SpliceOutside(x: string, lo: nat, hi: nat, r: string, p: string, i: nat)
    requires lo <= hi <= |x| && SingleLt(p) && |r| > 0 && r[0] == '<' && NowhereIn(r, p)
    ensures StartsAt(x[..lo] + r + x[hi..], p, i) ==>
            || (i + |p| <= lo && StartsAt(x, p, i))
            || (lo + |r| <= i && StartsAt(x, p, i - lo - |r| + hi))
  {
    var y := x[..lo] + r + x[hi..];
    if i + |p| <= lo {
      SpliceLeft(x, lo, hi, r, p, i);
    } else if lo + |r| <= i {
      SpliceRight(x, lo, hi, r, p, i);
    } else if i < lo {
      var k := lo - i;
      assert y[i + k] == r[0] == '<' != p[k];
    } else {
      var k := i - lo;
      if r[k] == '<' {
        var d :| 0 <= d < |p| && k + d < |r| && r[k + d] != p[d];
        assert y[i + d] == r[k + d];
      } else {
        assert y[i + 0] == r[k];
      }
    }
  }
}
