/**
 * The operations of java.lang.String that the test utilities use, over Dafny
 * strings: indexOf, contains, endsWith, trim and replace.
 */
module JavaStrings {

  /** `t` occurs in `s` at index `i`. */
  predicate OccursAt(s: string, t: string, i: int) {
    0 <= i && i + |t| <= |s| && s[i..i + |t|] == t
  }

  /** `s.indexOf(t, from)`: the first index at or after `from` where `t` occurs, or -1. */
  function IndexOfFrom(s: string, t: string, from: nat): (r: int)
    ensures r == -1 || (from <= r && OccursAt(s, t, r))
    ensures forall j :: from <= j && (r == -1 || j < r) ==> !OccursAt(s, t, j)
    decreases |s| - from
  {
    if |s| < from + |t| then -1
    else if s[from..from + |t|] == t then from
    else IndexOfFrom(s, t, from + 1)
  }

  /** `s.indexOf(t)`: the first index where `t` occurs, or -1. */
  function IndexOf(s: string, t: string): (r: int)
    ensures r == -1 || OccursAt(s, t, r)
    ensures forall j :: 0 <= j && (r == -1 || j < r) ==> !OccursAt(s, t, j)
  {
    IndexOfFrom(s, t, 0)
  }

  /** `s.contains(t)`, which Java defines as `s.indexOf(t) > -1`. */
  function Contains(s: string, t: string): (b: bool)
    ensures b <==> exists i :: OccursAt(s, t, i)
  {
    IndexOf(s, t) > -1
  }

  /** `s.endsWith(suffix)`. */
  predicate EndsWith(s: string, suffix: string) {
    |suffix| <= |s| && s[|s| - |suffix|..] == suffix
  }

  /** `s` ends with `suffix` exactly when it is some string followed by `suffix`. */
  lemma EndsWithSplit(s: string, suffix: string)
    ensures EndsWith(s, suffix) <==> exists p :: s == p + suffix
  {
    if EndsWith(s, suffix) {
      assert s == s[..|s| - |suffix|] + suffix;
    }
    forall p | s == p + suffix ensures EndsWith(s, suffix) {
      assert s[|p|..] == suffix;
    }
  }

  /** A character that `trim` removes: every code point up to U+0020. */
  predicate IsTrimmed(c: char) {
    c <= ' '
  }

  /** The first index at or after `from` that `trim` keeps, or |s|. */
  function TrimStart(s: string, from: nat): (st: nat)
    requires from <= |s|
    ensures from <= st <= |s|
    ensures forall k :: from <= k < st ==> IsTrimmed(s[k])
    ensures st < |s| ==> !IsTrimmed(s[st])
    decreases |s| - from
  {
    if from < |s| && IsTrimmed(s[from]) then TrimStart(s, from + 1) else from
  }

  /** The end, no lower than `st`, of what `trim` keeps of `s[..len]`. */
  function TrimEnd(s: string, st: nat, len: nat): (en: nat)
    requires st <= len <= |s|
    ensures st <= en <= len
    ensures forall k :: en <= k < len ==> IsTrimmed(s[k])
    ensures st < en ==> !IsTrimmed(s[en - 1])
    decreases len
  {
    if st < len && IsTrimmed(s[len - 1]) then TrimEnd(s, st, len - 1) else len
  }

  /**
   * `r` is what is left of `s` once the characters before index `a` and after
   * `a + |r|` are cut off, and everything cut off is trimmable.
   */
  ghost predicate TrimmedFrom(s: string, r: string, a: int) {
    0 <= a && a + |r| <= |s| && s[a..a + |r|] == r
    && (forall k :: 0 <= k < a ==> IsTrimmed(s[k]))
    && (forall k :: a + |r| <= k < |s| ==> IsTrimmed(s[k]))
  }

  /** `s.trim()`: `s` without its leading and trailing characters up to U+0020. */
  function Trim(s: string): (r: string)
    ensures TrimmedFrom(s, r, TrimStart(s, 0))
    ensures r == [] || (!IsTrimmed(r[0]) && !IsTrimmed(r[|r| - 1]))
  {
    var st := TrimStart(s, 0);
    s[st..TrimEnd(s, st, |s|)]
  }

  /**
   * `s.replace(target, replacement)` for a non-empty target: the occurrences
   * of `target`, found from the left without overlapping, are replaced.
   */
  function Replace(s: string, target: string, replacement: string): (r: string)
    requires |target| > 0
    ensures !Contains(s, target) ==> r == s
    decreases |s|
  {
    var i := IndexOf(s, target);
    if i == -1 then s
    else s[..i] + replacement + Replace(s[i + |target|..], target, replacement)
  }

  /** A character of an occurrence of `t` in `s`. */
  lemma OccursAtChar(s: string, t: string, i: int, k: int)
    requires OccursAt(s, t, i) && 0 <= k < |t|
    ensures s[i + k] == t[k]
  {
    assert s[i..i + |t|][k] == s[i + k];
  }

  /** A one-character string occurs exactly where that character stands. */
  lemma OccursAtSingle(s: string, c: char, i: int)
    ensures OccursAt(s, [c], i) <==> 0 <= i < |s| && s[i] == c
  {
    if 0 <= i < |s| && s[i] == c {
      assert s[i..i + 1] == [c];
    }
  }

  /** No occurrence of `t` lies wholly before the first one. */
  lemma NoneBeforeIndexOf(s: string, t: string)
    requires 0 < |t| && Contains(s, t)
    ensures !Contains(s[..IndexOf(s, t)], t)
  {
    var i := IndexOf(s, t);
    var p := s[..i];
    forall j | 0 <= j ensures !OccursAt(p, t, j) {
      if j + |t| <= i {
        assert p[j..j + |t|] == s[j..j + |t|];
        assert !OccursAt(s, t, j);
      }
    }
    assert !exists j :: OccursAt(p, t, j);
  }

  /** Where it ends inside `a`, an occurrence in `a + b` is one in `a`, and back. */
  lemma OccursInLeft(a: string, b: string, t: string, j: int)
    requires 0 <= j && j + |t| <= |a|
    ensures OccursAt(a + b, t, j) <==> OccursAt(a, t, j)
  {
    assert (a + b)[j..j + |t|] == a[j..j + |t|];
  }

  /** Where it starts inside `b`, an occurrence in `a + b` is one in `b`, and back. */
  lemma OccursInRight(a: string, b: string, t: string, j: int)
    requires |a| <= j
    ensures OccursAt(a + b, t, j) <==> OccursAt(b, t, j - |a|)
  {
    if j + |t| <= |a + b| {
      assert (a + b)[j..j + |t|] == b[j - |a|..j - |a| + |t|];
    }
  }
}
