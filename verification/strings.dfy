/**
 * The few JavaScript string operations the link checker relies on:
 * `startsWith`, `endsWith`, `replace` with a string pattern, `slice(0, -k)`
 * and `split(c)[0]`.
 */
module Strings {
  import opened Results

  /** `s.startsWith(p)`. */
  predicate StartsWith(s: string, p: string) {
    |p| <= |s| && s[..|p|] == p
  }

  /** `s.endsWith(p)`. */
  predicate EndsWith(s: string, p: string) {
    |p| <= |s| && s[|s| - |p|..] == p
  }

  /** `pat` occurs in `s` starting at position `i`. */
  predicate OccursAt(s: string, pat: string, i: nat) {
    i + |pat| <= |s| && s[i..i + |pat|] == pat
  }

  /** The first position at or after `from` where `pat` occurs, if any. */
  function IndexFrom(s: string, pat: string, from: nat): (r: Option<nat>)
    requires from <= |s|
    ensures r.Some? ==> from <= r.value && OccursAt(s, pat, r.value)
    ensures r.Some? ==> forall j: nat :: from <= j < r.value ==> !OccursAt(s, pat, j)
    ensures r.None? ==> forall j: nat :: from <= j ==> !OccursAt(s, pat, j)
    decreases |s| - from
  {
    if OccursAt(s, pat, from) then Some(from)
    else if from == |s| then None
    else IndexFrom(s, pat, from + 1)
  }

  /** `s.indexOf(pat)`: the first position where `pat` occurs, if any. */
  function IndexOf(s: string, pat: string): (r: Option<nat>)
    ensures r.Some? <==> exists j: nat :: OccursAt(s, pat, j)
    ensures r.Some? ==> OccursAt(s, pat, r.value)
    ensures r.Some? ==> forall j: nat :: j < r.value ==> !OccursAt(s, pat, j)
  {
    IndexFrom(s, pat, 0)
  }

  /**
   * `s.replace(pat, rep)` with a string pattern: only the first occurrence
   * is replaced, and a string without an occurrence is returned unchanged.
   */
  function ReplaceFirst(s: string, pat: string, rep: string): string {
    match IndexOf(s, pat)
    case None => s
    case Some(i) => s[..i] + rep + s[i + |pat|..]
  }

  /** `s.slice(0, -k)` for a positive `k`: drops the last `k` characters, or everything when `s` is shorter. */
  function SliceDropLast(s: string, k: nat): (r: string)
    requires k > 0
    ensures |r| == if |s| >= k then |s| - k else 0
    ensures r == s[..|r|]
  {
    if |s| >= k then s[..|s| - k] else ""
  }

  /** `s.split(c)[0]`: the part of `s` before the first `c`, or all of `s` when there is none. */
  function BeforeFirst(s: string, c: char): (r: string)
    ensures StartsWith(s, r)
    ensures c !in r
    ensures |r| == |s| || s[|r|] == c
  {
    if |s| == 0 || s[0] == c then ""
    else [s[0]] + BeforeFirst(s[1..], c)
  }

  /** Replacing a leading occurrence removes exactly that prefix. */
  lemma ReplaceLeading(s: string, pat: string)
    requires StartsWith(s, pat)
    ensures ReplaceFirst(s, pat, "") == s[|pat|..]
  {
    assert OccursAt(s, pat, 0);
  }

  /** Dropping a known suffix with `slice` gives back what precedes it. */
  lemma SliceDropsSuffix(x: string, suffix: string)
    requires |suffix| > 0
    ensures SliceDropLast(x + suffix, |suffix|) == x
  {
    assert (x + suffix)[..|x|] == x;
  }

  /**
   * `split(c)[0]` stops at the first separator: whatever follows it, the
   * fragment included, never matters.
   */
  lemma {:induction false} BeforeFirstOfJoin(p: string, c: char, rest: string)
    requires c !in p
    ensures BeforeFirst(p + [c] + rest, c) == p
  {
    var s := p + [c] + rest;
    if |p| > 0 {
      assert s[0] == p[0] != c;
      assert s[1..] == p[1..] + [c] + rest;
      BeforeFirstOfJoin(p[1..], c, rest);
      assert p == [p[0]] + p[1..];
    }
  }

  /** A string without the separator is its own first part. */
  lemma BeforeFirstWithout(p: string, c: char)
    requires c !in p
    ensures BeforeFirst(p, c) == p
  {
  }

  /** Any string ends with what was appended to it. */
  lemma EndsWithAppended(x: string, suffix: string)
    ensures EndsWith(x + suffix, suffix)
  {
    assert (x + suffix)[|x + suffix| - |suffix|..] == suffix;
  }

  /** Removing a leading `pre` and slicing off a trailing `suffix` recovers the middle. */
  lemma StripAround(pre: string, mid: string, suffix: string)
    requires |suffix| > 0
    ensures SliceDropLast(ReplaceFirst(pre + mid + suffix, pre, ""), |suffix|) == mid
  {
    var s := pre + mid + suffix;
    calc {
      SliceDropLast(ReplaceFirst(s, pre, ""), |suffix|);
      { assert s[..|pre|] == pre;
        ReplaceLeading(s, pre); }
      SliceDropLast(s[|pre|..], |suffix|);
      { assert s[|pre|..] == mid + suffix; }
      SliceDropLast(mid + suffix, |suffix|);
      { SliceDropsSuffix(mid, suffix); }
      mid;
    }
  }
}
