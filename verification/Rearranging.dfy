/** What an in-place sort of part of a vector may do to it. */
module Rearranging {
  /** Only places lo..hi may differ, and they hold the same elements. */
  ghost predicate Rearranged<T>(before: seq<T>, after: seq<T>, lo: nat, hi: nat)
    requires lo <= hi <= |before|
  {
    && |after| == |before|
    && after[..lo] == before[..lo] && after[hi..] == before[hi..]
    && multiset(after[lo..hi]) == multiset(before[lo..hi])
  }

  lemma RearrangedTwice<T>(a: seq<T>, b: seq<T>, c: seq<T>, lo: nat, hi: nat)
    requires lo <= hi <= |a| && Rearranged(a, b, lo, hi) && Rearranged(b, c, lo, hi)
    ensures Rearranged(a, c, lo, hi)
  {
  }

  lemma RearrangedWider<T>(a: seq<T>, b: seq<T>, lo: nat, hi: nat, lo': nat, hi': nat)
    requires lo' <= lo <= hi <= hi' <= |a| && Rearranged(a, b, lo, hi)
    ensures Rearranged(a, b, lo', hi')
  {
    assert a[lo'..hi'] == a[lo'..lo] + a[lo..hi] + a[hi..hi'];
    assert b[lo'..hi'] == b[lo'..lo] + b[lo..hi] + b[hi..hi'];
    assert b[lo'..lo] == b[..lo][lo'..] == a[..lo][lo'..] == a[lo'..lo];
    assert b[hi..hi'] == b[hi..][..hi' - hi] == a[hi..][..hi' - hi] == a[hi..hi'];
    assert b[..lo'] == b[..lo][..lo'] && a[..lo'] == a[..lo][..lo'];
    assert b[hi'..] == b[hi..][hi' - hi..] && a[hi'..] == a[hi..][hi' - hi..];
  }

  lemma SwapRearranges<T>(s: seq<T>, i: nat, j: nat, lo: nat, hi: nat)
    requires lo <= i < hi <= |s| && lo <= j < hi
    ensures Rearranged(s, s[i := s[j]][j := s[i]], lo, hi)
  {
    var t := s[i := s[j]][j := s[i]];
    assert t[lo..hi] == s[lo..hi][i - lo := s[j]][j - lo := s[i]];
    assert s[lo..hi][i - lo] == s[i] && s[lo..hi][j - lo] == s[j];
  }
}
