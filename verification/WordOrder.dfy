/**
  The order of the dictionary.  radix_sort compares with charAt, whose char is
  signed and is 0 past the end of the word; the chunk reader compares with memcmp,
  whose bytes are unsigned and where a shorter prefix comes first.
*/
module WordOrder {
  import opened Bytes

  /** charAt: a byte as signed char, 0 past the end. */
  function CharAt(s: Text, i: nat): int {
    if i >= |s| then 0 else if s[i] < 128 then s[i] else (s[i] as int) - 256
  }

  /** s and t first differ at k, and s has the smaller character there. */
  ghost predicate SmallerAt(s: Text, t: Text, k: nat) {
    (forall j: nat | j < k :: CharAt(s, j) == CharAt(t, j)) && CharAt(s, k) < CharAt(t, k)
  }

  /** The order radix_sort sorts by. */
  ghost predicate Smaller(s: Text, t: Text) {
    exists k: nat :: SmallerAt(s, t, k)
  }

  /** memcmp on the common length, then the shorter word first. */
  predicate MemLess(s: Text, t: Text) {
    if t == [] then false
    else if s == [] then true
    else if s[0] != t[0] then s[0] < t[0]
    else MemLess(s[1..], t[1..])
  }

  predicate NulFree(s: Text) {
    forall i | 0 <= i < |s| :: s[i] != 0
  }

  /** Words without a zero byte that agree everywhere are the same word. */
  lemma AgreeingWordsAreEqual(s: Text, t: Text, n: nat)
    requires NulFree(s) && NulFree(t) && |s| <= n && |t| <= n
    requires forall j: nat | j < n :: CharAt(s, j) == CharAt(t, j)
    ensures s == t
  {
    assert |s| < |t| ==> CharAt(s, |s|) != CharAt(t, |s|);
    assert |t| < |s| ==> CharAt(s, |t|) != CharAt(t, |t|);
    forall j | 0 <= j < |s| ensures s[j] == t[j] {
      assert CharAt(s, j) == CharAt(t, j);
    }
  }

  /** On words without a zero byte the radix order is a strict total order. */
  lemma SmallerIsOrder(s: Text, t: Text, u: Text)
    requires NulFree(s) && NulFree(t)
    ensures !(Smaller(s, t) && Smaller(t, s)) && !Smaller(s, s)
    ensures s != t ==> Smaller(s, t) || Smaller(t, s)
    ensures Smaller(s, t) && Smaller(t, u) ==> Smaller(s, u)
  {
    if Smaller(s, t) {
      var k: nat :| SmallerAt(s, t, k);
      NotBoth(s, t, k);
      if Smaller(t, u) {
        var l: nat :| SmallerAt(t, u, l);
        assert SmallerAt(s, u, if k < l then k else l);
      }
    } else if s != t {
      var k := FirstDifferent(s, t, 0);
      assert SmallerAt(s, t, k) || SmallerAt(t, s, k);
    }
  }

  lemma NotBoth(s: Text, t: Text, k: nat)
    requires SmallerAt(s, t, k)
    ensures !Smaller(t, s) && s != t
  {
    forall l: nat ensures !SmallerAt(t, s, l) {
      assert k < l ==> CharAt(t, k) != CharAt(s, k);
      assert l < k ==> CharAt(t, l) == CharAt(s, l);
    }
  }

  lemma {:induction false} FirstDifferent(s: Text, t: Text, i: nat) returns (k: nat)
    requires NulFree(s) && NulFree(t) && s != t
    requires forall j: nat | j < i :: CharAt(s, j) == CharAt(t, j)
    ensures CharAt(s, k) != CharAt(t, k) && forall j: nat | j < k :: CharAt(s, j) == CharAt(t, j)
    decreases |s| + |t| - i
  {
    if CharAt(s, i) != CharAt(t, i) { return i; }
    if i >= |s| && i >= |t| { AgreeingWordsAreEqual(s, t, i); }
    k := FirstDifferent(s, t, i + 1);
  }

  /** Where the words first differ, one goes on with a byte of 128 or more, and the other with a smaller one or not at all. */
  predicate MixedSigns(s: Text, t: Text) {
    if s == [] then t != [] && t[0] >= 128
    else if t == [] then s[0] >= 128
    else if s[0] != t[0] then (s[0] < 128) != (t[0] < 128)
    else MixedSigns(s[1..], t[1..])
  }

  /** The two orders of different words are opposite exactly when their signs are mixed. */
  lemma {:induction false} SmallerOrMemLess(s: Text, t: Text, i: nat)
    requires NulFree(s) && NulFree(t) && s != t && i <= |s| && i <= |t|
    requires forall j: nat | j < i :: CharAt(s, j) == CharAt(t, j)
    ensures Smaller(s, t) <==> (MemLess(s[i..], t[i..]) <==> !MixedSigns(s[i..], t[i..]))
    decreases |s| - i
  {
    if i < |s| && i < |t| && s[i] == t[i] {
      assert s[i..][1..] == s[i + 1..] && t[i..][1..] == t[i + 1..];
      SmallerOrMemLess(s, t, i + 1);
    } else {
      if i == |s| && i == |t| { AgreeingWordsAreEqual(s, t, i); }
      assert CharAt(s, i) != CharAt(t, i);
      if CharAt(s, i) < CharAt(t, i) {
        assert SmallerAt(s, t, i);
      } else {
        assert SmallerAt(t, s, i);
        NotBoth(t, s, i);
      }
    }
  }

  // ---------------------------------------------------------------- memcmp as a three-way result

  lemma {:induction false} MemLessTotal(s: Text, t: Text)
    ensures s == t <==> !MemLess(s, t) && !MemLess(t, s)
    ensures !(MemLess(s, t) && MemLess(t, s))
  {
    if s != [] && t != [] {
      MemLessTotal(s[1..], t[1..]);
      assert s == [s[0]] + s[1..] && t == [t[0]] + t[1..];
    }
  }

  lemma {:induction false} MemLessTransitive(s: Text, t: Text, u: Text)
    requires MemLess(s, t) && MemLess(t, u)
    ensures MemLess(s, u)
  {
    if s != [] && s[0] == t[0] && t[0] == u[0] {
      MemLessTransitive(s[1..], t[1..], u[1..]);
    }
  }

  ghost predicate MemSorted(ws: seq<Text>) {
    forall i, j | 0 <= i < j < |ws| :: MemLess(ws[i], ws[j])
  }

  ghost predicate RadixSorted(ws: seq<Text>) {
    forall i, j | 0 <= i < j < |ws| :: Smaller(ws[i], ws[j])
  }

  /** No two words of the dictionary have mixed signs. */
  predicate SignsAgree(ws: seq<Text>) {
    forall i, j | 0 <= i < j < |ws| :: !MixedSigns(ws[i], ws[j])
  }

  /** A dictionary in radix order is in the order the reader searches by if and only if no two words have mixed signs. */
  lemma RadixSortedIsMemSorted(ws: seq<Text>)
    requires RadixSorted(ws) && forall i | 0 <= i < |ws| :: NulFree(ws[i])
    ensures MemSorted(ws) <==> SignsAgree(ws)
  {
    hide MemLess, MixedSigns;
    forall i, j | 0 <= i < j < |ws| ensures MemLess(ws[i], ws[j]) <==> !MixedSigns(ws[i], ws[j]) {
      SmallerIsOrder(ws[i], ws[j], ws[i]);
      SmallerOrMemLess(ws[i], ws[j], 0);
      assert ws[i][0..] == ws[i] && ws[j][0..] == ws[j];
    }
  }

  /** memcmp on the first min(|s|, |t|) bytes: negative, zero or positive. */
  method Memcmp(s: Text, t: Text, n: nat) returns (c: int)
    requires n <= |s| && n <= |t|
    ensures c == 0 <==> s[..n] == t[..n]
    ensures c < 0 ==> MemLess(s, t)
    ensures c > 0 ==> MemLess(t, s)
  {
    var i := 0;
    while i < n && s[i] == t[i]
      invariant i <= n && s[..i] == t[..i]
    {
      i := i + 1;
    }
    if i == n { return 0; }
    FirstDifference(s, t, i);
    assert s[..n][i] != t[..n][i];
    return (s[i] as int) - (t[i] as int);
  }

  lemma {:induction false} FirstDifference(s: Text, t: Text, i: nat)
    requires i < |s| && i < |t| && s[..i] == t[..i]
    ensures s[i] < t[i] ==> MemLess(s, t)
    ensures s[i] > t[i] ==> MemLess(t, s)
    decreases i
  {
    if i > 0 {
      assert s[0] == s[..i][0] && t[0] == t[..i][0];
      assert s[1..][..i - 1] == s[..i][1..] && t[1..][..i - 1] == t[..i][1..];
      FirstDifference(s[1..], t[1..], i - 1);
    }
  }

  lemma {:induction false} ProperPrefixIsLess(s: Text, t: Text)
    requires |s| < |t| && s == t[..|s|]
    ensures MemLess(s, t)
  {
    if s != [] {
      assert s[0] == t[..|s|][0] && s[1..] == t[1..][..|s[1..]|];
      ProperPrefixIsLess(s[1..], t[1..]);
    }
  }

  // ---------------------------------------------------------------- lookup

  /** Where the binary search in words[lo..hi] ends up; |words| if it finds nothing. */
  function Search(words: seq<Text>, target: Text, lo: nat, hi: nat): (at: nat)
    requires lo <= hi <= |words|
    ensures at < |words| ==> lo <= at < hi && words[at] == target
    decreases hi - lo
  {
    if lo == hi then |words|
    else
      var mid := lo + (hi - lo) / 2;
      if words[mid] == target then mid
      else if MemLess(words[mid], target) then Search(words, target, mid + 1, hi)
      else Search(words, target, lo, mid)
  }

  /** LoadedIndex::lookup: binary search by memcmp and length. */
  method Lookup(words: seq<Text>, target: Text) returns (found: bool, at: nat)
    ensures found <==> Search(words, target, 0, |words|) < |words|
    ensures found ==> at == Search(words, target, 0, |words|)
  {
    var lo, hi := 0, |words|;
    while lo < hi
      invariant 0 <= lo <= hi <= |words|
      invariant Search(words, target, lo, hi) == Search(words, target, 0, |words|)
    {
      var mid := lo + (hi - lo) / 2;
      var e := words[mid];
      var minLen := if |target| < |e| then |target| else |e|;
      var cmp := Memcmp(e, target, minLen);
      CommonPart(e, target);
      MemLessTotal(e, target);
      if cmp == 0 {
        if |e| == |target| { return true, mid; }
        cmp := if |e| < |target| then -1 else 1;
      }
      if cmp < 0 {
        lo := mid + 1;
      } else {
        hi := mid;
      }
    }
    return false, 0;
  }

  /** Words that agree on their common length are ordered by length. */
  lemma CommonPart(s: Text, t: Text)
    ensures var n := if |t| < |s| then |t| else |s|;
            s[..n] == t[..n] ==> if |s| == |t| then s == t else if |s| < |t| then MemLess(s, t) else MemLess(t, s)
  {
    hide MemLess;
    var n := if |t| < |s| then |t| else |s|;
    assert s[..|s|] == s && t[..|t|] == t;
    if s[..n] == t[..n] {
      if |s| < |t| { ProperPrefixIsLess(s, t); }
      if |t| < |s| { ProperPrefixIsLess(t, s); }
    }
  }

  /** The search misses no word of words[lo..hi]. */
  ghost predicate FindsAll(words: seq<Text>, lo: nat, hi: nat)
    requires lo <= hi <= |words|
  {
    forall i | lo <= i < hi :: Search(words, words[i], lo, hi) < |words|
  }

  ghost predicate Distinct(words: seq<Text>) {
    forall i, j | 0 <= i < j < |words| :: words[i] != words[j]
  }

  lemma FoundBeside(words: seq<Text>, i: nat, lo: nat, hi: nat)
    requires lo <= i < hi <= |words| && Distinct(words) && Search(words, words[i], lo, hi) < |words|
    ensures var mid := lo + (hi - lo) / 2;
            && (i < mid ==> MemLess(words[i], words[mid]) && Search(words, words[i], lo, mid) < |words|)
            && (mid < i ==> MemLess(words[mid], words[i]) && Search(words, words[i], mid + 1, hi) < |words|)
  {
    hide MemLess;
    MemLessTotal(words[i], words[lo + (hi - lo) / 2]);
  }

  /** A search that misses no word of a list without duplicates tells that the list is in order. */
  lemma {:induction false} FindingSorts(words: seq<Text>, lo: nat, hi: nat)
    requires lo <= hi <= |words| && Distinct(words) && FindsAll(words, lo, hi)
    ensures forall i, j | lo <= i < j < hi :: MemLess(words[i], words[j])
    decreases hi - lo
  {
    hide MemLess, Search, Distinct;
    if lo < hi {
      var mid := lo + (hi - lo) / 2;
      forall i | lo <= i < hi
        ensures i < mid ==> MemLess(words[i], words[mid]) && Search(words, words[i], lo, mid) < |words|
        ensures mid < i ==> MemLess(words[mid], words[i]) && Search(words, words[i], mid + 1, hi) < |words|
      {
        FoundBeside(words, i, lo, hi);
      }
      FindingSorts(words, lo, mid);
      FindingSorts(words, mid + 1, hi);
      forall i, j | lo <= i < j < hi ensures MemLess(words[i], words[j]) {
        if i < mid < j { MemLessTransitive(words[i], words[mid], words[j]); }
      }
    }
  }

  ghost predicate Among(words: seq<Text>, target: Text, lo: nat, hi: nat)
    requires lo <= hi <= |words|
  {
    exists i :: lo <= i < hi && words[i] == target
  }

  /** In a sorted range the target is on the side its comparison with an entry tells. */
  lemma OnOneSide(words: seq<Text>, target: Text, lo: nat, mid: nat, hi: nat)
    requires lo <= mid < hi <= |words| && MemSorted(words) && words[mid] != target
    ensures Among(words, target, lo, hi) <==>
            if MemLess(words[mid], target) then Among(words, target, mid + 1, hi) else Among(words, target, lo, mid)
  {
    hide MemLess;
    if i :| lo <= i < hi && words[i] == target { MemLessTotal(words[i], words[mid]); }
  }

  /** On a dictionary in memcmp order the search finds a word if and only if it is there. */
  lemma {:induction false} SearchFinds(words: seq<Text>, target: Text, lo: nat, hi: nat)
    requires lo <= hi <= |words| && MemSorted(words)
    ensures Search(words, target, lo, hi) < |words| <==> Among(words, target, lo, hi)
    decreases hi - lo
  {
    hide MemLess, MemSorted;
    if lo < hi {
      var mid := lo + (hi - lo) / 2;
      if words[mid] != target {
        OnOneSide(words, target, lo, mid, hi);
        if MemLess(words[mid], target) { SearchFinds(words, target, mid + 1, hi); } else { SearchFinds(words, target, lo, mid); }
      }
    }
  }

  /**
    Exactly when look-ups are right: on a dictionary as the indexer sorts it, every word is
    found if and only if no two words have mixed signs, and then no other word is.
  */
  lemma LookupExact(words: seq<Text>)
    requires RadixSorted(words) && forall i | 0 <= i < |words| :: NulFree(words[i])
    ensures (forall w | w in words :: Search(words, w, 0, |words|) < |words|) <==> SignsAgree(words)
    ensures SignsAgree(words) ==> forall w :: Search(words, w, 0, |words|) < |words| <==> w in words
  {
    hide MemLess, MixedSigns, Smaller, Search;
    RadixSortedIsMemSorted(words);
    forall i, j | 0 <= i < j < |words| ensures words[i] != words[j] { SmallerIsOrder(words[i], words[j], words[i]); }
    if forall w | w in words :: Search(words, w, 0, |words|) < |words| {
      FindingSorts(words, 0, |words|);
    }
    if MemSorted(words) {
      forall w ensures Search(words, w, 0, |words|) < |words| <==> w in words { SearchFinds(words, w, 0, |words|); }
    }
  }

  /** The words "a\xC3" and "aa": sorted by the indexer in this order, and the reader misses the first. */
  lemma NonAsciiWordMissed()
    ensures var words: seq<Text> := [[97, 195], [97, 97]];
            RadixSorted(words) && !MemSorted(words) && Search(words, words[0], 0, 2) == 2
  {
    var words: seq<Text> := [[97, 195], [97, 97]];
    assert SmallerAt(words[0], words[1], 1);
    assert words[0][1..] == [195] && words[1][1..] == [97];
    assert !MemLess(words[0], words[1]) && MemLess(words[1], words[0]);
  }
}
