/**
  The in-place three-way radix sort of lib/algorithm.h that orders the dictionary.
*/
module RadixSort {
  import opened Bytes
  import opened Rearranging
  import opened WordOrder

  /** vector<string>, changed in place. */
  class WordVector {
    var items: seq<Text>

    constructor (items: seq<Text>)
      ensures this.items == items
    {
      this.items := items;
    }
  }

  /** The words of vec[l..h] agree on their first idx characters. */
  ghost predicate Agree(ws: seq<Text>, l: nat, h: nat, idx: nat)
    requires h <= |ws|
  {
    forall i, k, j: nat | l <= i < h && l <= k < h && j < idx :: CharAt(ws[i], j) == CharAt(ws[k], j)
  }

  ghost predicate Sortable(ws: seq<Text>, l: nat, h: nat, longest: nat)
    requires l <= h <= |ws|
  {
    && (forall i | l <= i < h :: NulFree(ws[i]) && |ws[i]| <= longest)
    && (forall i, j | l <= i < j < h :: ws[i] != ws[j])
  }

  /** Every word of the new range was in the old one, and none is doubled. */
  lemma RearrangedKeepsWords(a: seq<Text>, b: seq<Text>, l: nat, h: nat, longest: nat)
    requires l <= h <= |a| && Rearranged(a, b, l, h) && Sortable(a, l, h, longest)
    ensures Sortable(b, l, h, longest)
    ensures forall i | l <= i < h :: b[i] in a[l..h]
  {
    forall i | l <= i < h ensures b[i] in a[l..h] {
      assert b[i] == b[l..h][i - l];
      assert b[i] in multiset(b[l..h]);
    }
    forall i, j | l <= i < j < h ensures b[i] != b[j] {
      if b[i] == b[j] {
        TwiceInMultiset(b[l..h], i - l, j - l);
        OnceInMultiset(a[l..h], b[i]);
      }
    }
  }

  lemma TwiceInMultiset(s: seq<Text>, i: nat, j: nat)
    requires i < j < |s| && s[i] == s[j]
    ensures multiset(s)[s[i]] >= 2
  {
    assert s == s[..i] + [s[i]] + s[i + 1..j] + [s[j]] + s[j + 1..];
  }

  lemma {:induction false} OnceInMultiset(s: seq<Text>, w: Text)
    requires Distinct(s)
    ensures multiset(s)[w] <= 1
  {
    if s != [] {
      assert s == [s[0]] + s[1..];
      OnceInMultiset(s[1..], w);
      if s[0] == w {
        assert w !in s[1..];
      }
    }
  }

  ghost predicate SortedIn(ws: seq<Text>, l: nat, h: nat)
    requires l <= h <= |ws|
  {
    forall i, j | l <= i < j < h :: Smaller(ws[i], ws[j])
  }

  /** All words of [l, h) have a character at idx that compares with p as told by sign. */
  ghost predicate Side(ws: seq<Text>, l: nat, h: nat, idx: nat, p: int, sign: int)
    requires l <= h <= |ws|
  {
    forall i | l <= i < h ::
      if sign < 0 then CharAt(ws[i], idx) < p else if sign > 0 then CharAt(ws[i], idx) > p else CharAt(ws[i], idx) == p
  }

  lemma SideKept(a: seq<Text>, b: seq<Text>, l: nat, h: nat, idx: nat, p: int, sign: int)
    requires l <= h <= |a| && Rearranged(a, b, l, h) && Side(a, l, h, idx, p, sign)
    ensures Side(b, l, h, idx, p, sign)
  {
    forall i | l <= i < h ensures b[i] in a[l..h] {
      assert b[i] == b[l..h][i - l] && b[i] in multiset(b[l..h]);
    }
  }

  lemma AgreeKept(a: seq<Text>, b: seq<Text>, l: nat, h: nat, idx: nat)
    requires l <= h <= |a| && Rearranged(a, b, l, h) && Agree(a, l, h, idx)
    ensures Agree(b, l, h, idx)
  {
    forall i, k, j: nat | l <= i < h && l <= k < h && j < idx ensures CharAt(b[i], j) == CharAt(b[k], j) {
      assert b[i] == b[l..h][i - l] && b[i] in multiset(b[l..h]);
      assert b[k] == b[l..h][k - l] && b[k] in multiset(b[l..h]);
      var i', k' :| l <= i' < h && a[i'] == b[i] && l <= k' < h && a[k'] == b[k];
    }
  }

  /** Two distinct words that agree on idx characters: one of them is longer than idx. */
  lemma MoreToCompare(ws: seq<Text>, l: nat, h: nat, idx: nat, longest: nat)
    requires l + 1 < h <= |ws| && Sortable(ws, l, h, longest) && Agree(ws, l, h, idx)
    ensures idx < longest
  {
    if longest <= idx {
      assert forall j: nat | j < idx :: CharAt(ws[l + 1], j) == CharAt(ws[l], j);
      AgreeingWordsAreEqual(ws[l], ws[l + 1], idx);
    }
  }

  /** Three sorted runs, split at idx by p, make one. */
  lemma Joined(ws: seq<Text>, l: nat, lt: nat, gt: nat, h: nat, idx: nat, p: int)
    requires l <= lt <= gt <= h <= |ws| && Agree(ws, l, h, idx)
    requires Side(ws, l, lt, idx, p, -1) && Side(ws, lt, gt, idx, p, 0) && Side(ws, gt, h, idx, p, 1)
    requires SortedIn(ws, l, lt) && SortedIn(ws, lt, gt) && SortedIn(ws, gt, h)
    ensures SortedIn(ws, l, h)
  {
    forall i, j | l <= i < j < h ensures Smaller(ws[i], ws[j]) {
      if CharAt(ws[i], idx) < CharAt(ws[j], idx) {
        assert SmallerAt(ws[i], ws[j], idx);
      }
    }
  }

  /** What lies outside the rearranged part keeps its order and its side. */
  lemma Outside(a: seq<Text>, b: seq<Text>, l: nat, h: nat, l': nat, h': nat, idx: nat, p: int, sign: int)
    requires l <= h <= |a| && Rearranged(a, b, l, h)
    requires l' <= h' <= |a| && (h' <= l || h <= l')
    ensures SortedIn(a, l', h') ==> SortedIn(b, l', h')
    ensures Side(a, l', h', idx, p, sign) ==> Side(b, l', h', idx, p, sign)
  {
    forall i | l' <= i < h' ensures b[i] == a[i] {
      if i < l { assert b[i] == b[..l][i] && a[i] == a[..l][i]; }
      else { assert b[i] == b[h..][i - h] && a[i] == a[h..][i - h]; }
    }
  }

  /** A part of a sortable range that agrees on idx characters is one too. */
  lemma Part(ws: seq<Text>, l: nat, h: nat, l': nat, h': nat, idx: nat, longest: nat)
    requires l <= l' <= h' <= h <= |ws| && Sortable(ws, l, h, longest) && Agree(ws, l, h, idx)
    ensures Sortable(ws, l', h', longest) && Agree(ws, l', h', idx)
  {
  }

  /** The middle run also agrees on character idx. */
  lemma MiddleAgrees(ws: seq<Text>, l: nat, h: nat, idx: nat, p: int)
    requires l <= h <= |ws| && Agree(ws, l, h, idx) && Side(ws, l, h, idx, p, 0)
    ensures Agree(ws, l, h, idx + 1)
  {
  }

  lemma KeptSortable(a: seq<Text>, b: seq<Text>, l: nat, h: nat, idx: nat, longest: nat)
    requires l <= h <= |a| && Rearranged(a, b, l, h) && Sortable(a, l, h, longest) && Agree(a, l, h, idx)
    ensures |b| == |a| && Sortable(b, l, h, longest) && Agree(b, l, h, idx)
  {
    RearrangedKeepsWords(a, b, l, h, longest);
    AgreeKept(a, b, l, h, idx);
  }

  /**
    radix_sort(vec, l, h, idx) with h inclusive: leaves the words of l..h sorted and
    the same.  It ends because either the range shrinks or one more character of
    distinct words is used up.
  */
  method SortRange(vec: WordVector, l: nat, h: nat, idx: nat, ghost longest: nat)
    requires l <= h < |vec.items|
    requires Sortable(vec.items, l, h + 1, longest) && Agree(vec.items, l, h + 1, idx)
    modifies vec
    ensures Rearranged(old(vec.items), vec.items, l, h + 1)
    ensures SortedIn(vec.items, l, h + 1)
    decreases if longest >= idx then longest - idx else 0, h - l, 1
  {
    hide Rearranged, Sortable, Agree, Side, SortedIn, CharAt;
    ghost var v0 := vec.items;
    if h <= l {
      OneIsSorted(v0, l, h);
      return;
    }
    MoreToCompare(v0, l, h + 1, idx, longest);
    var lt, gt, p := Partition(vec, l, h, idx);
    ghost var v1 := vec.items;
    KeptSortable(v0, v1, l, h + 1, idx, longest);
    Part(v1, l, h + 1, l, lt, idx, longest);
    SortPart(vec, l, lt, idx, longest);
    ghost var v2 := vec.items;
    FirstRunSorted(v1, v2, l, lt, gt, h + 1, idx, p, longest);
    Part(v2, l, h + 1, lt, gt + 1, idx, longest);
    MiddleAgrees(v2, lt, gt + 1, idx, p);
    SortRange(vec, lt, gt, idx + 1, longest);
    ghost var v3 := vec.items;
    MiddleRunSorted(v2, v3, l, lt, gt, h + 1, idx, p, longest);
    Part(v3, l, h + 1, gt + 1, h + 1, idx, longest);
    SortPart(vec, gt + 1, h + 1, idx, longest);
    ghost var v4 := vec.items;
    LastRunSorted(v3, v4, l, lt, gt, h + 1, idx, p, longest);
    RearrangedTwice(v0, v1, v2, l, h + 1);
    RearrangedTwice(v0, v2, v3, l, h + 1);
    RearrangedTwice(v0, v3, v4, l, h + 1);
  }

  lemma OneIsSorted(ws: seq<Text>, l: nat, h: nat)
    requires l == h < |ws|
    ensures Rearranged(ws, ws, l, h + 1) && SortedIn(ws, l, h + 1)
  {
  }

  /** The guards around the outer two calls: nothing to do for an empty run [l, h). */
  method SortPart(vec: WordVector, l: nat, h: nat, idx: nat, ghost longest: nat)
    requires l <= h <= |vec.items|
    requires Sortable(vec.items, l, h, longest) && Agree(vec.items, l, h, idx)
    modifies vec
    ensures Rearranged(old(vec.items), vec.items, l, h)
    ensures SortedIn(vec.items, l, h)
    decreases if longest >= idx then longest - idx else 0, h - l, 0
  {
    if l < h { SortRange(vec, l, h - 1, idx, longest); }
  }

  lemma FirstRunSorted(v: seq<Text>, w: seq<Text>, l: nat, lt: nat, gt: nat, h: nat, idx: nat, p: int, longest: nat)
    requires l <= lt <= gt < h <= |v| && Sortable(v, l, h, longest) && Agree(v, l, h, idx)
    requires Side(v, l, lt, idx, p, -1) && Side(v, lt, gt + 1, idx, p, 0) && Side(v, gt + 1, h, idx, p, 1)
    requires Rearranged(v, w, l, lt) && SortedIn(w, l, lt)
    ensures |w| == |v| && Rearranged(v, w, l, h) && Sortable(w, l, h, longest) && Agree(w, l, h, idx) && SortedIn(w, l, lt)
    ensures Side(w, l, lt, idx, p, -1) && Side(w, lt, gt + 1, idx, p, 0) && Side(w, gt + 1, h, idx, p, 1)
  {
    hide Rearranged, Sortable, Agree, Side, SortedIn;
    RearrangedWider(v, w, l, lt, l, h);
    SideKept(v, w, l, lt, idx, p, -1);
    Outside(v, w, l, lt, lt, gt + 1, idx, p, 0);
    Outside(v, w, l, lt, gt + 1, h, idx, p, 1);
    KeptSortable(v, w, l, h, idx, longest);
  }

  lemma MiddleRunSorted(v: seq<Text>, w: seq<Text>, l: nat, lt: nat, gt: nat, h: nat, idx: nat, p: int, longest: nat)
    requires l <= lt <= gt < h <= |v| && Sortable(v, l, h, longest) && Agree(v, l, h, idx) && SortedIn(v, l, lt)
    requires Side(v, l, lt, idx, p, -1) && Side(v, lt, gt + 1, idx, p, 0) && Side(v, gt + 1, h, idx, p, 1)
    requires Rearranged(v, w, lt, gt + 1) && SortedIn(w, lt, gt + 1)
    ensures |w| == |v| && Rearranged(v, w, l, h) && Sortable(w, l, h, longest) && Agree(w, l, h, idx)
    ensures SortedIn(w, l, lt) && SortedIn(w, lt, gt + 1)
    ensures Side(w, l, lt, idx, p, -1) && Side(w, lt, gt + 1, idx, p, 0) && Side(w, gt + 1, h, idx, p, 1)
  {
    hide Rearranged, Sortable, Agree, Side, SortedIn;
    RearrangedWider(v, w, lt, gt + 1, l, h);
    SideKept(v, w, lt, gt + 1, idx, p, 0);
    Outside(v, w, lt, gt + 1, l, lt, idx, p, -1);
    Outside(v, w, lt, gt + 1, gt + 1, h, idx, p, 1);
    KeptSortable(v, w, l, h, idx, longest);
  }

  lemma LastRunSorted(v: seq<Text>, w: seq<Text>, l: nat, lt: nat, gt: nat, h: nat, idx: nat, p: int, longest: nat)
    requires l <= lt <= gt < h <= |v| && Sortable(v, l, h, longest) && Agree(v, l, h, idx)
    requires SortedIn(v, l, lt) && SortedIn(v, lt, gt + 1)
    requires Side(v, l, lt, idx, p, -1) && Side(v, lt, gt + 1, idx, p, 0) && Side(v, gt + 1, h, idx, p, 1)
    requires Rearranged(v, w, gt + 1, h) && SortedIn(w, gt + 1, h)
    ensures Rearranged(v, w, l, h) && SortedIn(w, l, h)
  {
    hide Rearranged, Sortable, Agree, Side, SortedIn;
    RearrangedWider(v, w, gt + 1, h, l, h);
    SideKept(v, w, gt + 1, h, idx, p, 1);
    Outside(v, w, gt + 1, h, l, lt, idx, p, -1);
    Outside(v, w, gt + 1, h, lt, gt + 1, idx, p, 0);
    KeptSortable(v, w, l, h, idx, longest);
    Joined(w, l, lt, gt + 1, h, idx, p);
  }

  method Swap(vec: WordVector, i: nat, j: nat)
    requires i < |vec.items| && j < |vec.items|
    modifies vec
    ensures vec.items == Swapped(old(vec.items), i, j)
  {
    vec.items := vec.items[i := vec.items[j]][j := vec.items[i]];
  }

  function Swapped(ws: seq<Text>, i: nat, j: nat): seq<Text>
    requires i < |ws| && j < |ws|
  {
    ws[i := ws[j]][j := ws[i]]
  }

  /** The state of the partition: below p, equal to p, not looked at, above p. */
  ghost predicate Parted(ws: seq<Text>, l: nat, lt: nat, i: nat, gt: int, h: nat, idx: nat, p: int)
  {
    && l <= lt < i <= gt + 1 <= h + 1 <= |ws|
    && Side(ws, l, lt, idx, p, -1) && Side(ws, lt, i, idx, p, 0) && Side(ws, gt + 1, h + 1, idx, p, 1)
  }

  lemma LowSwap(ws: seq<Text>, l: nat, lt: nat, i: nat, gt: int, h: nat, idx: nat, p: int)
    requires Parted(ws, l, lt, i, gt, h, idx, p) && i <= gt && CharAt(ws[i], idx) < p
    ensures Parted(Swapped(ws, lt, i), l, lt + 1, i + 1, gt, h, idx, p)
    ensures Rearranged(ws, Swapped(ws, lt, i), l, h + 1)
  {
    hide CharAt;
    SwapRearranges(ws, lt, i, l, h + 1);
  }

  lemma HighSwap(ws: seq<Text>, l: nat, lt: nat, i: nat, gt: int, h: nat, idx: nat, p: int)
    requires Parted(ws, l, lt, i, gt, h, idx, p) && i <= gt && CharAt(ws[i], idx) > p
    ensures Parted(Swapped(ws, gt, i), l, lt, i, gt - 1, h, idx, p)
    ensures Rearranged(ws, Swapped(ws, gt, i), l, h + 1)
  {
    hide CharAt;
    SwapRearranges(ws, gt, i, l, h + 1);
  }

  /** The three-way partition around the first word's character. */
  method Partition(vec: WordVector, l: nat, h: nat, idx: nat) returns (lt: nat, gt: nat, p: int)
    requires l < h < |vec.items|
    modifies vec
    ensures l <= lt <= gt <= h
    ensures Rearranged(old(vec.items), vec.items, l, h + 1)
    ensures Side(vec.items, l, lt, idx, p, -1) && Side(vec.items, lt, gt + 1, idx, p, 0) && Side(vec.items, gt + 1, h + 1, idx, p, 1)
  {
    hide Rearranged, CharAt, Side, Swapped, Parted;
    lt, gt := l, h;
    p := CharAt(vec.items[l], idx);
    var i := l + 1;
    ghost var v0 := vec.items;
    PartitionStarts(v0, l, h, idx);
    while i <= gt
      invariant l <= lt < i <= gt + 1 <= h + 1 <= |vec.items| == |v0|
      invariant Rearranged(v0, vec.items, l, h + 1) && Parted(vec.items, l, lt, i, gt, h, idx, p)
      decreases gt + 1 - i
    {
      lt, i, gt := PartitionStep(vec, l, lt, i, gt, h, idx, p, v0);
    }
    PartitionEnds(vec.items, l, lt, i, gt, h, idx, p);
  }

  /** One round of the partition loop. */
  method PartitionStep(vec: WordVector, l: nat, lt: nat, i: nat, gt: nat, h: nat, idx: nat, p: int, ghost v0: seq<Text>)
    returns (lt': nat, i': nat, gt': nat)
    requires l <= lt < i <= gt <= h < |vec.items| == |v0|
    requires Rearranged(v0, vec.items, l, h + 1) && Parted(vec.items, l, lt, i, gt, h, idx, p)
    modifies vec
    ensures l <= lt' < i' <= gt' + 1 <= h + 1 <= |vec.items| == |v0| && gt' + 1 - i' == gt - i
    ensures Rearranged(v0, vec.items, l, h + 1) && Parted(vec.items, l, lt', i', gt', h, idx, p)
  {
    hide Rearranged, CharAt, Side, Swapped, Parted;
    lt', i', gt' := lt, i, gt;
    var c := CharAt(vec.items[i], idx);
    ghost var before := vec.items;
    if c < p {
      LowSwap(before, l, lt, i, gt, h, idx, p);
      Swap(vec, lt, i);
      RearrangedTwice(v0, before, vec.items, l, h + 1);
      lt', i' := lt + 1, i + 1;
    } else if c > p {
      HighSwap(before, l, lt, i, gt, h, idx, p);
      Swap(vec, gt, i);
      RearrangedTwice(v0, before, vec.items, l, h + 1);
      gt' := gt - 1;
    } else {
      EqualStep(before, l, lt, i, gt, h, idx, p);
      i' := i + 1;
    }
  }

  lemma PartitionEnds(ws: seq<Text>, l: nat, lt: nat, i: nat, gt: int, h: nat, idx: nat, p: int)
    requires Parted(ws, l, lt, i, gt, h, idx, p) && i == gt + 1
    ensures Side(ws, l, lt, idx, p, -1) && Side(ws, lt, gt + 1, idx, p, 0) && Side(ws, gt + 1, h + 1, idx, p, 1)
  {
    hide CharAt, Side;
  }

  lemma PartitionStarts(ws: seq<Text>, l: nat, h: nat, idx: nat)
    requires l < h < |ws|
    ensures Rearranged(ws, ws, l, h + 1) && Parted(ws, l, l, l + 1, h, h, idx, CharAt(ws[l], idx))
  {
  }

  lemma EqualStep(ws: seq<Text>, l: nat, lt: nat, i: nat, gt: int, h: nat, idx: nat, p: int)
    requires Parted(ws, l, lt, i, gt, h, idx, p) && i <= gt && CharAt(ws[i], idx) == p
    ensures Parted(ws, l, lt, i + 1, gt, h, idx, p)
  {
  }

  /** radix_sort(vec): the same words, in order. */
  method Sort(vec: WordVector)
    requires Distinct(vec.items) && forall i | 0 <= i < |vec.items| :: NulFree(vec.items[i])
    modifies vec
    ensures multiset(vec.items) == multiset(old(vec.items))
    ensures RadixSorted(vec.items)
  {
    if |vec.items| <= 1 { return; }
    ghost var longest := Longest(vec.items);
    SortRange(vec, 0, |vec.items| - 1, 0, longest);
    assert vec.items[0..|vec.items|] == vec.items && old(vec.items)[0..|vec.items|] == old(vec.items);
  }

  ghost function Longest(ws: seq<Text>): (n: nat)
    ensures forall i | 0 <= i < |ws| :: |ws[i]| <= n
  {
    if ws == [] then 0
    else
      var n := Longest(ws[..|ws| - 1]);
      assert forall i | 0 <= i < |ws| - 1 :: ws[i] == ws[..|ws| - 1][i];
      if n < |ws[|ws| - 1]| then |ws[|ws| - 1]| else n
  }
}
