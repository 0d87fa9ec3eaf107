/**
  partition, quickSort and sort of lib/algorithm.h: in place, for any comparison that is
  a strict weak order.
*/
module QuickSort {
  import opened Rearranging

  /** The vector a sort works on. */
  class Vector<T> {
    var items: seq<T>

    constructor (items: seq<T>)
      ensures this.items == items
    {
      this.items := items;
    }
  }

  /** `comp(a, b)` says that a comes before b. */
  ghost predicate WeakOrder<T(!new)>(comp: (T, T) -> bool) {
    && (forall a, b :: comp(a, b) ==> !comp(b, a))
    && (forall a, b, c :: !comp(a, b) && !comp(b, c) ==> !comp(a, c))
  }

  /** No element comes before an earlier one. */
  ghost predicate Sorted<T(!new)>(s: seq<T>, comp: (T, T) -> bool) {
    forall i, j | 0 <= i < j < |s| :: !comp(s[j], s[i])
  }

  /** What held of every element of a range still does. */
  lemma RearrangedKeeps<T>(a: seq<T>, b: seq<T>, lo: nat, hi: nat, p: T -> bool)
    requires lo <= hi <= |a| && Rearranged(a, b, lo, hi) && forall i | lo <= i < hi :: p(a[i])
    ensures forall i | lo <= i < hi :: p(b[i])
  {
    forall i | lo <= i < hi ensures p(b[i]) {
      assert b[i] == b[lo..hi][i - lo];
      assert b[i] in multiset(b[lo..hi]);
      assert b[i] in a[lo..hi];
    }
  }

  method Swap<T>(vec: Vector<T>, i: nat, j: nat)
    requires i < |vec.items| && j < |vec.items|
    modifies vec
    ensures vec.items == old(vec.items)[i := old(vec.items)[j]][j := old(vec.items)[i]]
  {
    vec.items := vec.items[i := vec.items[j]][j := vec.items[i]];
  }

  /** During the partition loop: what comes before the pivot is below `store`, the rest up to j is not. */
  ghost predicate Split<T(!new)>(s: seq<T>, comp: (T, T) -> bool, low: nat, store: nat, j: nat, pivot: T) {
    && low <= store <= j <= |s|
    && (forall k | low <= k < store :: comp(s[k], pivot))
    && (forall k | store <= k < j :: !comp(s[k], pivot))
  }

  /** One round of the partition loop. */
  lemma SplitStep<T(!new)>(s: seq<T>, comp: (T, T) -> bool, low: nat, store: nat, j: nat, high: nat)
    requires j < high < |s| && Split(s, comp, low, store, j, s[high])
    ensures !comp(s[j], s[high]) ==> Split(s, comp, low, store, j + 1, s[high])
    ensures var t := s[store := s[j]][j := s[store]];
            comp(s[j], s[high]) ==> t[high] == s[high] && Split(t, comp, low, store + 1, j + 1, s[high])
  {
  }

  /** The last swap puts the pivot between the parts. */
  lemma SplitEnd<T(!new)>(s: seq<T>, comp: (T, T) -> bool, low: nat, store: nat, high: nat)
    requires WeakOrder(comp) && high < |s| && Split(s, comp, low, store, high, s[high])
    ensures var t := s[store := s[high]][high := s[store]];
            && t[store] == s[high]
            && (forall k | low <= k < store :: comp(t[k], t[store]))
            && forall k | store < k <= high :: !comp(t[k], t[store])
  {
    NotBeforeItself(comp, s[high]);
  }

  lemma SplitStart<T(!new)>(s: seq<T>, comp: (T, T) -> bool, low: nat, pivot: T)
    requires low <= |s|
    ensures Split(s, comp, low, low, low, pivot)
  {
  }

  /** partition: the pivot is the middle element; it ends at the answer, smaller ones before it. */
  method Partition<T(!new)>(vec: Vector<T>, low: nat, high: nat, comp: (T, T) -> bool) returns (store: nat)
    requires low <= high < |vec.items| && WeakOrder(comp)
    modifies vec
    ensures low <= store <= high && |vec.items| == |old(vec.items)| && Rearranged(old(vec.items), vec.items, low, high + 1)
    ensures forall k | low <= k < store :: comp(vec.items[k], vec.items[store])
    ensures forall k | store < k <= high :: !comp(vec.items[k], vec.items[store])
  {
    hide Rearranged, WeakOrder, Split;
    ghost var v0 := vec.items;
    var mid := low + (high - low) / 2;
    SwapInRange(vec, mid, high, low, high, v0);
    store := low;
    SplitStart(vec.items, comp, low, vec.items[high]);
    for j := low to high
      invariant |vec.items| == |v0| && low <= store <= j
      invariant Split(vec.items, comp, low, store, j, vec.items[high]) && Rearranged(v0, vec.items, low, high + 1)
    {
      store := PartitionStep(vec, low, store, j, high, comp, v0);
    }
    SplitEnd(vec.items, comp, low, store, high);
    SwapInRange(vec, store, high, low, high, v0);
  }

  method SwapInRange<T>(vec: Vector<T>, i: nat, j: nat, low: nat, high: nat, ghost v0: seq<T>)
    requires low <= i <= high < |vec.items| == |v0| && low <= j <= high
    requires vec.items == v0 || Rearranged(v0, vec.items, low, high + 1)
    modifies vec
    ensures vec.items == old(vec.items)[i := old(vec.items)[j]][j := old(vec.items)[i]]
    ensures Rearranged(v0, vec.items, low, high + 1)
  {
    hide Rearranged;
    ghost var v1 := vec.items;
    SwapRearranges(v1, i, j, low, high + 1);
    Swap(vec, i, j);
    if v1 != v0 { RearrangedTwice(v0, v1, vec.items, low, high + 1); }
  }

  method PartitionStep<T(!new)>(vec: Vector<T>, low: nat, store: nat, j: nat, high: nat, comp: (T, T) -> bool, ghost v0: seq<T>)
    returns (next: nat)
    requires low <= store <= j < high < |vec.items| == |v0|
    requires Split(vec.items, comp, low, store, j, vec.items[high]) && Rearranged(v0, vec.items, low, high + 1)
    modifies vec
    ensures |vec.items| == |v0| && low <= next <= j + 1
    ensures Split(vec.items, comp, low, next, j + 1, vec.items[high]) && Rearranged(v0, vec.items, low, high + 1)
  {
    hide Rearranged, Split;
    SplitStep(vec.items, comp, low, store, j, high);
    next := store;
    if comp(vec.items[j], vec.items[high]) {
      SwapInRange(vec, store, j, low, high, v0);
      next := store + 1;
    }
  }

  lemma NotBeforeItself<T(!new)>(comp: (T, T) -> bool, x: T)
    requires WeakOrder(comp)
    ensures !comp(x, x)
  {
  }

  /** quickSort */
  method SortRange<T(!new)>(vec: Vector<T>, low: nat, high: nat, comp: (T, T) -> bool)
    requires low <= high < |vec.items| && WeakOrder(comp)
    modifies vec
    ensures |vec.items| == |old(vec.items)| && Rearranged(old(vec.items), vec.items, low, high + 1)
    ensures Sorted(vec.items[low..high + 1], comp)
    decreases high - low
  {
    hide Rearranged, WeakOrder, Sorted;
    ghost var v0 := vec.items;
    if low >= high {
      Same(v0, low, high + 1);
      OneIsSorted(vec.items[low..high + 1], comp);
      return;
    }
    var p := Partition(vec, low, high, comp);
    ghost var v1 := vec.items;
    Same(v1, low, p);
    OneIsSorted(v1[low..low], comp);
    if p > low { SortRange(vec, low, p - 1, comp); }
    ghost var v2 := vec.items;
    Same(v2, p + 1, high + 1);
    OneIsSorted(v2[high + 1..high + 1], comp);
    if p < high { SortRange(vec, p + 1, high, comp); }
    HalvesSorted(v0, v1, v2, vec.items, low, p, high, comp);
  }

  lemma Same<T>(s: seq<T>, lo: nat, hi: nat)
    requires lo <= hi <= |s|
    ensures Rearranged(s, s, lo, hi)
  {
  }

  lemma OneIsSorted<T(!new)>(s: seq<T>, comp: (T, T) -> bool)
    requires |s| <= 1
    ensures Sorted(s, comp)
  {
  }

  /** After both halves are sorted, so is the whole: the pivot keeps them apart. */
  lemma HalvesSorted<T(!new)>(v0: seq<T>, v1: seq<T>, v2: seq<T>, v3: seq<T>, low: nat, p: nat, high: nat, comp: (T, T) -> bool)
    requires low <= p <= high < |v0| && WeakOrder(comp)
    requires |v0| == |v1| == |v2| == |v3|
    requires Rearranged(v0, v1, low, high + 1) && Rearranged(v1, v2, low, p) && Rearranged(v2, v3, p + 1, high + 1)
    requires forall k | low <= k < p :: comp(v1[k], v1[p])
    requires forall k | p < k <= high :: !comp(v1[k], v1[p])
    requires Sorted(v2[low..p], comp) && Sorted(v3[p + 1..high + 1], comp)
    ensures Rearranged(v0, v3, low, high + 1) && Sorted(v3[low..high + 1], comp)
  {
    hide Rearranged, Sorted;
    AllRearranged(v0, v1, v2, v3, low, p, high);
    var pivot := v1[p];
    Untouched(v1, v2, low, p);
    Untouched(v2, v3, p + 1, high + 1);
    RearrangedKeeps(v1, v2, low, p, x => comp(x, pivot));
    RearrangedKeeps(v2, v3, p + 1, high + 1, x => !comp(x, pivot));
    assert v3[low..p] == v2[low..p];
    Assembled(v3, low, p, high, comp);
  }

  lemma AllRearranged<T>(v0: seq<T>, v1: seq<T>, v2: seq<T>, v3: seq<T>, low: nat, p: nat, high: nat)
    requires low <= p <= high < |v0| == |v1| == |v2| == |v3|
    requires Rearranged(v0, v1, low, high + 1) && Rearranged(v1, v2, low, p) && Rearranged(v2, v3, p + 1, high + 1)
    ensures Rearranged(v0, v3, low, high + 1)
  {
    hide Rearranged;
    RearrangedWider(v1, v2, low, p, low, high + 1);
    RearrangedWider(v2, v3, p + 1, high + 1, low, high + 1);
    RearrangedTwice(v0, v1, v2, low, high + 1);
    RearrangedTwice(v0, v2, v3, low, high + 1);
  }

  lemma Untouched<T>(a: seq<T>, b: seq<T>, lo: nat, hi: nat)
    requires lo <= hi <= |a| && Rearranged(a, b, lo, hi)
    ensures |b| == |a|
    ensures forall k | 0 <= k < lo || hi <= k < |a| :: b[k] == a[k]
    ensures forall l, h | 0 <= l <= h <= lo :: b[l..h] == a[l..h]
  {
    assert forall k | 0 <= k < lo :: b[k] == b[..lo][k] && a[k] == a[..lo][k];
    assert forall k | hi <= k < |a| :: b[k] == b[hi..][k - hi] && a[k] == a[hi..][k - hi];
  }

  lemma Assembled<T(!new)>(v: seq<T>, low: nat, p: nat, high: nat, comp: (T, T) -> bool)
    requires low <= p <= high < |v| && WeakOrder(comp)
    requires forall k | low <= k < p :: comp(v[k], v[p])
    requires forall k | p < k <= high :: !comp(v[k], v[p])
    requires Sorted(v[low..p], comp) && Sorted(v[p + 1..high + 1], comp)
    ensures Sorted(v[low..high + 1], comp)
  {
    var s := v[low..high + 1];
    forall i, j | 0 <= i < j < |s| ensures !comp(s[j], s[i]) {
      var a, b := low + i, low + j;
      if b < p {
        assert v[low..p][i] == s[i] && v[low..p][j] == s[j];
      } else if a > p {
        assert v[p + 1..high + 1][a - p - 1] == s[i] && v[p + 1..high + 1][b - p - 1] == s[j];
      } else if a < p {
        assert comp(v[a], v[p]) && (b == p || !comp(v[b], v[p]));
      }
    }
  }

  /** sort: the same elements, in order. */
  method Sort<T(!new)>(vec: Vector<T>, comp: (T, T) -> bool)
    requires WeakOrder(comp)
    modifies vec
    ensures multiset(vec.items) == multiset(old(vec.items)) && Sorted(vec.items, comp)
  {
    ghost var v0 := vec.items;
    if |vec.items| <= 1 { return; }
    SortRange(vec, 0, |vec.items| - 1, comp);
    assert vec.items[0..|vec.items|] == vec.items && v0[0..|v0|] == v0;
  }
}
