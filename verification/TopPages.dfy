/**
  Keeping the best pages: SmallPQ (ranker/Ranker.h), RankedBuffer and merge_top_pages
  (index_chunk/ranked_buffer.h), and the sort-and-cut of handle_query
  (index_manager/index_manager.h) and get_results (query/query_handler.h).

  A list is the top k of some pages when it is descending, made of those pages, and has,
  for every threshold, as many pages at or above it as the pages themselves have, up to k.
*/
module TopPages {
  import opened Bytes
  import QuickSort

  datatype Page = Page(url: Text, score: real)

  /** RANKED_ON_EACH, NUM_RESULTS_RETURN and RankedBuffer::CAPACITY. */
  const TOP: nat := 10

  /** How many pages score t or more. */
  function Count(s: seq<Page>, t: real): nat {
    if s == [] then 0 else Count(s[..|s| - 1], t) + if s[|s| - 1].score >= t then 1 else 0
  }

  predicate Descending(s: seq<Page>) {
    forall i, j | 0 <= i < j < |s| :: s[i].score >= s[j].score
  }

  function Min(a: nat, b: nat): nat {
    if a < b then a else b
  }

  /** `best` is the k best of `all`. */
  ghost predicate IsTop(best: seq<Page>, all: seq<Page>, k: nat) {
    && Descending(best)
    && multiset(best) <= multiset(all)
    && forall t: real :: Count(best, t) == Min(k, Count(all, t))
  }

  // ---------------------------------------------------------------- counting

  lemma {:induction false} CountJoin(a: seq<Page>, b: seq<Page>, t: real)
    ensures Count(a + b, t) == Count(a, t) + Count(b, t)
  {
    if b == [] {
      assert a + b == a;
    } else {
      assert (a + b)[..|a + b| - 1] == a + b[..|b| - 1];
      CountJoin(a, b[..|b| - 1], t);
    }
  }

  lemma CountOne(p: Page, t: real)
    ensures Count([p], t) == if p.score >= t then 1 else 0
  {
    assert [p][..0] == [];
  }

  /** A list without its k-th page. */
  function Less(s: seq<Page>, k: nat): seq<Page>
    requires k < |s|
  {
    s[..k] + s[k + 1..]
  }

  lemma LessOne(s: seq<Page>, k: nat)
    requires k < |s|
    ensures multiset(s) == multiset(Less(s, k)) + multiset{s[k]}
    ensures forall t: real :: Count(s, t) == Count(Less(s, k), t) + if s[k].score >= t then 1 else 0
  {
    hide Count;
    assert s == s[..k] + [s[k]] + s[k + 1..];
    forall t: real ensures Count(s, t) == Count(Less(s, k), t) + if s[k].score >= t then 1 else 0 {
      CountJoin(s[..k], [s[k]], t);
      CountJoin(s[..k] + [s[k]], s[k + 1..], t);
      CountJoin(s[..k], s[k + 1..], t);
      CountOne(s[k], t);
    }
  }

  /** Counting does not see the order. */
  lemma {:induction false} CountSame(a: seq<Page>, b: seq<Page>, t: real)
    requires multiset(a) == multiset(b)
    ensures Count(a, t) == Count(b, t)
    decreases |a|
  {
    hide Count, Less;
    if a == [] {
      assert |multiset(b)| == |b|;
    } else {
      assert a[0] in multiset(b);
      var k :| 0 <= k < |b| && b[k] == a[0];
      LessOne(a, 0);
      LessOne(b, k);
      LessLength(a, 0);
      assert multiset(Less(a, 0)) == multiset(a) - multiset{a[0]} == multiset(Less(b, k));
      CountSame(Less(a, 0), Less(b, k), t);
    }
  }

  lemma LessLength(s: seq<Page>, k: nat)
    requires k < |s|
    ensures |Less(s, k)| == |s| - 1
  {
  }

  lemma {:induction false} CountBounds(s: seq<Page>, t: real)
    ensures Count(s, t) <= |s|
    ensures (forall i | 0 <= i < |s| :: s[i].score >= t) ==> Count(s, t) == |s|
    ensures (forall i | 0 <= i < |s| :: s[i].score < t) ==> Count(s, t) == 0
  {
    if s != [] { CountBounds(s[..|s| - 1], t); }
  }

  /** Splitting pages into k that are kept and others that score no better. */
  lemma KeptIsTop(best: seq<Page>, rest: seq<Page>, all: seq<Page>, k: nat)
    requires multiset(best + rest) == multiset(all) && Descending(best)
    requires |best| <= k && (rest == [] || |best| == k)
    requires forall i, j | 0 <= i < |best| && 0 <= j < |rest| :: best[i].score >= rest[j].score
    ensures IsTop(best, all, k)
  {
    assert multiset(best + rest) == multiset(best) + multiset(rest);
    forall t: real ensures Count(best, t) == Min(k, Count(all, t)) {
      CountSame(best + rest, all, t);
      CountJoin(best, rest, t);
      CountBounds(best, t);
      CountBounds(rest, t);
      if j :| 0 <= j < |rest| && rest[j].score >= t {
        assert forall i | 0 <= i < |best| :: best[i].score >= rest[j].score;
      }
    }
  }

  // ---------------------------------------------------------------- laws

  /** Two lists that are the top k of the same pages have the same scores. */
  lemma TopScoresAgree(a: seq<Page>, b: seq<Page>, all: seq<Page>, k: nat)
    requires IsTop(a, all, k) && IsTop(b, all, k)
    ensures |a| == |b| && forall i | 0 <= i < |a| :: a[i].score == b[i].score
  {
    hide IsTop, Count;
    forall t: real ensures Count(a, t) == Count(b, t) { TopCounts(a, all, k, t); TopCounts(b, all, k, t); }
    TopDescends(a, all, k);
    TopDescends(b, all, k);
    NoLonger(a, b);
    NoLonger(b, a);
    forall i | 0 <= i < |a| ensures a[i].score == b[i].score {
      NoLower(a, b, i);
      NoLower(b, a, i);
    }
  }

  lemma TopCounts(best: seq<Page>, all: seq<Page>, k: nat, t: real)
    requires IsTop(best, all, k)
    ensures Count(best, t) == Min(k, Count(all, t))
  {
  }

  lemma TopDescends(best: seq<Page>, all: seq<Page>, k: nat)
    requires IsTop(best, all, k)
    ensures Descending(best)
  {
  }

  lemma NoLonger(a: seq<Page>, b: seq<Page>)
    requires Descending(a) && forall t: real :: Count(a, t) == Count(b, t)
    ensures |a| <= |b|
  {
    if |a| > 0 {
      var t := a[|a| - 1].score;
      CountBounds(a, t);
      CountBounds(b, t);
    }
  }

  lemma AtLeastHere(a: seq<Page>, i: nat)
    requires Descending(a) && i < |a|
    ensures Count(a, a[i].score) >= i + 1
  {
    hide Count;
    var t, head, tail := a[i].score, a[..i + 1], a[i + 1..];
    assert a == head + tail;
    assert forall j | 0 <= j < |head| :: head[j] == a[j] && a[j].score >= t;
    CountJoin(head, tail, t);
    CountBounds(head, t);
  }

  lemma AtMostHere(b: seq<Page>, i: nat, t: real)
    requires i <= |b| && forall j | i <= j < |b| :: b[j].score < t
    ensures Count(b, t) <= i
  {
    hide Count;
    assert b == b[..i] + b[i..];
    CountJoin(b[..i], b[i..], t);
    CountBounds(b[..i], t);
    CountBounds(b[i..], t);
  }

  /** The i-th of one list is no better than the i-th of the other. */
  lemma NoLower(a: seq<Page>, b: seq<Page>, i: nat)
    requires Descending(a) && Descending(b) && (forall t: real :: Count(a, t) == Count(b, t)) && i < |a| == |b|
    ensures a[i].score <= b[i].score
  {
    AtLeastHere(a, i);
    if b[i].score < a[i].score { AtMostHere(b, i, a[i].score); }
  }

  function Joined(parts: seq<seq<Page>>): seq<Page> {
    if parts == [] then [] else Joined(parts[..|parts| - 1]) + parts[|parts| - 1]
  }

  lemma {:induction false} TopsCount(tops: seq<seq<Page>>, parts: seq<seq<Page>>, k: nat, t: real)
    requires |tops| == |parts| && forall i | 0 <= i < |parts| :: IsTop(tops[i], parts[i], k)
    ensures Min(k, Count(Joined(tops), t)) == Min(k, Count(Joined(parts), t))
    ensures multiset(Joined(tops)) <= multiset(Joined(parts))
  {
    hide Count;
    if parts != [] {
      var last := |parts| - 1;
      TopsCount(tops[..last], parts[..last], k, t);
      TopCounts(tops[last], parts[last], k, t);
      CountJoin(Joined(tops[..last]), tops[last], t);
      CountJoin(Joined(parts[..last]), parts[last], t);
      assert multiset(Joined(tops)) == multiset(Joined(tops[..last])) + multiset(tops[last]);
      assert multiset(Joined(parts)) == multiset(Joined(parts[..last])) + multiset(parts[last]);
    }
  }

  /** However pages are split, the top of the parts' tops is the top of all pages. */
  lemma TopOfTops(best: seq<Page>, gathered: seq<Page>, tops: seq<seq<Page>>, parts: seq<seq<Page>>, k: nat)
    requires |tops| == |parts| && forall i | 0 <= i < |parts| :: IsTop(tops[i], parts[i], k)
    requires multiset(gathered) == multiset(Joined(tops)) && IsTop(best, gathered, k)
    ensures IsTop(best, Joined(parts), k)
  {
    hide Count, Joined;
    forall t: real ensures Count(best, t) == Min(k, Count(Joined(parts), t)) {
      TopsCount(tops, parts, k, t);
      CountSame(gathered, Joined(tops), t);
    }
    TopsCount(tops, parts, k, 0.0);
  }

  // ---------------------------------------------------------------- SmallPQ

  class SmallPQ {
    var v: seq<Page>
    const maxSize: nat

    /** Everything that was ever pushed. */
    ghost var pushed: seq<Page>

    ghost predicate Valid()
      reads this
    {
      0 < maxSize && |v| <= maxSize && IsTop(v, pushed, maxSize)
    }

    constructor (maxSize: nat)
      requires 0 < maxSize
      ensures Valid() && pushed == [] && this.maxSize == maxSize
    {
      this.maxSize, v, pushed := maxSize, [], [];
    }

    /** push: after any number of pushes the queue holds the top pages of all of them. */
    method Push(l: Page)
      requires Valid()
      modifies this
      ensures Valid() && pushed == old(pushed) + [l]
    {
      hide IsTop, InPlace;
      PushedOne(v, pushed, l, maxSize);
      pushed := pushed + [l];
      if |v| == maxSize && l.score <= v[|v| - 1].score { return; }
      var insertPos := PlaceFor(l);
      InsertedAt(v, l, insertPos);
      v := v[..insertPos] + [l] + v[insertPos..];
      if |v| > maxSize { v := v[..|v| - 1]; }
    }

    /** The first place that is not strictly better. */
    method PlaceFor(l: Page) returns (insertPos: nat)
      ensures insertPos <= |v| && forall i | 0 <= i < insertPos :: v[i].score >= l.score
      ensures insertPos < |v| ==> v[insertPos].score <= l.score
    {
      insertPos := 0;
      while insertPos < |v| && v[insertPos].score > l.score
        invariant insertPos <= |v| && forall i | 0 <= i < insertPos :: v[i].score > l.score
      {
        insertPos := insertPos + 1;
      }
    }

    /** getResults */
    method GetResults() returns (pages: seq<Page>)
      requires Valid()
      ensures IsTop(pages, pushed, maxSize)
    {
      pages := v;
    }
  }

  /** A list with one more page in its place. */
  ghost predicate InPlace(w: seq<Page>, v: seq<Page>, l: Page) {
    Descending(w) && multiset(w) == multiset(v + [l])
  }

  lemma InsertedAt(v: seq<Page>, l: Page, at: nat)
    requires Descending(v) && at <= |v| && forall i | 0 <= i < at :: v[i].score >= l.score
    requires at < |v| ==> v[at].score <= l.score
    ensures InPlace(v[..at] + [l] + v[at..], v, l)
  {
    hide Descending;
    assert v == v[..at] + v[at..];
    InsertedDescends(v, l, at);
  }

  lemma InsertedDescends(v: seq<Page>, l: Page, at: nat)
    requires Descending(v) && at <= |v| && forall i | 0 <= i < at :: v[i].score >= l.score
    requires at < |v| ==> v[at].score <= l.score
    ensures Descending(v[..at] + [l] + v[at..])
  {
    var w := v[..at] + [l] + v[at..];
    forall i, j | 0 <= i < j < |w| ensures w[i].score >= w[j].score {
      if i == at {
        assert v[at].score >= v[j - 1].score;
      }
    }
  }

  /** What one more page does to the top k. */
  lemma PushedOne(v: seq<Page>, pushed: seq<Page>, l: Page, k: nat)
    requires 0 < k && |v| <= k && IsTop(v, pushed, k)
    ensures Descending(v)
    ensures |v| == k && l.score <= v[|v| - 1].score ==> IsTop(v, pushed + [l], k)
    ensures forall w | InPlace(w, v, l) :: if |w| > k then IsTop(w[..|w| - 1], pushed + [l], k) else IsTop(w, pushed + [l], k)
  {
    hide Count;
    assert multiset(pushed + [l]) == multiset(pushed) + multiset{l};
    if |v| == k && l.score <= v[|v| - 1].score {
      forall t: real ensures Count(v, t) == Min(k, Count(pushed + [l], t)) {
        CountJoin(pushed, [l], t);
        CountOne(l, t);
        CountBounds(v, t);
      }
    }
    forall w | InPlace(w, v, l)
      ensures if |w| > k then IsTop(w[..|w| - 1], pushed + [l], k) else IsTop(w, pushed + [l], k)
    {
      InPlaceIsTop(w, v, pushed, l, k);
    }
  }

  lemma InPlaceIsTop(w: seq<Page>, v: seq<Page>, pushed: seq<Page>, l: Page, k: nat)
    requires 0 < k && |v| <= k && IsTop(v, pushed, k) && InPlace(w, v, l)
    ensures if |w| > k then IsTop(w[..|w| - 1], pushed + [l], k) else IsTop(w, pushed + [l], k)
  {
    hide Count;
    var cut := if |w| > k then w[..|w| - 1] else w;
    var rest := if |w| > k then w[|w| - 1..] else [];
    assert cut + rest == w;
    assert |multiset(w)| == |w| && |multiset(v + [l])| == |v| + 1;
    KeptIsTop(cut, rest, v + [l], k);
    assert multiset(v + [l]) == multiset(v) + multiset{l} && multiset(pushed + [l]) == multiset(pushed) + multiset{l};
    forall t: real ensures Count(cut, t) == Min(k, Count(pushed + [l], t)) {
      CountJoin(v, [l], t);
      CountJoin(pushed, [l], t);
      TopCounts(v, pushed, k, t);
      TopCounts(cut, v + [l], k, t);
    }
  }

  // ---------------------------------------------------------------- RankedBuffer

  class RankedBuffer {
    var pages: seq<Page>

    /** Everything insert was called with. */
    ghost var offered: seq<Page>

    ghost predicate Valid()
      reads this
    {
      |pages| <= TOP && IsTop(pages, offered, TOP)
    }

    constructor ()
      ensures Valid() && offered == []
    {
      pages, offered := [], [];
    }

    /** insert: the worst page makes room, the new one bubbles up to its place. */
    method Insert(page: Page) returns (inserted: bool)
      requires Valid()
      modifies this
      ensures Valid() && offered == old(offered) + [page]
      ensures !inserted <==> |old(pages)| == TOP && page.score <= old(pages)[TOP - 1].score
    {
      hide IsTop, InPlace;
      ghost var v := pages;
      PushedOne(v, offered, page, TOP);
      offered := offered + [page];
      if |pages| == TOP && page.score <= pages[TOP - 1].score { return false; }
      if |pages| == TOP { pages := pages[..TOP - 1]; }
      ghost var kept := pages;
      pages := pages + [page];
      var i := |pages| - 1;
      while i > 0
        invariant offered == old(offered) + [page] && 0 <= i < |pages| == |kept| + 1 && pages == kept[..i] + [page] + kept[i..]
        invariant forall j | i <= j < |kept| :: kept[j].score < page.score
        decreases i
      {
        BubbleOne(kept, page, i);
        if pages[i - 1].score >= pages[i].score { break; }
        pages := pages[i - 1 := pages[i]][i := pages[i - 1]];
        i := i - 1;
      }
      Bubbled(v, kept, page, i);
      inserted := true;
    }
  }

  lemma BubbleOne(kept: seq<Page>, page: Page, i: nat)
    requires 0 < i <= |kept|
    ensures var at, before := kept[..i] + [page] + kept[i..], kept[..i - 1] + [page] + kept[i - 1..];
            && at[i] == page && at[i - 1] == kept[i - 1]
            && at[i - 1 := at[i]][i := at[i - 1]] == before
  {
  }

  /** Dropping the worst page first and inserting then is inserting and dropping the last. */
  lemma Bubbled(v: seq<Page>, kept: seq<Page>, page: Page, i: nat)
    requires Descending(v) && i <= |kept| && |v| <= TOP
    requires if |v| == TOP then kept == v[..TOP - 1] && v[TOP - 1].score < page.score else kept == v
    requires forall j | i <= j < |kept| :: kept[j].score < page.score
    requires i > 0 ==> kept[i - 1].score >= page.score
    ensures var w := v[..i] + [page] + v[i..];
            InPlace(w, v, page) && kept[..i] + [page] + kept[i..] == if |w| > TOP then w[..|w| - 1] else w
  {
    hide InPlace, Descending;
    if |v| == TOP { CutBack(v, page, i); }
    Above(v, page, i);
    assert i < |v| ==> v[i].score <= page.score by {
      if i < |kept| { assert kept[i] == v[i]; }
    }
    InsertedAt(v, page, i);
  }

  lemma CutBack(v: seq<Page>, page: Page, i: nat)
    requires i < |v|
    ensures var kept, w := v[..|v| - 1], v[..i] + [page] + v[i..];
            kept[..i] + [page] + kept[i..] == w[..|w| - 1]
  {
  }

  lemma Above(v: seq<Page>, page: Page, i: nat)
    requires Descending(v) && i <= |v| && (i > 0 ==> v[i - 1].score >= page.score)
    ensures forall j | 0 <= j < i :: v[j].score >= page.score
  {
    forall j | 0 <= j < i ensures v[j].score >= page.score {
      if j < i - 1 { assert v[j].score >= v[i - 1].score; }
    }
  }

  // ---------------------------------------------------------------- merge_top_pages

  /** Every source is descending. */
  ghost predicate AllDescending(sources: seq<seq<Page>>) {
    forall i | 0 <= i < |sources| :: Descending(sources[i])
  }

  /** What the cursors have not taken yet. */
  function Left(sources: seq<seq<Page>>, at: seq<nat>): (r: seq<seq<Page>>)
    requires |at| == |sources| && forall i | 0 <= i < |at| :: at[i] <= |sources[i]|
    ensures |r| == |sources| && forall i | 0 <= i < |r| :: r[i] == sources[i][at[i]..]
  {
    seq(|sources|, i requires 0 <= i < |sources| => sources[i][at[i]..])
  }

  lemma JoinedLast(parts: seq<seq<Page>>)
    requires parts != []
    ensures multiset(Joined(parts)) == multiset(Joined(parts[..|parts| - 1])) + multiset(parts[|parts| - 1])
  {
  }

  lemma FirstAndRest(s: seq<Page>)
    requires s != []
    ensures multiset(s) == multiset(s[1..]) + multiset{s[0]}
  {
    assert s == [s[0]] + s[1..];
  }

  lemma {:induction false} TakeOne(parts: seq<seq<Page>>, i: nat)
    requires i < |parts| && parts[i] != []
    ensures multiset(Joined(parts)) == multiset(Joined(parts[i := parts[i][1..]])) + multiset{parts[i][0]}
  {
    hide Joined;
    var last := |parts| - 1;
    var less := parts[i := parts[i][1..]];
    JoinedLast(parts);
    JoinedLast(less);
    FirstAndRest(parts[i]);
    if i == last {
      assert less[..last] == parts[..last];
    } else {
      TakeOne(parts[..last], i);
      assert less[..last] == parts[..last][i := parts[i][1..]];
    }
  }

  lemma {:induction false} JoinedMember(parts: seq<seq<Page>>, p: Page) returns (i: nat, j: nat)
    requires p in Joined(parts)
    ensures i < |parts| && j < |parts[i]| && parts[i][j] == p
  {
    var last := |parts| - 1;
    if p in parts[last] {
      i := last;
      j :| 0 <= j < |parts[last]| && parts[last][j] == p;
    } else {
      i, j := JoinedMember(parts[..last], p);
    }
  }

  lemma {:induction false} NothingLeft(parts: seq<seq<Page>>)
    requires forall i | 0 <= i < |parts| :: parts[i] == []
    ensures Joined(parts) == []
  {
    if parts != [] { NothingLeft(parts[..|parts| - 1]); }
  }

  /** The best of the cursors' pages; |sources| when all are at their end. */
  method BestSource(sources: seq<seq<Page>>, at: seq<nat>) returns (best: nat)
    requires |at| == |sources| && forall i | 0 <= i < |at| :: at[i] <= |sources[i]|
    ensures best <= |sources|
    ensures best < |sources| ==> at[best] < |sources[best]|
    ensures best < |sources| ==>
              forall i | 0 <= i < |at| && at[i] < |sources[i]| :: sources[i][at[i]].score <= sources[best][at[best]].score
    ensures best == |sources| ==> forall i | 0 <= i < |at| :: at[i] == |sources[i]|
  {
    best := |sources|;
    for i := 0 to |sources|
      invariant best == |sources| || (best < i && at[best] < |sources[best]|)
      invariant best < |sources| ==>
                  forall j | 0 <= j < i && at[j] < |sources[j]| :: sources[j][at[j]].score <= sources[best][at[best]].score
      invariant best == |sources| ==> forall j | 0 <= j < i :: at[j] == |sources[j]|
    {
      if at[i] < |sources[i]| {
        if best == |sources| || sources[i][at[i]].score > sources[best][at[best]].score { best := i; }
      }
    }
  }

  /** The k-way merge's state: what was taken and what is left are all pages, and nothing left beats what was taken. */
  ghost predicate Merging(result: seq<Page>, sources: seq<seq<Page>>, at: seq<nat>) {
    && |at| == |sources| && (forall i | 0 <= i < |at| :: at[i] <= |sources[i]|)
    && Descending(result)
    && multiset(result + Joined(Left(sources, at))) == multiset(Joined(sources))
    && (forall i, j, r | 0 <= i < |sources| && at[i] <= j < |sources[i]| && r in result :: sources[i][j].score <= r.score)
  }

  /** merge_top_pages: the top pages of sorted buffers. */
  method MergeTopPages(sources: seq<seq<Page>>, cap: nat) returns (result: seq<Page>)
    requires AllDescending(sources)
    ensures IsTop(result, Joined(sources), cap)
  {
    hide Merging, IsTop;
    result := [];
    var at: seq<nat> := seq(|sources|, i => 0);
    MergeStarts(sources, at);
    while |result| < cap
      invariant |result| <= cap && Merging(result, sources, at)
      invariant |at| == |sources| && forall i | 0 <= i < |at| :: at[i] <= |sources[i]|
      decreases cap - |result|
    {
      var best := BestSource(sources, at);
      if best == |sources| { break; }
      MergeStep(result, sources, at, best);
      result := result + [sources[best][at[best]]];
      at := at[best := at[best] + 1];
    }
    MergeEnds(result, sources, at, cap);
  }

  lemma MergeStarts(sources: seq<seq<Page>>, at: seq<nat>)
    requires |at| == |sources| && forall i | 0 <= i < |at| :: at[i] == 0
    ensures Merging([], sources, at)
  {
    assert Left(sources, at) == sources;
    assert [] + Joined(sources) == Joined(sources);
  }

  lemma MergeStep(result: seq<Page>, sources: seq<seq<Page>>, at: seq<nat>, best: nat)
    requires AllDescending(sources) && Merging(result, sources, at) && best < |sources| && at[best] < |sources[best]|
    requires forall i | 0 <= i < |at| && at[i] < |sources[i]| :: sources[i][at[i]].score <= sources[best][at[best]].score
    ensures Merging(result + [sources[best][at[best]]], sources, at[best := at[best] + 1])
  {
    hide Joined;
    var p, left, at' := sources[best][at[best]], Left(sources, at), at[best := at[best] + 1];
    TakeOne(left, best);
    assert Left(sources, at') == left[best := left[best][1..]];
    assert multiset(result + [p]) == multiset(result) + multiset{p};
    forall i, j | 0 <= i < |sources| && at'[i] <= j < |sources[i]| ensures sources[i][j].score <= p.score {
      assert Descending(sources[i]);
    }
    forall i | 0 <= i < |result| ensures result[i].score >= p.score {
      assert result[i] in result;
    }
  }

  lemma MergeEnds(result: seq<Page>, sources: seq<seq<Page>>, at: seq<nat>, cap: nat)
    requires Merging(result, sources, at) && |result| <= cap
    requires |result| == cap || forall i | 0 <= i < |at| :: at[i] == |sources[i]|
    ensures IsTop(result, Joined(sources), cap)
  {
    hide IsTop, Joined;
    var left := Left(sources, at);
    if |result| < cap { NothingLeft(left); }
    forall i, j | 0 <= i < |result| && 0 <= j < |Joined(left)| ensures result[i].score >= Joined(left)[j].score {
      var a, b := JoinedMember(left, Joined(left)[j]);
      assert sources[a][at[a] + b] == Joined(left)[j];
      assert result[i] in result;
    }
    KeptIsTop(result, Joined(left), Joined(sources), cap);
  }

  // ---------------------------------------------------------------- handle_query and get_results

  predicate Better(a: Page, b: Page) {
    a.score > b.score
  }

  lemma BetterIsOrder()
    ensures QuickSort.WeakOrder(Better)
  {
  }

  /** The sort by score and the cut to ten, as on each machine and again at the coordinator. */
  method SortAndCut(gathered: seq<Page>) returns (best: seq<Page>)
    ensures IsTop(best, gathered, TOP) && |best| == if |gathered| < 10 then |gathered| else 10
  {
    BetterIsOrder();
    var vec := new QuickSort.Vector(gathered);
    QuickSort.Sort(vec, Better);
    var all := vec.items;
    assert Descending(all);
    best := if |all| > TOP then all[..TOP] else all;
    var rest := if |all| > TOP then all[TOP..] else [];
    assert best + rest == all;
    KeptIsTop(best, rest, gathered, TOP);
  }

  /**
    The sharding law.  Each machine gathers its chunks' lists in any order, sorts and
    cuts; the coordinator does the same with the machines' lists.  The final scores are
    those of the ten best of all pages, however the pages were split.
  */
  lemma ShardedTopTen(final: seq<Page>, atCoordinator: seq<Page>, perMachine: seq<seq<Page>>, onMachine: seq<seq<Page>>,
      fromChunks: seq<seq<seq<Page>>>, pages: seq<seq<seq<Page>>>)
    requires |perMachine| == |onMachine| == |fromChunks| == |pages|
    requires forall m | 0 <= m < |pages| :: |fromChunks[m]| == |pages[m]|
    requires forall m, c | 0 <= m < |pages| && 0 <= c < |pages[m]| :: IsTop(fromChunks[m][c], pages[m][c], TOP)
    requires forall m | 0 <= m < |pages| :: multiset(onMachine[m]) == multiset(Joined(fromChunks[m])) && IsTop(perMachine[m], onMachine[m], TOP)
    requires multiset(atCoordinator) == multiset(Joined(perMachine)) && IsTop(final, atCoordinator, TOP)
    ensures IsTop(final, Joined(AllPages(pages)), TOP)
  {
    hide IsTop, Joined;
    var all := AllPages(pages);
    forall m | 0 <= m < |pages| ensures IsTop(perMachine[m], all[m], TOP) {
      TopOfTops(perMachine[m], onMachine[m], fromChunks[m], pages[m], TOP);
    }
    TopOfTops(final, atCoordinator, perMachine, all, TOP);
  }

  function AllPages(pages: seq<seq<seq<Page>>>): (r: seq<seq<Page>>)
    ensures |r| == |pages| && forall m | 0 <= m < |r| :: r[m] == Joined(pages[m])
  {
    seq(|pages|, m requires 0 <= m < |pages| => Joined(pages[m]))
  }
}
