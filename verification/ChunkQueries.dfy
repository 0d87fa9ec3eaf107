/**
  The two other entry points of a chunk (index_chunk/chunk_manager.h): default_query,
  a leapfrog AND over words, and phrase_query.  Wherever the deadline cuts in, what
  was found is a prefix of the full answer.
*/
module ChunkQueries {
  import opened Bytes
  import opened Postings
  import opened Positions
  import opened StreamReader
  import opened LoadedChunk
  import opened TreeBuilder
  import opened ChunkManager
  import B = IsrBuild
  import C = ChunkIndex
  import P = Postings
  import R = PhraseReaders
  import Walk = PhraseRun
  import W = PhraseWalk

  // ---------------------------------------------------------------- the intersection

  ghost predicate HasDoc(posts: seq<Post>, doc: nat) {
    exists k :: 0 <= k < |posts| && posts[k].doc == doc
  }

  /** Every word occurs in `doc`. */
  ghost predicate Common(index: B.Index, words: seq<Text>, doc: nat) {
    forall i | 0 <= i < |words| :: HasDoc(B.ListOf(index, words[i]).posts, doc)
  }

  /** The documents 1..n in which every word occurs, ascending. */
  ghost function CommonUpTo(index: B.Index, words: seq<Text>, n: nat): seq<nat> {
    if n == 0 then []
    else CommonUpTo(index, words, n - 1) + if Common(index, words, n) then [n] else []
  }

  function LastDoc(posts: seq<Post>): nat {
    if posts == [] then 0 else posts[|posts| - 1].doc
  }

  /** The whole intersection; no document lies after the last of the first word. */
  ghost function Intersection(index: B.Index, words: seq<Text>): seq<nat>
    requires |words| > 0
  {
    CommonUpTo(index, words, LastDoc(B.ListOf(index, words[0]).posts))
  }

  lemma {:induction false} CommonUpToExact(index: B.Index, words: seq<Text>, n: nat)
    ensures var docs := CommonUpTo(index, words, n);
            && (forall i, j | 0 <= i < j < |docs| :: docs[i] < docs[j])
            && forall d: nat :: d in docs <==> 1 <= d <= n && Common(index, words, d)
  {
    hide Common;
    if n > 0 {
      CommonUpToExact(index, words, n - 1);
      var before := CommonUpTo(index, words, n - 1);
      forall d: nat ensures d in CommonUpTo(index, words, n) <==> d in before || (d == n && Common(index, words, n)) {
      }
      assert forall i | 0 <= i < |before| :: before[i] in before;
    }
  }

  /** The intersection is what it says, in ascending order and complete. */
  lemma IntersectionExact(index: B.Index, words: seq<Text>)
    requires B.ValidIndex(index) && |words| > 0
    ensures var docs := Intersection(index, words);
            && (forall i, j | 0 <= i < j < |docs| :: docs[i] < docs[j])
            && forall d: nat :: d in docs <==> Common(index, words, d)
  {
    hide Common;
    var last := LastDoc(B.ListOf(index, words[0]).posts);
    CommonUpToExact(index, words, last);
    forall d: nat ensures d in Intersection(index, words) <==> Common(index, words, d) {
      if Common(index, words, d) { CommonInRange(index, words, d); }
    }
  }

  lemma DocInRange(posts: seq<Post>, d: nat)
    requires Ascending(posts) && HasDoc(posts, d)
    ensures 1 <= d <= LastDoc(posts)
  {
    var k :| 0 <= k < |posts| && posts[k].doc == d;
    assert k < |posts| - 1 ==> Before(posts[k], posts[|posts| - 1]);
  }

  lemma {:induction false} NoneBetween(index: B.Index, words: seq<Text>, n: nat, m: nat)
    requires n <= m && forall d | n < d <= m :: !Common(index, words, d)
    ensures CommonUpTo(index, words, m) == CommonUpTo(index, words, n)
    decreases m - n
  {
    hide Common;
    if n < m { NoneBetween(index, words, n, m - 1); }
  }

  lemma {:induction false} PrefixGrows(index: B.Index, words: seq<Text>, n: nat, m: nat)
    requires n <= m
    ensures CommonUpTo(index, words, n) <= CommonUpTo(index, words, m)
    decreases m - n
  {
    hide Common;
    if n < m { PrefixGrows(index, words, n, m - 1); }
  }

  /** What was found below `target` is a prefix of the intersection, and all of it when nothing is left. */
  lemma FoundSoFar(index: B.Index, words: seq<Text>, target: nat)
    requires B.ValidIndex(index) && |words| > 0 && 0 < target
    ensures CommonUpTo(index, words, target - 1) <= Intersection(index, words)
    ensures (forall d: nat | target <= d :: !Common(index, words, d)) ==>
              CommonUpTo(index, words, target - 1) == Intersection(index, words)
  {
    hide CommonUpTo, Common;
    var last := LastDoc(B.ListOf(index, words[0]).posts);
    forall d: nat | last < d ensures !Common(index, words, d) {
      if Common(index, words, d) { CommonInRange(index, words, d); }
    }
    if target - 1 <= last {
      PrefixGrows(index, words, target - 1, last);
      if forall d: nat | target <= d :: !Common(index, words, d) { NoneBetween(index, words, target - 1, last); }
    } else {
      NoneBetween(index, words, last, target - 1);
    }
  }

  lemma CommonInRange(index: B.Index, words: seq<Text>, d: nat)
    requires B.ValidIndex(index) && |words| > 0 && Common(index, words, d)
    ensures 1 <= d <= LastDoc(B.ListOf(index, words[0]).posts)
  {
    DocInRange(B.ListOf(index, words[0]).posts, d);
  }

  // ---------------------------------------------------------------- the rarest word first

  predicate RarerThan(counts: seq<nat>, a: nat, b: nat)
    requires a < |counts| && b < |counts|
  {
    counts[a] < counts[b] || (counts[a] == counts[b] && a < b)
  }

  /** A permutation of the words by document count; equal counts keep their order. */
  ghost predicate RarestFirst(order: seq<nat>, counts: seq<nat>) {
    && |order| == |counts|
    && (forall i | 0 <= i < |order| :: order[i] < |counts|)
    && (forall i, j | 0 <= i < j < |order| :: RarerThan(counts, order[i], order[j]))
    && forall k | 0 <= k < |counts| :: k in order
  }

  /** The first i places hold 0..i-1 in rarest-first order, the rest is untouched. */
  ghost predicate SortedUpTo(order: seq<nat>, counts: seq<nat>, i: nat) {
    && |order| == |counts| && i <= |order|
    && (forall a | 0 <= a < i :: order[a] < i)
    && (forall a | i <= a < |order| :: order[a] == a)
    && (forall a, b | 0 <= a < b < i :: RarerThan(counts, order[a], order[b]))
  }

  /** The insertion sort of default_query. */
  method OrderByCount(counts: seq<nat>) returns (order: seq<nat>)
    ensures RarestFirst(order, counts)
    ensures |order| == |counts| && multiset(order) == multiset(seq(|counts|, i requires 0 <= i < |counts| => i))
    ensures forall i, j | 0 <= i < j < |order| :: order[i] < |counts| && order[j] < |counts| && counts[order[i]] <= counts[order[j]]
    ensures forall i, j | 0 <= i < j < |order| :: counts[order[i]] == counts[order[j]] ==> order[i] < order[j]
  {
    hide RarerThan;
    var n := |counts|;
    order := seq(n, i requires 0 <= i < n => i);
    ghost var all := order;
    var i := 1;
    while i < n
      invariant n > 0 ==> 1 <= i <= n
      invariant SortedUpTo(order, counts, if n == 0 then 0 else i) && multiset(order) == multiset(all)
    {
      order := InsertOne(order, counts, i);
      i := i + 1;
    }
    forall k | 0 <= k < n ensures k in order {
      assert all[k] == k && k in multiset(all);
      assert k in multiset(order);
    }
    CountsClimb(order, counts);
  }

  lemma CountsClimb(order: seq<nat>, counts: seq<nat>)
    requires RarestFirst(order, counts)
    ensures forall i, j | 0 <= i < j < |order| :: order[i] < |counts| && order[j] < |counts| && counts[order[i]] <= counts[order[j]]
    ensures forall i, j | 0 <= i < j < |order| :: counts[order[i]] == counts[order[j]] ==> order[i] < order[j]
  {
  }

  /** The inner loop's view: places 0..i but the hole at j are in order, and after the hole counts exceed k's. */
  ghost predicate WithHole(order: seq<nat>, counts: seq<nat>, i: nat, j: nat, k: nat) {
    && |order| == |counts| && j <= i < |order| && k < |counts|
    && (forall a | 0 <= a <= i && a != j :: order[a] < i)
    && (forall a | i < a < |order| :: order[a] == a)
    && (forall a, b | 0 <= a < b <= i && a != j && b != j :: RarerThan(counts, order[a], order[b]))
    && (forall a | j < a <= i :: counts[k] < counts[order[a]])
  }

  lemma HoleMoves(order: seq<nat>, counts: seq<nat>, i: nat, j: nat, k: nat)
    requires WithHole(order, counts, i, j, k) && 0 < j && order[j - 1] < |counts| && counts[order[j - 1]] > counts[k]
    ensures WithHole(order[j := order[j - 1]], counts, i, j - 1, k)
    ensures j > 1 ==> order[j - 2] < |counts|
  {
  }

  lemma HoleFilled(order: seq<nat>, counts: seq<nat>, i: nat, j: nat)
    requires WithHole(order, counts, i, j, i) && (j > 0 ==> order[j - 1] < |counts| && counts[order[j - 1]] <= counts[i])
    ensures SortedUpTo(order[j := i], counts, i + 1)
  {
    forall a | 0 <= a < j ensures RarerThan(counts, order[a], i) {
      assert a < j - 1 ==> RarerThan(counts, order[a], order[j - 1]);
    }
  }

  /** The inner loop: larger counts move up by one, and word i drops into the hole. */
  method InsertOne(before: seq<nat>, counts: seq<nat>, i: nat) returns (order: seq<nat>)
    requires i < |counts| && SortedUpTo(before, counts, i)
    ensures SortedUpTo(order, counts, i + 1) && multiset(order) == multiset(before)
  {
    hide RarerThan, WithHole, SortedUpTo;
    order := before;
    HoleStarts(before, counts, i);
    var k := order[i];
    var j := i;
    assert order[i := k] == order;
    while j > 0 && counts[order[j - 1]] > counts[k]
      invariant WithHole(order, counts, i, j, i) && k == i && j <= i < |order|
      invariant j > 0 ==> order[j - 1] < |counts|
      invariant multiset(order[j := k]) == multiset(before)
    {
      ShiftKeeps(order, j, k);
      HoleMoves(order, counts, i, j, k);
      order := order[j := order[j - 1]];
      j := j - 1;
    }
    HoleFilled(order, counts, i, j);
    order := order[j := k];
  }

  lemma HoleStarts(before: seq<nat>, counts: seq<nat>, i: nat)
    requires i < |counts| && SortedUpTo(before, counts, i)
    ensures |before| == |counts| && before[i] == i && WithHole(before, counts, i, i, i)
    ensures i > 0 ==> before[i - 1] < |counts|
  {
    hide RarerThan;
  }

  lemma ShiftKeeps(order: seq<nat>, j: nat, k: nat)
    requires 0 < j < |order|
    ensures multiset(order[j := order[j - 1]][j - 1 := k]) == multiset(order[j := k])
  {
    var s := order[j := k];
    assert order[j := order[j - 1]][j - 1 := k] == s[j := s[j - 1]][j - 1 := s[j]];
  }

  // ---------------------------------------------------------------- default_query

  /** The reader stands at the first post of `doc`, nothing pending. */
  ghost predicate Standing(r: IndexStreamReader, list: B.PostingList, doc: nat)
    reads r
  {
    PoisedReader(r, list, doc) && 0 < doc && !r.hasPending && r.Cursor().Here().doc == doc
  }

  lemma StandingIsThere(r: IndexStreamReader, list: B.PostingList, doc: nat)
    requires Standing(r, list, doc)
    ensures HasDoc(list.posts, doc) && Ascending(list.posts)
  {
    var c := r.Cursor();
    assert c.posts[c.taken - 1].doc == doc;
  }

  /** advance_to on one reader. */
  method Seek(r: IndexStreamReader, doc: nat, ghost list: B.PostingList) returns (p: Post)
    requires PoisedReader(r, list, doc) && 0 < doc
    modifies r
    ensures p.doc == 0 ==> forall d | doc <= d :: !HasDoc(list.posts, d)
    ensures p.doc != 0 ==> doc <= p.doc && Standing(r, list, p.doc) && forall d | doc <= d < p.doc :: !HasDoc(list.posts, d)
  {
    hide Ascending, AdvanceTo;
    SeekIsExact(r.Cursor(), doc);
    SeekFacts(r.Cursor(), doc);
    p := r.AdvanceTo(doc);
    if p.doc != 0 { PoisedLater(r.Cursor(), doc, p.doc); }
  }

  lemma SeekFacts(c: Cursor, doc: nat)
    requires c.Valid() && 0 < doc
    ensures var (c', p) := AdvanceTo(c, doc);
            && c'.Valid() && c'.posts == c.posts && c'.nDocs == c.nDocs && !c'.pending
            && (p.doc == 0 <==> p == NO_POST)
  {
    hide P.Walk;
  }

  /** The first step of the driver. */
  method First(r: IndexStreamReader, ghost list: B.PostingList) returns (p: Post)
    requires PoisedReader(r, list, 0) && r.Cursor() == Fresh(list.posts, list.nDocs)
    modifies r
    ensures p.doc == 0 ==> forall d :: !HasDoc(list.posts, d)
    ensures p.doc != 0 ==> Standing(r, list, p.doc) && forall d: nat | d < p.doc :: !HasDoc(list.posts, d)
  {
    p := r.Advance();
    ghost var posts := list.posts;
    assert forall k | 0 <= k < |posts| :: k > 0 ==> Before(posts[0], posts[k]);
  }

  /** collect_positions_in_current_doc on a reader that stands at the document. */
  method CollectHere(r: IndexStreamReader, doc: nat, ghost list: B.PostingList) returns (info: NodeInfo)
    requires Standing(r, list, doc)
    modifies r
    ensures PoisedReader(r, list, doc + 1)
    ensures info == NodeInfo(r.word, Locations(list.posts, doc), 0)
  {
    hide Ascending, P.Collect, Locations, Poised, IndexStreamReader.Valid;
    StandsExact(r.Cursor(), doc);
    var positions := r.Collect([]);
    info := NodeInfo(r.word, positions, 0);
  }

  lemma StandsExact(c: Cursor, doc: nat)
    requires Poised(c, doc) && 0 < doc && !c.pending && c.Here().doc == doc
    ensures var (c', positions) := Collect(c); positions == Locations(c.posts, doc) && Poised(c', doc + 1)
  {
    assert AdvanceTo(c, doc) == (c, c.Here());
    CollectIsExact(c, doc);
  }

  /** The other readers follow the driver: all stand at the target, or one gives a later target, or one runs out. */
  method SeekOthers(rs: seq<IndexStreamReader>, target: nat, ghost index: B.Index, ghost words: seq<Text>)
    returns (next: nat, ranOut: bool)
    requires PoisedReaders(rs, index, words, target) && |rs| > 0 && 0 < target
    modifies rs[1..]
    ensures ranOut ==> forall d | target <= d :: !Common(index, words, d)
    ensures !ranOut ==> target <= next && forall d | target <= d < next :: !Common(index, words, d)
    ensures !ranOut ==> forall i | 1 <= i < |rs| :: PoisedReader(rs[i], B.ListOf(index, words[i]), next)
    ensures !ranOut && next == target ==> forall i | 1 <= i < |rs| :: Standing(rs[i], B.ListOf(index, words[i]), target)
  {
    hide PoisedReader, Standing, HasDoc;
    for i := 1 to |rs|
      invariant forall k | 1 <= k < i :: Standing(rs[k], B.ListOf(index, words[k]), target)
      invariant forall k | i <= k < |rs| :: PoisedReader(rs[k], B.ListOf(index, words[k]), target)
    {
      assert rs[i] in rs[1..];
      var q := Seek(rs[i], target, B.ListOf(index, words[i]));
      if q.doc == 0 {
        return 0, true;
      }
      if q.doc > target {
        forall k | 1 <= k < |rs| ensures PoisedReader(rs[k], B.ListOf(index, words[k]), q.doc) {
          if k <= i { StandingPoised(rs[k], B.ListOf(index, words[k]), if k == i then q.doc else target); }
          ReaderPoisedLater(rs[k], B.ListOf(index, words[k]), if k == i then q.doc else target, q.doc);
        }
        return q.doc, false;
      }
    }
    forall k | 1 <= k < |rs| ensures PoisedReader(rs[k], B.ListOf(index, words[k]), target) {
      StandingPoised(rs[k], B.ListOf(index, words[k]), target);
    }
    return target, false;
  }

  lemma StandingPoised(r: IndexStreamReader, list: B.PostingList, doc: nat)
    requires Standing(r, list, doc)
    ensures PoisedReader(r, list, doc)
  {
  }

  /** What a leapfrog hit carries. */
  function LeapHit(urls: seq<Text>, index: B.Index, words: seq<Text>, doc: nat): DocInfo {
    DocInfo(UrlOf(urls, doc), LeapInfos(index, words, doc))
  }

  function LeapInfos(index: B.Index, words: seq<Text>, doc: nat): (r: seq<NodeInfo>)
    ensures |r| == |words|
    ensures forall i | 0 <= i < |r| :: r[i] == NodeInfo(words[i], Locations(B.ListOf(index, words[i]).posts, doc), 0)
  {
    seq(|words|, i requires 0 <= i < |words| => NodeInfo(words[i], Locations(B.ListOf(index, words[i]).posts, doc), 0))
  }

  /** All words match: collect each one's positions. */
  method CollectAll(rs: seq<IndexStreamReader>, doc: nat, ghost index: B.Index, ghost words: seq<Text>)
    returns (infos: seq<NodeInfo>)
    requires PoisedReaders(rs, index, words, doc)
    requires forall i | 0 <= i < |rs| :: Standing(rs[i], B.ListOf(index, words[i]), doc)
    modifies rs
    ensures PoisedReaders(rs, index, words, doc + 1) && infos == LeapInfos(index, words, doc)
  {
    hide PoisedReader, Standing, Locations;
    infos := [];
    for i := 0 to |rs|
      invariant |infos| == i && forall k | 0 <= k < i :: infos[k] == LeapInfos(index, words, doc)[k]
      invariant forall k | 0 <= k < i :: PoisedReader(rs[k], B.ListOf(index, words[k]), doc + 1)
      invariant forall k | i <= k < |rs| :: Standing(rs[k], B.ListOf(index, words[k]), doc)
    {
      var info := CollectHere(rs[i], doc, B.ListOf(index, words[i]));
      infos := infos + [info];
    }
  }

  /** The hits are those of the documents `docs`, in order. */
  ghost predicate HitsOf(hits: seq<DocInfo>, urls: seq<Text>, index: B.Index, words: seq<Text>, docs: seq<nat>) {
    |hits| == |docs| && forall i | 0 <= i < |hits| :: hits[i] == LeapHit(urls, index, words, docs[i])
  }

  /**
    A prefix of the whole intersection; the whole of it unless a deadline is set.  In each
    round before the deadline the loop gets past a document and reports at most one, so
    after n rounds at most n are reported, and all that are numbered n or less.
  */
  ghost predicate LeapAnswer(hits: seq<DocInfo>, urls: seq<Text>, index: B.Index, words: seq<Text>, deadline: Deadline)
    requires |words| > 0
  {
    exists docs :: HitsOf(hits, urls, index, words, docs) && docs <= Intersection(index, words)
                   && (deadline.Never? ==> docs == Intersection(index, words))
                   && (deadline.After? ==> |docs| <= deadline.checks && CommonUpTo(index, words, deadline.checks) <= docs)
  }

  /** The leapfrog loop, over readers in rarest-first order. */
  method Leapfrog(rs: seq<IndexStreamReader>, first: nat, li: LoadedIndex, deadline: Deadline,
      ghost index: B.Index, words: seq<Text>) returns (hits: seq<DocInfo>)
    requires B.ValidIndex(index) && |words| > 0 && 0 < first
    requires PoisedReaders(rs, index, words, first) && Standing(rs[0], B.ListOf(index, words[0]), first)
    requires forall d: nat | d < first :: !Common(index, words, d)
    modifies rs
    ensures LeapAnswer(hits, old(li.urls), index, words, deadline)
  {
    hide PoisedReader, Standing, Common, LeapHit, Intersection, HitsOf, CommonUpTo, B.ValidIndex, LeapAnswer;
    var target := first;
    var checks := 0;
    ghost var docs := CommonUpTo(index, words, target - 1);
    NoneBelow(index, words, target - 1);
    NoHits(li.urls, index, words);
    hits := [];
    while true
      invariant 0 < target && li.urls == old(li.urls)
      invariant PoisedReaders(rs, index, words, target) && Standing(rs[0], B.ListOf(index, words[0]), target)
      invariant docs == CommonUpTo(index, words, target - 1) && HitsOf(hits, li.urls, index, words, docs)
      invariant checks < target && |docs| <= checks && (deadline.After? ==> checks <= deadline.checks)
      decreases LastDoc(B.ListOf(index, words[0]).posts) - target
    {
      FoundSoFar(index, words, target);
      UpToIsPrefix(index, words, if deadline.After? then deadline.checks else 0);
      if Fires(deadline, checks) {
        PrefixGrows(index, words, checks, target - 1);
        CutShort(hits, li.urls, index, words, deadline, docs);
        return;
      }
      checks := checks + 1;
      StandingPoised(rs[0], B.ListOf(index, words[0]), target);
      DriverInRange(rs[0], B.ListOf(index, words[0]), target);
      var next, ranOut := SeekOthers(rs, target, index, words);
      if ranOut {
        CutShort(hits, li.urls, index, words, deadline, docs);
        return;
      }
      if next == target {
        AllStandIsCommon(rs, index, words, target);
        var infos := CollectAll(rs, target, index, words);
        hits := hits + [DocInfo(GetUrl(li, target), infos)];
        OneHitMore(hits, li.urls, index, words, target, infos);
        next := target + 1;
        AtMostOneMore(index, words, target);
        docs := CommonUpTo(index, words, target);
      } else {
        NoneBetween(index, words, target - 1, next - 1);
        ReaderPoisedLater(rs[0], B.ListOf(index, words[0]), target, next);
      }
      target := next;
      FoundSoFar(index, words, target);
      var p := Seek(rs[0], next, B.ListOf(index, words[0]));
      DriverSkips(index, words, next, p.doc);
      if p.doc == 0 {
        CutShort(hits, li.urls, index, words, deadline, docs);
        return;
      }
      AllPoisedLater(rs, index, words, next, p.doc);
      NoneBetween(index, words, next - 1, p.doc - 1);
      target := p.doc;
      DriverInRange(rs[0], B.ListOf(index, words[0]), target);
    }
  }

  lemma {:induction false} NoneBelow(index: B.Index, words: seq<Text>, n: nat)
    requires forall d: nat | d <= n :: !Common(index, words, d)
    ensures CommonUpTo(index, words, n) == []
  {
    hide Common;
    NoneBetween(index, words, 0, n);
  }

  lemma NoHits(urls: seq<Text>, index: B.Index, words: seq<Text>)
    ensures HitsOf([], urls, index, words, [])
  {
  }

  lemma CutShort(hits: seq<DocInfo>, urls: seq<Text>, index: B.Index, words: seq<Text>, deadline: Deadline, docs: seq<nat>)
    requires |words| > 0 && HitsOf(hits, urls, index, words, docs) && docs <= Intersection(index, words)
    requires deadline.Never? ==> docs == Intersection(index, words)
    requires deadline.After? ==> |docs| <= deadline.checks && CommonUpTo(index, words, deadline.checks) <= docs
    ensures LeapAnswer(hits, urls, index, words, deadline)
  {
    hide HitsOf, Intersection, CommonUpTo;
  }

  lemma AtMostOneMore(index: B.Index, words: seq<Text>, n: nat)
    requires 0 < n
    ensures |CommonUpTo(index, words, n)| <= |CommonUpTo(index, words, n - 1)| + 1
  {
    hide Common;
  }

  /** The common documents up to any number come first in the intersection. */
  lemma UpToIsPrefix(index: B.Index, words: seq<Text>, n: nat)
    requires B.ValidIndex(index) && |words| > 0
    ensures CommonUpTo(index, words, n) <= Intersection(index, words)
  {
    hide Common, B.ValidIndex;
    FoundSoFar(index, words, n + 1);
  }

  /** The driver stands in its list, so targets never pass the last document. */
  lemma DriverInRange(r: IndexStreamReader, list: B.PostingList, doc: nat)
    requires Standing(r, list, doc)
    ensures doc <= LastDoc(list.posts)
  {
    hide PoisedReader, Standing;
    StandingIsThere(r, list, doc);
    DocInRange(list.posts, doc);
  }

  lemma OneHitMore(hits: seq<DocInfo>, urls: seq<Text>, index: B.Index, words: seq<Text>, target: nat, infos: seq<NodeInfo>)
    requires |hits| > 0 && 0 < target
    requires HitsOf(hits[..|hits| - 1], urls, index, words, CommonUpTo(index, words, target - 1))
    requires hits[|hits| - 1] == DocInfo(UrlOf(urls, target), infos) && infos == LeapInfos(index, words, target)
    requires Common(index, words, target)
    ensures HitsOf(hits, urls, index, words, CommonUpTo(index, words, target))
  {
    hide Common, LeapInfos, UrlOf;
  }

  lemma AllStandIsCommon(rs: seq<IndexStreamReader>, index: B.Index, words: seq<Text>, doc: nat)
    requires |rs| == |words| && forall i | 0 <= i < |rs| :: Standing(rs[i], B.ListOf(index, words[i]), doc)
    ensures Common(index, words, doc)
  {
    hide Standing, HasDoc;
    forall i | 0 <= i < |words| ensures HasDoc(B.ListOf(index, words[i]).posts, doc) {
      StandingIsThere(rs[i], B.ListOf(index, words[i]), doc);
    }
  }

  lemma DriverSkips(index: B.Index, words: seq<Text>, from: nat, to: nat)
    requires |words| > 0
    ensures var posts := B.ListOf(index, words[0]).posts;
            && ((forall d | from <= d :: !HasDoc(posts, d)) ==> forall d | from <= d :: !Common(index, words, d))
            && ((forall d | from <= d < to :: !HasDoc(posts, d)) ==> forall d | from <= d < to :: !Common(index, words, d))
  {
    hide HasDoc;
  }

  lemma AllPoisedLater(rs: seq<IndexStreamReader>, index: B.Index, words: seq<Text>, from: nat, to: nat)
    requires |rs| == |words| > 0 && from <= to
    requires forall i, j | 0 <= i < j < |rs| :: rs[i] != rs[j]
    requires forall i | 0 <= i < |rs| :: rs[i].word == words[i]
    requires Standing(rs[0], B.ListOf(index, words[0]), to)
    requires forall i | 1 <= i < |rs| :: PoisedReader(rs[i], B.ListOf(index, words[i]), from)
    ensures PoisedReaders(rs, index, words, to)
  {
    hide PoisedReader, Standing;
    forall i | 0 <= i < |rs| ensures PoisedReader(rs[i], B.ListOf(index, words[i]), to) {
      if i == 0 {
        StandingPoised(rs[i], B.ListOf(index, words[i]), to);
      } else {
        ReaderPoisedLater(rs[i], B.ListOf(index, words[i]), from, to);
      }
    }
  }

  function Arrange<X>(s: seq<X>, order: seq<nat>): (r: seq<X>)
    requires forall i | 0 <= i < |order| :: order[i] < |s|
    ensures |r| == |order| && forall i | 0 <= i < |r| :: r[i] == s[order[i]]
  {
    seq(|order|, i requires 0 <= i < |order| => s[order[i]])
  }

  /** The document counts the readers show. */
  function CountsOf(index: B.Index, words: seq<Text>): (r: seq<nat>)
    ensures |r| == |words| && forall i | 0 <= i < |r| :: r[i] == B.ListOf(index, words[i]).nDocs
  {
    seq(|words|, i requires 0 <= i < |words| => B.ListOf(index, words[i]).nDocs)
  }

  /** The order of the words does not change the intersection. */
  lemma ArrangedIntersection(index: B.Index, words: seq<Text>, order: seq<nat>)
    requires B.ValidIndex(index) && |words| > 0 && RarestFirst(order, CountsOf(index, words))
    ensures forall d: nat :: Common(index, Arrange(words, order), d) <==> Common(index, words, d)
    ensures Intersection(index, Arrange(words, order)) == Intersection(index, words)
  {
    hide HasDoc, B.ValidIndex, CommonUpTo;
    var ws := Arrange(words, order);
    forall d: nat ensures Common(index, ws, d) <==> Common(index, words, d) {
      if Common(index, ws, d) {
        forall k | 0 <= k < |words| ensures HasDoc(B.ListOf(index, words[k]).posts, d) {
          assert k in order;
          var i :| 0 <= i < |order| && order[i] == k;
          assert ws[i] == words[k];
        }
      }
    }
    IntersectionExact(index, ws);
    IntersectionExact(index, words);
    SameDocs(Intersection(index, ws), Intersection(index, words));
  }

  lemma {:induction false} SameDocs(a: seq<nat>, b: seq<nat>)
    requires forall i, j | 0 <= i < j < |a| :: a[i] < a[j]
    requires forall i, j | 0 <= i < j < |b| :: b[i] < b[j]
    requires forall d: nat :: d in a <==> d in b
    ensures a == b
  {
    NonEmptyToo(a, b);
    NonEmptyToo(b, a);
    if a != [] {
      var x, y := a[|a| - 1], b[|b| - 1];
      assert x in b && y in a;
      assert x == y;
      var a', b' := a[..|a| - 1], b[..|b| - 1];
      forall d: nat ensures d in a' <==> d in b' {
        assert d in a <==> d in a' || d == x;
        assert d in b <==> d in b' || d == x;
      }
      SameDocs(a', b');
    }
  }

  lemma NonEmptyToo(a: seq<nat>, b: seq<nat>)
    requires forall d: nat :: d in a ==> d in b
    ensures a != [] ==> b != []
  {
    if a != [] { assert a[0] in b; }
  }

  lemma EmptyListNoCommon(index: B.Index, words: seq<Text>, k: nat, deadline: Deadline)
    requires B.ValidIndex(index) && k < |words| && forall d: nat :: !HasDoc(B.ListOf(index, words[k]).posts, d)
    ensures forall urls, hits :: hits == [] ==> LeapAnswer(hits, urls, index, words, deadline)
  {
    hide HasDoc;
    forall d: nat ensures !Common(index, words, d) {
      assert !HasDoc(B.ListOf(index, words[k]).posts, d);
    }
    NoneBelow(index, words, LastDoc(B.ListOf(index, words[0]).posts));
    UpToIsPrefix(index, words, if deadline.After? then deadline.checks else 0);
    forall urls, hits: seq<DocInfo> | hits == [] ensures LeapAnswer(hits, urls, index, words, deadline) {
      NoHits(urls, index, words);
      CutShort(hits, urls, index, words, deadline, []);
    }
  }

  /** A reader that has just been opened. */
  ghost predicate FreshReader(r: IndexStreamReader, word: Text, list: B.PostingList)
    reads r
  {
    r.word == word && r.Valid() && r.Cursor() == Fresh(list.posts, list.nDocs)
  }

  ghost predicate FreshReaders(rs: seq<IndexStreamReader>, index: B.Index, words: seq<Text>)
    reads rs
  {
    && |rs| == |words|
    && (forall i, j | 0 <= i < j < |rs| :: rs[i] != rs[j])
    && forall i | 0 <= i < |rs| :: FreshReader(rs[i], words[i], B.ListOf(index, words[i]))
  }

  lemma OpenedAreFresh(rs: seq<IndexStreamReader>, index: B.Index, words: seq<Text>)
    requires |rs| == |words| && forall i | 0 <= i < |rs| :: rs[i].word == words[i]
    requires R.ValidReaders(rs) && R.Cursors(rs) == B.OpenAll(index, words)
    ensures FreshReaders(rs, index, words)
  {
    hide Ascending, IndexStreamReader.Valid;
    forall i | 0 <= i < |rs| ensures FreshReader(rs[i], words[i], B.ListOf(index, words[i])) {
      assert rs[i].Cursor() == R.Cursors(rs)[i] == B.Open(index, words[i]);
    }
  }

  lemma FreshReaderFacts(r: IndexStreamReader, word: Text, list: B.PostingList)
    requires FreshReader(r, word, list)
    ensures r.word == word && r.nDocs == list.nDocs && (r.nPosts == 0 ==> forall d: nat :: !HasDoc(list.posts, d))
    ensures PoisedReader(r, list, 0)
  {
  }

  lemma ArrangeFresh(rs: seq<IndexStreamReader>, index: B.Index, words: seq<Text>, order: seq<nat>, counts: seq<nat>)
    requires FreshReaders(rs, index, words) && |counts| == |words| && RarestFirst(order, counts)
    ensures FreshReaders(Arrange(rs, order), index, Arrange(words, order))
  {
    hide FreshReader;
    forall i, j | 0 <= i < j < |order| ensures rs[order[i]] != rs[order[j]] {
      assert RarerThan(counts, order[i], order[j]);
    }
  }

  /** The driver takes its first post, and the leapfrog starts. */
  method LeapFrom(rs: seq<IndexStreamReader>, li: LoadedIndex, deadline: Deadline, ghost index: B.Index, words: seq<Text>)
    returns (hits: seq<DocInfo>)
    requires B.ValidIndex(index) && |words| > 0 && FreshReaders(rs, index, words)
    modifies rs
    ensures LeapAnswer(hits, old(li.urls), index, words, deadline)
  {
    hide LeapAnswer, HasDoc, FreshReader, PoisedReader, Standing, B.ValidIndex;
    forall i | 0 <= i < |rs| { FreshReaderFacts(rs[i], words[i], B.ListOf(index, words[i])); }
    var p := StartDriver(rs[0], words[0], B.ListOf(index, words[0]));
    if p.doc == 0 {
      EmptyListNoCommon(index, words, 0, deadline);
      return [];
    }
    DriverSkips(index, words, 0, p.doc);
    AllPoisedLater(rs, index, words, 0, p.doc);
    hits := Leapfrog(rs, p.doc, li, deadline, index, words);
  }

  method StartDriver(r: IndexStreamReader, ghost word: Text, ghost list: B.PostingList) returns (p: Post)
    requires FreshReader(r, word, list)
    modifies r
    ensures p.doc == 0 ==> forall d: nat :: !HasDoc(list.posts, d)
    ensures p.doc != 0 ==> Standing(r, list, p.doc) && forall d: nat | d < p.doc :: !HasDoc(list.posts, d)
  {
    hide HasDoc, Standing, PoisedReader;
    FreshReaderFacts(r, word, list);
    p := First(r, list);
  }

  /** default_query: whatever the words and the deadline, a prefix of their intersection with exact positions. */
  method DefaultQuery(words: seq<Text>, li: LoadedIndex, deadline: Deadline, ghost index: B.Index)
    returns (hits: seq<DocInfo>, ghost order: seq<nat>)
    requires C.Serves(li, index)
    ensures |words| == 0 ==> hits == []
    ensures |words| > 0 ==> RarestFirst(order, CountsOf(index, words))
                            && LeapAnswer(hits, li.urls, index, Arrange(words, order), deadline)
  {
    hide C.Serves, LeapAnswer, R.ValidReaders, R.Cursors, B.OpenAll, HasDoc, RarerThan, FreshReader;
    if |words| == 0 { return [], []; }
    ServesValid(li, index);
    var rs := OpenReaders(li, words, index);
    OpenedAreFresh(rs, index, words);
    forall i | 0 <= i < |rs| { FreshReaderFacts(rs[i], words[i], B.ListOf(index, words[i])); }
    var counts := seq(|rs|, i requires 0 <= i < |rs| reads rs => rs[i].nDocs);
    assert counts == CountsOf(index, words);
    var ranks := OrderByCount(counts);
    order := ranks;
    for i := 0 to |rs| {
      if rs[i].nPosts == 0 {
        assert i in order;
        ghost var k :| 0 <= k < |order| && order[k] == i;
        EmptyListNoCommon(index, Arrange(words, order), k, deadline);
        return [], order;
      }
    }
    ArrangeFresh(rs, index, words, ranks, counts);
    hits := LeapFrom(Arrange(rs, ranks), li, deadline, index, Arrange(words, ranks));
  }

  /** Read off the answer: hit i is the i-th document in which all words occur, and without a deadline none is missing. */
  lemma DefaultAnswerExact(hits: seq<DocInfo>, urls: seq<Text>, index: B.Index, words: seq<Text>, order: seq<nat>, deadline: Deadline)
    requires B.ValidIndex(index) && |words| > 0 && RarestFirst(order, CountsOf(index, words))
    requires LeapAnswer(hits, urls, index, Arrange(words, order), deadline)
    ensures var docs := Intersection(index, words);
            && |hits| <= |docs| && (deadline.Never? ==> |hits| == |docs|)
            && (deadline.After? ==> |hits| <= deadline.checks && forall i | 0 <= i < |docs| && docs[i] <= deadline.checks :: i < |hits|)
            && forall i | 0 <= i < |hits| :: hits[i] == LeapHit(urls, index, Arrange(words, order), docs[i])
  {
    hide Intersection, LeapHit, CommonUpTo, Common;
    ArrangedIntersection(index, words, order);
    if deadline.After? { EarlyComeFirst(index, Arrange(words, order), deadline.checks); }
  }

  /** The common documents numbered n or less are the first of the intersection. */
  lemma EarlyComeFirst(index: B.Index, words: seq<Text>, n: nat)
    requires B.ValidIndex(index) && |words| > 0
    ensures var docs := Intersection(index, words);
            forall i | 0 <= i < |docs| && docs[i] <= n :: i < |CommonUpTo(index, words, n)|
  {
    hide Common, CommonUpTo, Intersection, B.ValidIndex;
    var early, docs := CommonUpTo(index, words, n), Intersection(index, words);
    CommonUpToExact(index, words, n);
    IntersectionExact(index, words);
    UpToIsPrefix(index, words, n);
    forall i | 0 <= i < |docs| && docs[i] <= n ensures i < |early| {
      assert docs[i] in docs;
      CommonInRange(index, words, docs[i]);
      assert docs[i] in early;
      var j :| 0 <= j < |early| && early[j] == docs[i];
      assert docs[j] == docs[i];
    }
  }

  // ---------------------------------------------------------------- phrase_query

  /** The opened streams after the first step, and the first anchor. */
  ghost function Started(index: B.Index, words: seq<Text>): (r: (W.Streams, Post))
    requires B.ValidIndex(index) && |words| > 0
    ensures |r.0| > 0 && W.ValidStreams(r.0)
  {
    var ss := B.OpenAll(index, words);
    (ss[0 := Advance(ss[0]).0], Advance(ss[0]).1)
  }

  /** Each place the walk reports, from the start of a chunk. */
  ghost function Places(index: B.Index, words: seq<Text>): seq<Post>
    requires B.ValidIndex(index) && |words| > 0
  {
    var (ss, ground) := Started(index, words);
    if ground.doc == 0 then [] else Walk.Run(ss, ground)
  }

  /** The documents with the phrase, ascending, once each, each with the phrase's first place in it. */
  lemma PlacesExact(index: B.Index, words: seq<Text>)
    requires B.ValidIndex(index) && |words| > 0
    ensures var places := Places(index, words);
            && (forall i, j | 0 <= i < j < |places| :: places[i].doc < places[j].doc)
            && (forall h | h in places ::
                  B.StandAt(index, words, h.doc, h.loc)
                  && forall pos: nat | pos < h.loc :: !B.StandAt(index, words, h.doc, pos))
            && (forall doc: nat, pos: nat | B.StandAt(index, words, doc, pos) :: exists h :: h in places && h.doc == doc)
  {
    hide B.ValidIndex, Walk.Step, W.Ready, W.HitAt, B.StandAt, Started;
    var (ss, ground) := Started(index, words);
    FirstAnchor(index, words);
    forall doc: nat, pos: nat ensures W.HitAt(ss, doc, pos) <==> B.StandAt(index, words, doc, pos) {
      OpenedHits(index, words, doc, pos);
    }
    if ground.doc != 0 {
      Walk.RunExact(ss, ground);
      RunPlaces(ss, ground, Walk.Run(ss, ground), index, words);
    }
  }

  lemma RunPlaces(ss: W.Streams, ground: Post, places: seq<Post>, index: B.Index, words: seq<Text>)
    requires Walk.FindsFrom(ss, ground, places)
    requires forall doc: nat, pos: nat :: W.HitAt(ss, doc, pos) <==> B.StandAt(index, words, doc, pos)
    requires forall doc: nat, pos: nat | W.HitAt(ss, doc, pos) :: AtOrBefore(ground, Post(doc, pos))
    ensures forall h | h in places ::
              B.StandAt(index, words, h.doc, h.loc) && forall pos: nat | pos < h.loc :: !B.StandAt(index, words, h.doc, pos)
    ensures forall doc: nat, pos: nat | B.StandAt(index, words, doc, pos) :: exists h :: h in places && h.doc == doc
  {
    hide W.HitAt, B.StandAt;
    forall h, pos: nat | h in places && pos < h.loc ensures !B.StandAt(index, words, h.doc, pos) {
      assert W.HitAt(ss, h.doc, pos) ==> AtOrBefore(ground, Post(h.doc, pos));
    }
    forall doc: nat, pos: nat | B.StandAt(index, words, doc, pos) ensures exists h :: h in places && h.doc == doc {
      assert W.HitAt(ss, doc, pos);
    }
  }

  lemma FirstAnchor(index: B.Index, words: seq<Text>)
    requires B.ValidIndex(index) && |words| > 0
    ensures Started(index, words).1.doc != 0 ==> Walk.Anchored(Started(index, words).0, Started(index, words).1)
    ensures forall doc: nat, pos: nat | W.HitAt(Started(index, words).0, doc, pos) ::
              Started(index, words).1.doc != 0 && AtOrBefore(Started(index, words).1, Post(doc, pos))
  {
    hide W.HitAt;
    var ss := B.OpenAll(index, words);
    var (tt, p) := Started(index, words);
    forall doc: nat, pos: nat | W.HitAt(tt, doc, pos)
      ensures p.doc != 0 && AtOrBefore(p, Post(doc, pos)) && W.AllUnpassed(tt, doc, pos)
    {
      FirstIsFirst(tt, doc, pos);
      RestUnmoved(ss, tt[0], doc, pos);
    }
  }

  lemma FirstIsFirst(tt: W.Streams, doc: nat, pos: nat)
    requires W.ValidStreams(tt) && W.HitAt(tt, doc, pos)
    ensures var posts := tt[0].posts; |posts| > 0 && 0 < posts[0].doc && AtOrBefore(posts[0], Post(doc, pos))
  {
    assert Post(doc, pos + 0) in tt[0].posts;
  }

  lemma RestUnmoved(ss: W.Streams, c: Cursor, doc: nat, pos: nat)
    requires |ss| > 0 && c.Valid() && W.ValidStreams(ss[0 := c]) && Unpassed(c, Post(doc, pos))
    requires forall i | 1 <= i < |ss| :: ss[i].taken == 0
    ensures W.AllUnpassed(ss[0 := c], doc, pos)
  {
  }

  lemma OpenedHits(index: B.Index, words: seq<Text>, doc: nat, pos: nat)
    requires B.ValidIndex(index) && |words| > 0
    ensures W.HitAt(Started(index, words).0, doc, pos) <==> B.StandAt(index, words, doc, pos)
  {
    hide B.ValidIndex;
    var tt := Started(index, words).0;
    assert forall i | 0 <= i < |tt| :: tt[i].posts == B.ListOf(index, words[i]).posts;
    if W.HitAt(tt, doc, pos) {
      forall i | 0 <= i < |words| ensures Post(doc, pos + i) in B.ListOf(index, words[i]).posts {
        assert Post(doc, pos + i) in tt[i].posts;
      }
    }
  }

  /** What a phrase hit carries: word i at the i-th location from the phrase's first place. */
  function PhraseHit(urls: seq<Text>, words: seq<Text>, h: Post): DocInfo {
    DocInfo(UrlOf(urls, h.doc), PhraseInfos(words, h.loc))
  }

  function PhraseInfos(words: seq<Text>, loc: nat): (r: seq<NodeInfo>)
    ensures |r| == |words| && forall i | 0 <= i < |r| :: r[i] == NodeInfo(words[i], [loc + i], 0)
  {
    seq(|words|, i requires 0 <= i < |words| => NodeInfo(words[i], [loc + i], 0))
  }

  /** How many places are found before the deadline: all, or those of so many rounds. */
  ghost function FoundBy(ss: W.Streams, ground: Post, deadline: Deadline): nat
    requires W.ValidStreams(ss) && |ss| > 0
  {
    if deadline.After? then Walk.HitsIn(ss, ground, deadline.checks)
    else if ground.doc == 0 then 0 else |Walk.Run(ss, ground)|
  }

  ghost function PlacesBy(index: B.Index, words: seq<Text>, deadline: Deadline): nat
    requires B.ValidIndex(index) && |words| > 0
  {
    FoundBy(Started(index, words).0, Started(index, words).1, deadline)
  }

  /**
    Without a deadline all places are reported.  In n rounds at most n are, and all that
    lie among the first n posts of the first word.
  */
  lemma PlacesByExact(index: B.Index, words: seq<Text>, deadline: Deadline)
    requires B.ValidIndex(index) && |words| > 0
    ensures var places, posts, m := Places(index, words), B.ListOf(index, words[0]).posts, PlacesBy(index, words, deadline);
            && m <= |places| && (deadline.Never? ==> m == |places|)
            && (deadline.After? ==>
                  m <= deadline.checks && forall k, j | m <= k < |places| && 0 <= j < |posts| && j < deadline.checks :: places[k] != posts[j])
  {
    hide B.ValidIndex, Walk.Step, W.Ready, W.HitAt, B.StandAt, Started, Walk.Run, Walk.HitsIn;
    var (ss, ground) := Started(index, words);
    FirstAnchor(index, words);
    StartedAtFirst(index, words);
    Walk.RunStep(ss, ground, if deadline.After? then deadline.checks else 0);
    if ground.doc != 0 && deadline.After? { Walk.WithinRounds(ss, ground, deadline.checks); }
  }

  lemma StartedAtFirst(index: B.Index, words: seq<Text>)
    requires B.ValidIndex(index) && |words| > 0
    ensures var c := Started(index, words).0[0];
            c.posts == B.ListOf(index, words[0]).posts && (Started(index, words).1.doc != 0 ==> c.taken >= 1)
  {
  }

  /** The first places, in order, as many as are found. */
  ghost predicate PhraseAnswer(hits: seq<DocInfo>, urls: seq<Text>, words: seq<Text>, places: seq<Post>, found: nat) {
    && |hits| == found <= |places|
    && forall i | 0 <= i < |hits| :: hits[i] == PhraseHit(urls, words, places[i])
  }

  /** phrase_query; one word alone goes to default_query. */
  method PhraseQuery(words: seq<Text>, li: LoadedIndex, deadline: Deadline, ghost index: B.Index) returns (hits: seq<DocInfo>)
    requires C.Serves(li, index)
    ensures B.ValidIndex(index)
    ensures |words| == 0 ==> hits == []
    ensures |words| == 1 ==> LeapAnswer(hits, li.urls, index, words, deadline)
    ensures |words| > 1 ==> PhraseAnswer(hits, li.urls, words, Places(index, words), PlacesBy(index, words, deadline))
  {
    hide C.Serves, LeapAnswer, R.ValidReaders, B.ValidIndex, RarestFirst, Advance, Walk.Run;
    ServesValid(li, index);
    if |words| == 0 { return []; }
    if |words| == 1 {
      ghost var order;
      hits, order := DefaultQuery(words, li, deadline, index);
      OneWordOrder(words, order, CountsOf(index, words));
      return;
    }
    var rs := OpenReaders(li, words, index);
    var ground := R.StepOne(rs, 0);
    hits := WalkPhrase(rs, ground, words, li, deadline);
  }

  lemma OneWordOrder(words: seq<Text>, order: seq<nat>, counts: seq<nat>)
    requires |words| == 1 == |counts| && RarestFirst(order, counts)
    ensures Arrange(words, order) == words
  {
  }

  /** The loop of phrase_query. */
  method WalkPhrase(rs: seq<IndexStreamReader>, first: Post, words: seq<Text>, li: LoadedIndex, deadline: Deadline)
    returns (hits: seq<DocInfo>)
    requires R.ValidReaders(rs) && |rs| > 1
    modifies rs
    ensures PhraseAnswer(hits, old(li.urls), words, if first.doc == 0 then [] else Walk.Run(old(R.Cursors(rs)), first),
              FoundBy(old(R.Cursors(rs)), first, deadline))
  {
    hide R.ValidReaders, R.Cursors, Walk.Step, Walk.Run, Walk.HitsIn, PhraseInfos, UrlOf, PhraseSoFar, PhraseAnswer,
      IndexStreamReader.Valid, FoundBy, Later, Fired;
    var ground := first;
    ghost var places := if first.doc == 0 then [] else Walk.Run(R.Cursors(rs), first);
    ghost var found := FoundBy(R.Cursors(rs), first, deadline);
    var checks := 0;
    hits := [];
    NoneFired(deadline);
    PhraseStarts(li.urls, words, places);
    while true
      invariant R.ValidReaders(rs) && li.urls == old(li.urls)
      invariant PhraseSoFar(hits, li.urls, words, places, if ground.doc == 0 then [] else Walk.Run(R.Cursors(rs), ground))
      invariant !Fired(deadline, checks) && found == |hits| + FoundBy(R.Cursors(rs), ground, Later(deadline, checks))
      decreases R.Cursors(rs)[0].Remaining(), ground.doc
    {
      PhraseEnds(hits, li.urls, words, places, if ground.doc == 0 then [] else Walk.Run(R.Cursors(rs), ground));
      FoundStep(R.Cursors(rs), ground, deadline, checks);
      if Fires(deadline, checks) { return; }
      checks := checks + 1;
      if ground.doc == 0 { return; }
      PhraseGoesOn(R.Cursors(rs), ground, hits, li.urls, words, places);
      var ok, next := WalkOne(rs, ground);
      hits := if ok then hits + [PhraseHit(li.urls, words, ground)] else hits;
      ground := next;
    }
  }

  /** The hits are those of the first places; `ahead` are the places still to come. */
  ghost predicate PhraseSoFar(hits: seq<DocInfo>, urls: seq<Text>, words: seq<Text>, places: seq<Post>, ahead: seq<Post>) {
    && |hits| <= |places| && places[|hits|..] == ahead
    && forall i | 0 <= i < |hits| :: hits[i] == PhraseHit(urls, words, places[i])
  }

  lemma PhraseStarts(urls: seq<Text>, words: seq<Text>, places: seq<Post>)
    ensures PhraseSoFar([], urls, words, places, places)
  {
  }

  predicate Fired(deadline: Deadline, checks: nat) {
    deadline.After? && checks > deadline.checks
  }

  /** The deadline as it stands after some rounds. */
  function Later(deadline: Deadline, checks: nat): Deadline
    requires !Fired(deadline, checks)
  {
    if deadline.After? then After(deadline.checks - checks) else Never
  }

  lemma NoneFired(deadline: Deadline)
    ensures !Fired(deadline, 0) && Later(deadline, 0) == deadline
  {
  }

  /** Stopping at the deadline, or with nothing ahead, leaves what was to be found. */
  lemma PhraseEnds(hits: seq<DocInfo>, urls: seq<Text>, words: seq<Text>, places: seq<Post>, ahead: seq<Post>)
    requires PhraseSoFar(hits, urls, words, places, ahead)
    ensures PhraseAnswer(hits, urls, words, places, |hits|)
  {
    hide PhraseHit;
  }

  /** What one round finds, and what is left to be found after it. */
  lemma FoundStep(ss: W.Streams, ground: Post, deadline: Deadline, checks: nat)
    requires W.ValidStreams(ss) && |ss| > 0 && !Fired(deadline, checks)
    ensures Fires(deadline, checks) || ground.doc == 0 ==> FoundBy(ss, ground, Later(deadline, checks)) == 0
    ensures !Fires(deadline, checks) ==> !Fired(deadline, checks + 1)
    ensures !Fires(deadline, checks) && ground.doc != 0 ==>
              var (tt, p, ok) := Walk.Step(ss, ground);
              FoundBy(ss, ground, Later(deadline, checks)) == (if ok then 1 else 0) + FoundBy(tt, p, Later(deadline, checks + 1))
  {
    hide Walk.Step, Walk.Run, Walk.HitsIn, W.ValidStreams;
    Walk.RunStep(ss, ground, if deadline.After? then deadline.checks - checks else 0);
  }

  lemma PhraseGoesOn(ss: W.Streams, ground: Post, hits: seq<DocInfo>, urls: seq<Text>, words: seq<Text>, places: seq<Post>)
    requires W.ValidStreams(ss) && |ss| > 0 && 0 < ground.doc
    requires PhraseSoFar(hits, urls, words, places, Walk.Run(ss, ground))
    ensures var (tt, p, ok) := Walk.Step(ss, ground);
            PhraseSoFar(if ok then hits + [PhraseHit(urls, words, ground)] else hits, urls, words, places,
              if p.doc == 0 then [] else Walk.Run(tt, p))
  {
    hide Walk.Step, PhraseHit, Walk.Run;
    HitAhead(ss, ground, places, |hits|);
  }

  /** One round: validate_pos, then on to the next document or the next position. */
  method WalkOne(rs: seq<IndexStreamReader>, ground: Post) returns (ok: bool, next: Post)
    requires R.ValidReaders(rs) && |rs| > 0 && 0 < ground.doc
    modifies rs
    ensures R.ValidReaders(rs) && (R.Cursors(rs), next, ok) == Walk.Step(old(R.Cursors(rs)), ground)
  {
    hide R.ValidReaders, W.CheckAdjacency, AdvanceTo, Advance, Ascending;
    ok := R.CheckAdjacency(rs, ground);
    if ok {
      next := R.SeekNextDoc(rs, 0);
    } else {
      next := R.StepOne(rs, 0);
    }
  }

  lemma HitAhead(ss: W.Streams, ground: Post, places: seq<Post>, k: nat)
    requires W.ValidStreams(ss) && |ss| > 0 && 0 < ground.doc && k <= |places|
    requires places[k..] == Walk.Run(ss, ground)
    ensures var (tt, p, ok) := Walk.Step(ss, ground);
            && (ok ==> k < |places| && places[k] == ground && places[k + 1..] == if p.doc == 0 then [] else Walk.Run(tt, p))
            && (!ok ==> places[k..] == if p.doc == 0 then [] else Walk.Run(tt, p))
  {
    hide Walk.Step;
    var (tt, p, ok) := Walk.Step(ss, ground);
    if ok { assert places[k..][1..] == places[k + 1..]; }
  }
}
