/**
  chunk_manager::query (index_chunk/chunk_manager.h): builds the executor tree for a
  query, drives it to the end, and collects the positions of every positive word in
  every document found.  The clock is a parameter: a deadline that never fires, or
  that fires at the check after a given number of checks.
*/
module ChunkManager {
  import opened Bytes
  import opened Postings
  import opened Positions
  import opened StreamReader
  import opened LoadedChunk
  import opened QueryIsrNodes
  import opened TreeBuilder
  import B = IsrBuild
  import C = ChunkIndex
  import O = IsrOrder
  import Q = QueryAst
  import P = Postings
  import R = PhraseReaders
  import T = IsrTree

  const MAX_MATCHES: nat := 2000

  datatype NodeInfo = NodeInfo(word: Text, positions: seq<nat>, freq: nat)
  datatype DocInfo = DocInfo(url: Text, words: seq<NodeInfo>)

  datatype Deadline = Never | After(checks: nat)

  predicate Fires(deadline: Deadline, checks: nat) {
    deadline.After? && checks >= deadline.checks
  }

  /** "<invalid-doc>" */
  const INVALID_DOC: Text := [60, 105, 110, 118, 97, 108, 105, 100, 45, 100, 111, 99, 62]

  /** get_url: documents are numbered from 1. */
  function UrlOf(urls: seq<Text>, doc: nat): Text {
    if doc == 0 || doc - 1 >= |urls| then INVALID_DOC else urls[doc - 1]
  }

  function GetUrl(li: LoadedIndex, doc: nat): (url: Text)
    reads li
    ensures 1 <= doc <= |li.urls| ==> url == li.urls[doc - 1]
    ensures !(1 <= doc <= |li.urls|) ==> url == [60, 105, 110, 118, 97, 108, 105, 100, 45, 100, 111, 99, 62]
  {
    UrlOf(li.urls, doc)
  }

  // ---------------------------------------------------------------- unique words

  function AddUnique(words: seq<Text>, w: Text): seq<Text> {
    if w in words then words else words + [w]
  }

  function AddAllUnique(words: seq<Text>, more: seq<Text>): seq<Text> {
    if more == [] then words
    else AddUnique(AddAllUnique(words, more[..|more| - 1]), more[|more| - 1])
  }

  function PositiveWords(words: seq<Text>, leaves: seq<Q.TermData>): seq<Text> {
    if leaves == [] then words
    else
      var before, t := PositiveWords(words, leaves[..|leaves| - 1]), leaves[|leaves| - 1];
      if t.negated then before else AddAllUnique(before, B.WordsOf(t))
  }

  /** The words whose positions are collected: of positive terms first, then of positive phrases. */
  function UniqueWords(a: Q.Ast): seq<Text> {
    PositiveWords(PositiveWords([], O.Leaves(a, false)), O.Leaves(a, true))
  }

  ghost predicate Distinct(words: seq<Text>) {
    forall i, j | 0 <= i < j < |words| :: words[i] != words[j]
  }

  lemma {:induction false} AddAllUniqueExact(words: seq<Text>, more: seq<Text>)
    requires Distinct(words)
    ensures Distinct(AddAllUnique(words, more))
    ensures forall w :: w in AddAllUnique(words, more) <==> w in words || w in more
  {
    if more != [] {
      AddAllUniqueExact(words, more[..|more| - 1]);
      assert more == more[..|more| - 1] + [more[|more| - 1]];
    }
  }

  lemma {:induction false} PositiveWordsExact(words: seq<Text>, leaves: seq<Q.TermData>)
    requires Distinct(words)
    ensures Distinct(PositiveWords(words, leaves))
    ensures forall w :: w in PositiveWords(words, leaves) <==>
              w in words || exists t :: t in leaves && !t.negated && w in B.WordsOf(t)
  {
    hide B.WordsOf, AddAllUnique, Distinct;
    if leaves != [] {
      var t := leaves[|leaves| - 1];
      PositiveWordsExact(words, leaves[..|leaves| - 1]);
      var before := PositiveWords(words, leaves[..|leaves| - 1]);
      AddAllUniqueExact(before, B.WordsOf(t));
      assert forall x :: x in leaves <==> x in leaves[..|leaves| - 1] || x == t;
    }
  }

  /** Each word of a positive leaf is collected, exactly once, and no other word is. */
  lemma UniqueWordsExact(a: Q.Ast)
    ensures Distinct(UniqueWords(a))
    ensures forall w :: w in UniqueWords(a) <==>
              exists t :: (t in O.Leaves(a, false) || t in O.Leaves(a, true)) && !t.negated && w in B.WordsOf(t)
  {
    hide B.WordsOf, O.Leaves, PositiveWords;
    PositiveWordsExact([], O.Leaves(a, false));
    PositiveWordsExact(PositiveWords([], O.Leaves(a, false)), O.Leaves(a, true));
  }

  lemma WordIsCollected(a: Q.Ast, t: Q.TermData)
    requires (t in O.Leaves(a, false) || t in O.Leaves(a, true)) && !t.negated && B.WordsOf(t) != []
    ensures UniqueWords(a) != []
  {
    hide B.WordsOf, O.Leaves, PositiveWords;
    UniqueWordsExact(a);
    assert B.WordsOf(t)[0] in UniqueWords(a);
  }

  /** No word to collect means nothing to find: the early return loses no document. */
  lemma NothingToCollect(a: Q.Ast, index: B.Index)
    requires B.ValidIndex(index) && Q.Driveable(a) && UniqueWords(a) == []
    ensures B.Run(B.Build(a, index)) == []
  {
    hide B.WordsOf, O.Leaves, PositiveWords, O.Wordless, B.Build, T.NextDoc;
    UniqueWordsExact(a);
    forall t | (t in O.Leaves(a, false) || t in O.Leaves(a, true)) && !t.negated ensures B.WordsOf(t) == [] {
      if B.WordsOf(t) != [] { WordIsCollected(a, t); }
    }
    O.LeavesAreWords(a);
    O.WordlessFindsNothing(a, index);
  }

  /** add_unique_word, for each word of one leaf. */
  method AddWords(words: seq<Text>, n: QueryIsr, ghost t: Q.TermData) returns (r: seq<Text>)
    requires LeafFor(n, t)
    ensures r == if t.negated then words else AddAllUnique(words, B.WordsOf(t))
  {
    hide B.WordsOf;
    if n.negated { return words; }
    ghost var more := B.WordsOf(t);
    r := words;
    for i := 0 to |n.streams|
      invariant r == AddAllUnique(words, more[..i])
    {
      var w := n.streams[i].word;
      assert more[..i + 1][..i] == more[..i];
      var known := false;
      for j := 0 to |r|
        invariant known <==> w in r[..j]
      {
        if r[j] == w { known := true; }
      }
      assert r[..|r|] == r;
      if !known { r := r + [w]; }
    }
    assert more[..|more|] == more;
  }

  method CollectWords(arena: Arena, ghost a: Q.Ast) returns (words: seq<Text>)
    requires ArenaFor(arena, O.Leaves(a, false), O.Leaves(a, true))
    ensures words == UniqueWords(a)
  {
    hide B.WordsOf, O.Leaves, AddAllUnique, LeafFor;
    words := AddLeaves([], arena.terms, O.Leaves(a, false));
    words := AddLeaves(words, arena.phrases, O.Leaves(a, true));
  }

  method AddLeaves(words: seq<Text>, ns: seq<QueryIsr>, ghost leaves: seq<Q.TermData>) returns (r: seq<Text>)
    requires LeavesFor(ns, leaves)
    ensures r == PositiveWords(words, leaves)
  {
    hide B.WordsOf, AddAllUnique, LeafFor;
    r := words;
    for i := 0 to |ns|
      invariant r == PositiveWords(words, leaves[..i])
    {
      r := AddWords(r, ns[i], leaves[i]);
      assert leaves[..i + 1][..i] == leaves[..i];
    }
    assert leaves[..|leaves|] == leaves;
  }

  // ---------------------------------------------------------------- positions

  /** What a hit carries: the URL of the document, and each word's locations in it. */
  function HitOf(urls: seq<Text>, index: B.Index, words: seq<Text>, doc: nat): DocInfo {
    DocInfo(UrlOf(urls, doc), InfosOf(index, words, doc))
  }

  function InfosOf(index: B.Index, words: seq<Text>, doc: nat): (r: seq<NodeInfo>)
    ensures |r| == |words|
    ensures forall i | 0 <= i < |r| ::
              r[i] == NodeInfo(words[i], Locations(B.ListOf(index, words[i]).posts, doc), B.ListOf(index, words[i]).nDocs)
  {
    seq(|words|, i requires 0 <= i < |words| =>
      NodeInfo(words[i], Locations(B.ListOf(index, words[i]).posts, doc), B.ListOf(index, words[i]).nDocs))
  }

  /** The position readers: one for each word, none past document `from`. */
  ghost predicate PoisedReader(r: IndexStreamReader, list: B.PostingList, from: nat)
    reads r
  {
    r.Valid() && r.Cursor().posts == list.posts && r.Cursor().nDocs == list.nDocs && Poised(r.Cursor(), from)
  }

  ghost predicate PoisedReaders(rs: seq<IndexStreamReader>, index: B.Index, words: seq<Text>, from: nat)
    reads rs
  {
    && |rs| == |words|
    && (forall i, j | 0 <= i < j < |rs| :: rs[i] != rs[j])
    && forall i | 0 <= i < |rs| :: rs[i].word == words[i] && PoisedReader(rs[i], B.ListOf(index, words[i]), from)
  }

  /** One word of one hit: seek, and collect if the word occurs. */
  method WordInfo(r: IndexStreamReader, doc: nat, ghost list: B.PostingList) returns (info: NodeInfo)
    requires PoisedReader(r, list, doc) && 0 < doc
    modifies r
    ensures PoisedReader(r, list, doc + 1)
    ensures info == NodeInfo(r.word, Locations(list.posts, doc), list.nDocs)
  {
    hide Ascending, AdvanceTo, P.Collect, Locations, Poised, IndexStreamReader.Valid;
    ghost var c := r.Cursor();
    if AdvanceTo(c, doc).1.doc == doc { CollectIsExact(c, doc); } else { MissIsExact(c, doc); }
    var positions := [];
    var p := r.AdvanceTo(doc);
    if p.doc == doc { positions := r.Collect(positions); }
    info := NodeInfo(r.word, positions, r.nDocs);
  }

  method WordInfos(rs: seq<IndexStreamReader>, words: seq<Text>, doc: nat, ghost index: B.Index, ghost from: nat)
    returns (infos: seq<NodeInfo>)
    requires PoisedReaders(rs, index, words, from) && from <= doc && 0 < doc
    modifies rs
    ensures PoisedReaders(rs, index, words, doc + 1) && infos == InfosOf(index, words, doc)
  {
    hide PoisedReader, Locations;
    infos := [];
    for i := 0 to |rs|
      invariant |infos| == i && forall k | 0 <= k < i :: infos[k] == InfosOf(index, words, doc)[k]
      invariant forall k | 0 <= k < i :: PoisedReader(rs[k], B.ListOf(index, words[k]), doc + 1)
      invariant forall k | i <= k < |rs| :: PoisedReader(rs[k], B.ListOf(index, words[k]), from)
    {
      ReaderPoisedLater(rs[i], B.ListOf(index, words[i]), from, doc);
      var info := WordInfo(rs[i], doc, B.ListOf(index, words[i]));
      infos := infos + [info];
    }
  }

  lemma ReaderPoisedLater(r: IndexStreamReader, list: B.PostingList, from: nat, later: nat)
    requires PoisedReader(r, list, from) && from <= later
    ensures PoisedReader(r, list, later)
  {
  }

  lemma FreshReadersPoised(rs: seq<IndexStreamReader>, index: B.Index, words: seq<Text>)
    requires |rs| == |words| && forall i | 0 <= i < |rs| :: rs[i].word == words[i]
    requires R.ValidReaders(rs) && R.Cursors(rs) == B.OpenAll(index, words)
    ensures PoisedReaders(rs, index, words, 0)
  {
    hide Ascending, IndexStreamReader.Valid;
    forall i | 0 <= i < |rs| ensures PoisedReader(rs[i], B.ListOf(index, words[i]), 0) {
      assert rs[i].Cursor() == R.Cursors(rs)[i] == B.Open(index, words[i]);
    }
  }

  // ---------------------------------------------------------------- the query

  function Least(a: nat, b: nat): nat {
    if a < b then a else b
  }

  /** How many documents of a run of n are reported. */
  function Reported(n: nat, deadline: Deadline): nat {
    var m := Least(n, MAX_MATCHES);
    if deadline.After? then Least(m, deadline.checks) else m
  }

  /**
    The answer: for each document of the run in order, up to the cap and the deadline,
    its URL and the exact positions of each positive word.  A query that cannot be
    driven is refused.
  */
  ghost predicate Answers(hits: seq<DocInfo>, urls: seq<Text>, a: Q.Ast, index: B.Index, deadline: Deadline)
    requires B.ValidIndex(index)
  {
    if !Q.Driveable(a) then hits == []
    else
      var run := B.Run(B.Build(a, index));
      && |hits| == Reported(|run|, deadline)
      && forall i | 0 <= i < |hits| :: hits[i] == HitOf(urls, index, UniqueWords(a), run[i])
  }

  /** What the driving loop still has to report. */
  ghost predicate ToCome(run: seq<nat>, done: nat, doc: nat, n: T.Node)
    requires T.Valid(n)
  {
    if doc == 0 then done == |run| else done < |run| && run[done] == doc && run[done + 1..] == B.Run(n)
  }

  lemma FirstToCome(n: T.Node)
    requires T.Valid(n)
    ensures ToCome(B.Run(n), 0, T.NextDoc(n).1, T.NextDoc(n).0)
  {
    hide T.NextDoc;
  }

  lemma NextToCome(run: seq<nat>, done: nat, doc: nat, n: T.Node)
    requires T.Valid(n) && doc != 0 && ToCome(run, done, doc, n)
    ensures ToCome(run, done + 1, T.NextDoc(n).1, T.NextDoc(n).0)
  {
    hide T.NextDoc;
  }

  /** The driving loop. */
  method Drive(root: QueryIsr, rs: seq<IndexStreamReader>, words: seq<Text>, li: LoadedIndex, deadline: Deadline,
      ghost index: B.Index) returns (hits: seq<DocInfo>)
    requires root.Valid() && O.Climbs(root.Node(), 0) && PoisedReaders(rs, index, words, 0)
    requires li !in root.Repr && forall r | r in rs :: r !in root.Repr
    modifies root.Repr, rs
    ensures var run := B.Run(old(root.Node()));
            && |hits| == Reported(|run|, deadline)
            && forall i | 0 <= i < |hits| :: hits[i] == HitOf(old(li.urls), index, words, run[i])
  {
    hide QueryIsr.Shape, QueryIsr.Node, T.Valid, T.NextDoc, O.Climbs, PoisedReaders, B.Run, T.Size, UrlOf, InfosOf;
    ghost var run := B.Run(root.Node());
    FirstToCome(root.Node());
    O.NextClimbs(root.Node(), 0);
    hits := [];
    var doc := root.NextDoc();
    ghost var from := 0;
    while doc != 0
      invariant root.Valid() && root.Repr == old(root.Repr) && li.urls == old(li.urls)
      invariant ToCome(run, |hits|, doc, root.Node())
      invariant PoisedReaders(rs, index, words, from)
      invariant doc != 0 ==> from <= doc && O.Climbs(root.Node(), doc)
      invariant |hits| <= |run| && |hits| <= Reported(|run|, deadline)
      invariant forall i | 0 <= i < |hits| :: hits[i] == HitOf(old(li.urls), index, words, run[i])
      decreases |run| - |hits|
    {
      if Fires(deadline, |hits|) { return; }
      if |hits| >= MAX_MATCHES { return; }
      var infos := WordInfos(rs, words, doc, index, from);
      hits := hits + [DocInfo(GetUrl(li, doc), infos)];
      from := doc + 1;
      NextToCome(run, |hits| - 1, doc, root.Node());
      O.NextClimbs(root.Node(), doc);
      doc := root.NextDoc();
    }
  }

  /** Opens the position readers and drives the tree. */
  method Search(root: QueryIsr, words: seq<Text>, li: LoadedIndex, deadline: Deadline, ghost index: B.Index)
    returns (hits: seq<DocInfo>)
    requires C.Serves(li, index) && root.Valid() && O.Climbs(root.Node(), 0) && li !in root.Repr
    modifies root.Repr
    ensures var run := B.Run(old(root.Node()));
            && |hits| == Reported(|run|, deadline)
            && forall i | 0 <= i < |hits| :: hits[i] == HitOf(old(li.urls), index, words, run[i])
  {
    hide C.Serves, QueryIsr.Shape, QueryIsr.Node, T.Valid, O.Climbs, PoisedReaders, B.Run, R.ValidReaders, R.Cursors,
      B.OpenAll, HitOf, Reported;
    var rs := OpenReaders(li, words, index);
    FreshReadersPoised(rs, index, words);
    hits := Drive(root, rs, words, li, deadline, index);
  }

  /** chunk_manager::query */
  method Query(a: Q.Ast, li: LoadedIndex, deadline: Deadline, ghost index: B.Index) returns (hits: seq<DocInfo>)
    requires C.Serves(li, index)
    ensures B.ValidIndex(index) && Answers(hits, li.urls, a, index, deadline)
    ensures Q.Driveable(a) && deadline.Never? ==>
            var n := |B.Run(B.Build(a, index))|; if n <= 2000 then |hits| == n else |hits| == 2000
  {
    hide C.Serves, QueryIsr.Valid, B.Build, B.ValidIndex, UniqueWords, T.Valid, T.PlanOf, ArenaFor, B.Driveable,
      O.Leaves, B.Run, Q.Driveable, HitOf, O.Climbs;
    ServesValid(li, index);
    var root, arena := BuildTree(a, li, index);
    root.ValidParts();
    B.BuildFlags(a, index);
    var driveable := root.IsDriveable();
    if !driveable { return []; }
    var words := CollectWords(arena, a);
    if |words| == 0 {
      NothingToCollect(a, index);
      return [];
    }
    O.BuiltClimbs(a, index);
    hits := Search(root, words, li, deadline, index);
  }
}
