/**
  build_isr_tree (index_chunk/query_isr.h): from a query to executor objects over a
  loaded chunk, proved to build exactly the tree IsrBuild.Build describes.
*/
module TreeBuilder {
  import opened Bytes
  import opened StreamReader
  import opened LoadedChunk
  import opened QueryIsrNodes
  import B = IsrBuild
  import C = ChunkIndex
  import O = IsrOrder
  import Q = QueryAst
  import R = PhraseReaders
  import T = IsrTree

  // ---------------------------------------------------------------- words of a phrase

  /** The splitting loop of the PhraseISR constructor. */
  method SplitPhrase(phrase: Text) returns (words: seq<Text>)
    ensures words == B.SplitOnSpaces(phrase)
  {
    hide B.SplitOnSpaces;
    words := [];
    var i := 0;
    assert phrase[0..] == phrase;
    while i < |phrase|
      invariant i <= |phrase|
      invariant words + B.SplitOnSpaces(phrase[i..]) == B.SplitOnSpaces(phrase)
    {
      ghost var from := i;
      while i < |phrase| && phrase[i] == SPACE
        invariant from <= i <= |phrase| && forall j | from <= j < i :: phrase[j] == SPACE
      {
        i := i + 1;
      }
      if i >= |phrase| {
        B.OnlySpaces(phrase, from);
        return;
      }
      var start := i;
      while i < |phrase| && phrase[i] != SPACE
        invariant start <= i <= |phrase| && forall j | start <= j < i :: phrase[j] != SPACE
      {
        i := i + 1;
      }
      B.SplitStep(phrase, from, start, i);
      words := words + [phrase[start..i]];
    }
    B.OnlySpaces(phrase, i);
  }

  // ---------------------------------------------------------------- leaves

  /** One reader for each word, all at their start. */
  method OpenReaders(li: LoadedIndex, words: seq<Text>, ghost index: B.Index) returns (rs: seq<IndexStreamReader>)
    requires C.Serves(li, index)
    ensures fresh(rs)
    ensures |rs| == |words| && forall i | 0 <= i < |rs| :: rs[i].word == words[i]
    ensures R.ValidReaders(rs) && R.Cursors(rs) == B.OpenAll(index, words)
  {
    hide C.Serves, R.ValidReaders, B.Open, OpenedTo;
    rs := [];
    NothingOpened(words, index);
    for i := 0 to |words|
      invariant fresh(rs) && OpenedTo(rs, words, i, index)
    {
      var r := C.OpenReader(li, words[i], index);
      OneMoreOpened(rs, words, i, index, r);
      rs := rs + [r];
    }
    AllOpened(rs, words, index);
  }

  /** The first k words have been opened, each with a reader of its own. */
  ghost predicate OpenedTo(rs: seq<IndexStreamReader>, words: seq<Text>, k: nat, index: B.Index)
    reads rs
  {
    && |rs| == k <= |words|
    && (forall i, j | 0 <= i < j < |rs| :: rs[i] != rs[j])
    && forall i | 0 <= i < |rs| :: OpenedFor(rs[i], words[i], index)
  }

  ghost predicate OpenedFor(r: IndexStreamReader, word: Text, index: B.Index)
    reads r
  {
    r.word == word && r.Valid() && !r.hasPending && r.Cursor() == B.Open(index, word)
  }

  lemma NothingOpened(words: seq<Text>, index: B.Index)
    ensures OpenedTo([], words, 0, index)
  {
  }

  lemma OneMoreOpened(rs: seq<IndexStreamReader>, words: seq<Text>, k: nat, index: B.Index, r: IndexStreamReader)
    requires k < |words| && OpenedTo(rs, words, k, index) && r !in rs && OpenedFor(r, words[k], index)
    ensures OpenedTo(rs + [r], words, k + 1, index)
  {
    hide OpenedFor;
  }

  lemma AllOpened(rs: seq<IndexStreamReader>, words: seq<Text>, index: B.Index)
    requires OpenedTo(rs, words, |words|, index)
    ensures |rs| == |words| && forall i | 0 <= i < |rs| :: rs[i].word == words[i]
    ensures R.ValidReaders(rs) && R.Cursors(rs) == B.OpenAll(index, words)
  {
    hide B.Open, IndexStreamReader.Valid;
    assert R.ValidReaders(rs);
    assert forall i | 0 <= i < |rs| :: R.Cursors(rs)[i] == B.Open(index, words[i]);
  }

  /** The object is the leaf of this term: its sign and its words. */
  predicate LeafFor(n: QueryIsr, t: Q.TermData) {
    && n.negated == t.negated
    && |n.streams| == |B.WordsOf(t)|
    && forall i | 0 <= i < |n.streams| :: n.streams[i].word == B.WordsOf(t)[i]
  }

  predicate LeavesFor(ns: seq<QueryIsr>, ts: seq<Q.TermData>) {
    |ns| == |ts| && forall i | 0 <= i < |ns| :: LeafFor(ns[i], ts[i])
  }

  lemma BuiltLeaf(t: Q.TermData, li: LoadedIndex, index: B.Index)
    requires C.Serves(li, index)
    ensures B.Build(Q.AstTerm(t), index) == T.Leaf(t.negated, B.OpenAll(index, B.WordsOf(t)))
  {
  }

  /** make_term, make_phrase */
  method MakeLeaf(t: Q.TermData, li: LoadedIndex, ghost index: B.Index) returns (n: QueryIsr)
    requires C.Serves(li, index)
    ensures n.Valid() && fresh(n.Repr) && LeafFor(n, t)
    ensures n.Node() == B.Build(Q.AstTerm(t), index)
  {
    hide C.Serves, B.OpenAll, B.SplitOnSpaces;
    var words := [t.val];
    if t.isPhrase { words := SplitPhrase(t.val); }
    var rs := OpenReaders(li, words, index);
    BuiltLeaf(t, li, index);
    n := new QueryIsr.Leaf(if t.isPhrase then PhraseKind else TermKind, t.negated, rs);
  }

  // ---------------------------------------------------------------- the tree

  /** What the arena holds after the tree was built: the term leaves and the phrase leaves, in order. */
  datatype Arena = Arena(terms: seq<QueryIsr>, phrases: seq<QueryIsr>)

  predicate ArenaFor(arena: Arena, terms: seq<Q.TermData>, phrases: seq<Q.TermData>) {
    LeavesFor(arena.terms, terms) && LeavesFor(arena.phrases, phrases)
  }

  function Joined(a: Arena, b: Arena): Arena {
    Arena(a.terms + b.terms, a.phrases + b.phrases)
  }

  lemma NoLeaves(cs: seq<Q.Ast>)
    ensures ArenaFor(Arena([], []), O.LeavesUpTo(cs, 0, false), O.LeavesUpTo(cs, 0, true))
  {
  }

  lemma BuiltOrParts(cs: seq<Q.Ast>, index: B.Index)
    requires B.ValidIndex(index)
    ensures var n := B.Build(Q.AstOr(cs), index);
            && n.Or? && |n.children| == |cs| == |n.current| && n.pendingAdvance == 0
            && forall i | 0 <= i < |cs| :: (n.children[i], n.current[i]) == T.NextDoc(B.Build(cs[i], index))
  {
    hide B.ValidIndex, T.NextDoc, T.Valid;
  }

  lemma BuiltAndParts(cs: seq<Q.Ast>, index: B.Index)
    requires B.ValidIndex(index)
    ensures var kids := B.BuildAll(cs, index); B.Build(Q.AstAnd(cs), index) == T.And(kids, B.PickDriver(kids, |kids|))
  {
    hide B.ValidIndex, T.NextDoc, T.Valid, B.PickDriver;
  }

  lemma ServesValid(li: LoadedIndex, index: B.Index)
    requires C.Serves(li, index)
    ensures B.ValidIndex(index)
  {
  }

  lemma MoreLeaves(cs: seq<Q.Ast>, i: nat, arena: Arena, more: Arena)
    requires i < |cs| && ArenaFor(arena, O.LeavesUpTo(cs, i, false), O.LeavesUpTo(cs, i, true))
    requires ArenaFor(more, O.Leaves(cs[i], false), O.Leaves(cs[i], true))
    ensures ArenaFor(Joined(arena, more), O.LeavesUpTo(cs, i + 1, false), O.LeavesUpTo(cs, i + 1, true))
  {
    hide LeafFor, O.Leaves;
  }

  /** build_isr_tree */
  method BuildTree(a: Q.Ast, li: LoadedIndex, ghost index: B.Index) returns (n: QueryIsr, arena: Arena)
    requires C.Serves(li, index)
    ensures n.Valid() && fresh(n.Repr) && n.Node() == B.Build(a, index)
    ensures ArenaFor(arena, O.Leaves(a, false), O.Leaves(a, true))
    decreases a, 1
  {
    hide C.Serves;
    match a
    case AstTerm(t) =>
      n := MakeLeaf(t, li, index);
      arena := if t.isPhrase then Arena([], [n]) else Arena([n], []);
    case AstAnd(cs) =>
      n, arena := BuildAnd(cs, li, index);
    case AstOr(cs) =>
      n, arena := BuildOr(cs, li, index);
  }

  method AddAndPart(n: QueryIsr, cs: seq<Q.Ast>, i: nat, li: LoadedIndex, ghost index: B.Index) returns (more: Arena)
    requires C.Serves(li, index) && i < |cs|
    requires n.Valid() && n.kind == AndKind
    requires n.driver == B.PickDriver(n.Kids(), |n.children|)
    requires n.driver >= 0 ==> n.driverScore == B.Estimate(n.Kids()[n.driver])
    modifies n
    ensures n.Valid() && fresh(n.Repr - old(n.Repr))
    ensures n.Kids() == old(n.Kids()) + [B.Build(cs[i], index)]
    ensures n.driver == B.PickDriver(n.Kids(), |n.children|)
    ensures n.driver >= 0 ==> n.driverScore == B.Estimate(n.Kids()[n.driver])
    ensures ArenaFor(more, O.Leaves(cs[i], false), O.Leaves(cs[i], true))
    decreases cs[i], 2
  {
    hide C.Serves, QueryIsr.Shape, QueryIsr.Node, QueryIsr.Kids, T.PlanOf, T.Valid, B.PickDriver, B.Estimate,
      ArenaFor, B.Build, O.Leaves;
    var c;
    c, more := BuildTree(cs[i], li, index);
    n.AddAndChild(c);
  }

  method AddOrPart(n: QueryIsr, cs: seq<Q.Ast>, i: nat, li: LoadedIndex, ghost index: B.Index) returns (more: Arena)
    requires C.Serves(li, index) && i < |cs|
    requires n.Valid() && n.kind == OrKind && n.pendingAdvance == 0
    modifies n
    ensures n.Valid() && fresh(n.Repr - old(n.Repr)) && n.pendingAdvance == 0
    ensures var (c, doc) := T.NextDoc(B.Build(cs[i], index));
            n.Kids() == old(n.Kids()) + [c] && n.currentDocs == old(n.currentDocs) + [doc]
    ensures ArenaFor(more, O.Leaves(cs[i], false), O.Leaves(cs[i], true))
    decreases cs[i], 2
  {
    hide C.Serves, QueryIsr.Shape, QueryIsr.Node, QueryIsr.Kids, T.NextDoc, T.Valid, ArenaFor, B.Build, O.Leaves;
    var c;
    c, more := BuildTree(cs[i], li, index);
    n.AddOrChild(c);
  }

  method BuildAnd(cs: seq<Q.Ast>, li: LoadedIndex, ghost index: B.Index) returns (n: QueryIsr, arena: Arena)
    requires C.Serves(li, index)
    ensures n.Valid() && fresh(n.Repr) && n.Node() == B.Build(Q.AstAnd(cs), index)
    ensures ArenaFor(arena, O.LeavesUpTo(cs, |cs|, false), O.LeavesUpTo(cs, |cs|, true))
    decreases cs, 0
  {
    hide C.Serves, T.Valid, B.PickDriver, QueryIsr.Shape, QueryIsr.Node, QueryIsr.Kids, T.PlanOf, B.Estimate,
      ArenaFor, B.Build, B.BuildAll,
         B.ValidIndex, O.LeavesUpTo, O.Leaves;
    ServesValid(li, index);
    BuiltAndParts(cs, index);
    NoLeaves(cs);
    n := new QueryIsr.Op(AndKind);
    arena := Arena([], []);
    ghost var kids := B.BuildAll(cs, index);
    for i := 0 to |cs|
      invariant n.Valid() && fresh(n.Repr) && n.kind == AndKind
      invariant n.Kids() == kids[..i]
      invariant n.driver == B.PickDriver(n.Kids(), |n.children|)
      invariant n.driver >= 0 ==> n.driverScore == B.Estimate(n.Kids()[n.driver])
      invariant ArenaFor(arena, O.LeavesUpTo(cs, i, false), O.LeavesUpTo(cs, i, true))
    {
      var more := AddAndPart(n, cs, i, li, index);
      MoreLeaves(cs, i, arena, more);
      arena := Joined(arena, more);
      assert kids[..i + 1] == kids[..i] + [kids[i]];
    }
    assert kids[..|cs|] == kids;
    n.NodeIsOp();
  }

  method BuildOr(cs: seq<Q.Ast>, li: LoadedIndex, ghost index: B.Index) returns (n: QueryIsr, arena: Arena)
    requires C.Serves(li, index)
    ensures n.Valid() && fresh(n.Repr) && n.Node() == B.Build(Q.AstOr(cs), index)
    ensures ArenaFor(arena, O.LeavesUpTo(cs, |cs|, false), O.LeavesUpTo(cs, |cs|, true))
    decreases cs, 0
  {
    hide C.Serves, T.Valid, T.NextDoc, QueryIsr.Shape, QueryIsr.Node, QueryIsr.Kids, ArenaFor, B.Build, B.ValidIndex,
      O.LeavesUpTo, O.Leaves;
    ServesValid(li, index);
    BuiltOrParts(cs, index);
    NoLeaves(cs);
    n := new QueryIsr.Op(OrKind);
    arena := Arena([], []);
    ghost var kids := B.Build(Q.AstOr(cs), index);
    for i := 0 to |cs|
      invariant n.Valid() && fresh(n.Repr) && n.kind == OrKind && n.pendingAdvance == 0
      invariant n.Kids() == kids.children[..i] && n.currentDocs == kids.current[..i]
      invariant ArenaFor(arena, O.LeavesUpTo(cs, i, false), O.LeavesUpTo(cs, i, true))
    {
      var more := AddOrPart(n, cs, i, li, index);
      MoreLeaves(cs, i, arena, more);
      arena := Joined(arena, more);
      assert kids.children[..i + 1] == kids.children[..i] + [kids.children[i]];
      assert kids.current[..i + 1] == kids.current[..i] + [kids.current[i]];
    }
    assert kids.children[..|cs|] == kids.children && kids.current[..|cs|] == kids.current;
    n.NodeIsOp();
  }
}
