/**
  Where the executor's exactness fails (index_chunk/query_isr.h): queries
  w (q | p1 ... pn) over different words, each part a word, a negated word or an OR of
  two words.  Outside the safe class there is always an index on which document 1 is
  answered wrongly.  Taking the first document of the inner AND runs it dry; an
  exhausted OR still shows document 1 while the cursor of the negated word has passed it.
*/
module IsrFragment {
  import opened Bytes
  import opened Postings
  import PhraseWalk
  import opened IsrTree
  import opened IsrBuild
  import opened IsrBounds
  import opened IsrExact
  import Q = QueryAst

  // ---------------------------------------------------------------- the queries

  datatype Part = Word(word: Text) | Not(word: Text) | Either(left: Text, right: Text)

  function TermAst(w: Text, negated: bool): Q.Ast {
    Q.AstTerm(Q.TermData(w, negated, false, 0))
  }

  function PartAst(p: Part): Q.Ast {
    match p
    case Word(w) => TermAst(w, false)
    case Not(w) => TermAst(w, true)
    case Either(x, y) => Q.AstOr([TermAst(x, false), TermAst(y, false)])
  }

  function PartAsts(parts: seq<Part>): (r: seq<Q.Ast>)
    ensures |r| == |parts| && forall j | 0 <= j < |r| :: r[j] == PartAst(parts[j])
  {
    seq(|parts|, j requires 0 <= j < |parts| => PartAst(parts[j]))
  }

  function Inner(parts: seq<Part>): Q.Ast {
    Q.AstAnd(PartAsts(parts))
  }

  /** w (q | p1 ... pn) */
  function Query(w: Text, q: Text, parts: seq<Part>): Q.Ast {
    Q.AstAnd([TermAst(w, false), Q.AstOr([TermAst(q, false), Inner(parts)])])
  }

  function Names(p: Part): set<Text> {
    match p
    case Word(w) => {w}
    case Not(w) => {w}
    case Either(x, y) => {x, y}
  }

  /** No word occurs twice. */
  ghost predicate DistinctWords(w: Text, q: Text, parts: seq<Part>) {
    && w != q
    && (forall j | 0 <= j < |parts| :: w !in Names(parts[j]) && q !in Names(parts[j]))
    && (forall j | 0 <= j < |parts| && parts[j].Either? :: parts[j].left != parts[j].right)
    && (forall j, l, t | 0 <= j < l < |parts| && t in Names(parts[j]) :: t !in Names(parts[l]))
  }

  /** An OR that may drive, and a negated word that no word comes before. */
  predicate Hazard(parts: seq<Part>, i: nat, k: nat) {
    && i < |parts| && k < |parts| && parts[i].Either? && parts[k].Not?
    && forall j | 0 <= j < k :: !parts[j].Word?
  }

  /** Outside the safe class there is a hazard. */
  lemma UnsafeHasHazard(w: Text, q: Text, parts: seq<Part>) returns (i: nat, k: nat)
    requires !DriveSafeQuery(Query(w, q, parts))
    ensures Hazard(parts, i, k)
  {
    if CalmQuery(Inner(parts)) { OuterIsSafe(w, q, parts); }
    i, k := InnerHazard(parts);
  }

  lemma InnerHazard(parts: seq<Part>) returns (i: nat, k: nat)
    requires !CalmQuery(Inner(parts))
    ensures Hazard(parts, i, k)
  {
    var cs := PartAsts(parts);
    forall j | 0 <= j < |cs| ensures PartClass(parts[j]) && cs[j] == PartAst(parts[j]) { PartIsCalm(parts[j]); }
    hide PartAst, BlockingQuery, SteadyQuery, ProbeSafeQuery, Q.NegationFree, Q.Driveable;
    i := DriverAtFault(cs, Inner(parts));
    k :| 0 <= k < |cs| && k != i && !Q.NegationFree(cs[k]) && !GuardedQueryAt(cs, i, k);
    forall j | 0 <= j < k ensures !parts[j].Word? {
      assert j == i || !(Q.NegationFree(cs[j]) && BlockingQuery(cs[j]));
    }
  }

  /** Parts that are safe one by one make an unsafe AND only by a driver that neither blocks nor is guarded. */
  lemma DriverAtFault(cs: seq<Q.Ast>, a: Q.Ast) returns (i: nat)
    requires a == Q.AstAnd(cs) && !CalmQuery(a)
    requires forall j | 0 <= j < |cs| :: ProbeSafeQuery(cs[j]) && (Q.Driveable(cs[j]) ==> SteadyQuery(cs[j]))
    ensures i < |cs| && Q.Driveable(cs[i]) && !BlockingQuery(cs[i]) && !GuardedQuery(cs, i)
  {
    hide BlockingQuery, GuardedQuery, ProbeSafeQuery;
    i :| 0 <= i < |cs| && Q.Driveable(cs[i]) && !BlockingQuery(cs[i]) && !GuardedQuery(cs, i);
  }

  /** What the classes say of one part. */
  ghost predicate PartClass(p: Part) {
    var c := PartAst(p);
    && ProbeSafeQuery(c) && (Q.Driveable(c) <==> !p.Not?) && (!p.Not? ==> SteadyQuery(c) && DriveSafeQuery(c))
    && (BlockingQuery(c) <==> p.Word?) && (Q.NegationFree(c) <==> !p.Not?)
  }

  lemma PartIsCalm(p: Part)
    ensures PartClass(p)
  {
  }

  /** All that can be unsafe about the query is what its OR took from the inner AND. */
  lemma OuterIsSafe(w: Text, q: Text, parts: seq<Part>)
    requires CalmQuery(Inner(parts))
    ensures DriveSafeQuery(Query(w, q, parts))
  {
    hide Inner, DriveSafeQuery, ProbeSafeQuery, CalmQuery;
    if Q.Driveable(Inner(parts)) { InnerIsDriveSafe(parts); }
    OrIsSafe(q, Inner(parts));
    RootIsSafe(w, Q.AstOr([TermAst(q, false), Inner(parts)]));
  }

  lemma OrIsSafe(q: Text, inner: Q.Ast)
    requires CalmQuery(inner) && (Q.Driveable(inner) ==> DriveSafeQuery(inner))
    ensures var outer := Q.AstOr([TermAst(q, false), inner]);
            ProbeSafeQuery(outer) && (Q.Driveable(outer) ==> DriveSafeQuery(outer))
  {
    var cs := [TermAst(q, false), inner];
    assert cs[0] == TermAst(q, false) && cs[1] == inner;
    assert DriveSafeQuery(cs[0]) && CalmQuery(cs[0]);
    if Q.Driveable(Q.AstOr(cs)) { assert Q.Driveable(cs[1]); }
  }

  lemma RootIsSafe(w: Text, outer: Q.Ast)
    requires ProbeSafeQuery(outer) && (Q.Driveable(outer) ==> DriveSafeQuery(outer))
    ensures DriveSafeQuery(Q.AstAnd([TermAst(w, false), outer]))
  {
    var cs := [TermAst(w, false), outer];
    assert cs[0] == TermAst(w, false) && cs[1] == outer && Q.Driveable(cs[0]);
    assert DriveSafeQuery(cs[0]) && ProbeSafeQuery(cs[0]);
  }

  lemma InnerIsDriveSafe(parts: seq<Part>)
    requires Q.Driveable(Inner(parts))
    ensures DriveSafeQuery(Inner(parts))
  {
    forall j | 0 <= j < |parts| ensures PartClass(parts[j]) { PartIsCalm(parts[j]); }
  }

  // ---------------------------------------------------------------- the index that shows it

  /** The documents of a word of parts[j..]: the driving OR's are 1 and 2, the passed word's 1 and 2 too. */
  function HomeFrom(parts: seq<Part>, i: nat, k: nat, t: Text, j: nat): seq<nat>
    requires j <= |parts|
    decreases |parts| - j
  {
    if j == |parts| then []
    else if t !in Names(parts[j]) then HomeFrom(parts, i, k, t, j + 1)
    else match parts[j]
      case Word(_) => [1, 3, 4]
      case Not(_) => if j == k then [1, 2] else []
      case Either(x, _) => if t == x then [1] else if j == i then [2] else [2, 3]
  }

  function Home(w: Text, q: Text, parts: seq<Part>, i: nat, k: nat, t: Text): seq<nat> {
    if t == w then [1] else if t == q then [5] else HomeFrom(parts, i, k, t, 0)
  }

  function AllNames(parts: seq<Part>): set<Text> {
    set j, t | 0 <= j < |parts| && t in Names(parts[j]) :: t
  }

  function On(docs: seq<nat>): (r: seq<Post>)
    ensures |r| == |docs| && forall j | 0 <= j < |r| :: r[j] == Post(docs[j], 1)
  {
    seq(|docs|, j requires 0 <= j < |docs| => Post(docs[j], 1))
  }

  /** One place in each document, and true document counts. */
  function WrongIndex(w: Text, q: Text, parts: seq<Part>, i: nat, k: nat): Index {
    map t | t in AllNames(parts) + {w, q} :: PostingList(On(Home(w, q, parts, i, k, t)), |Home(w, q, parts, i, k, t)|)
  }

  lemma {:induction false} HomeShape(parts: seq<Part>, i: nat, k: nat, t: Text, j: nat)
    requires j <= |parts|
    ensures HomeFrom(parts, i, k, t, j) in [[], [1], [2], [1, 2], [2, 3], [1, 3, 4]]
    ensures (forall l | j <= l < |parts| :: t !in Names(parts[l])) ==> HomeFrom(parts, i, k, t, j) == []
    decreases |parts| - j
  {
    if j < |parts| { HomeShape(parts, i, k, t, j + 1); }
  }

  lemma IndexIsValid(w: Text, q: Text, parts: seq<Part>, i: nat, k: nat)
    ensures ValidIndex(WrongIndex(w, q, parts, i, k))
    ensures forall t :: ListOf(WrongIndex(w, q, parts, i, k), t) ==
                        PostingList(On(Home(w, q, parts, i, k, t)), |Home(w, q, parts, i, k, t)|)
  {
    forall t
      ensures Home(w, q, parts, i, k, t) in [[], [1], [2], [5], [1, 2], [2, 3], [1, 3, 4]]
      ensures t !in AllNames(parts) + {w, q} ==> Home(w, q, parts, i, k, t) == []
    {
      HomeShape(parts, i, k, t, 0);
    }
    assert On([]) == [];
    forall t ensures Ascending(On(Home(w, q, parts, i, k, t))) { HomeAscends(Home(w, q, parts, i, k, t)); }
  }

  lemma HomeAscends(docs: seq<nat>)
    requires docs in [[], [1], [2], [5], [1, 2], [2, 3], [1, 3, 4]]
    ensures Ascending(On(docs))
  {
  }

  /** The documents of a part's own words. */
  lemma {:induction false} HomeOf(w: Text, q: Text, parts: seq<Part>, i: nat, k: nat, t: Text, j: nat, l: nat)
    requires DistinctWords(w, q, parts) && l <= j < |parts| && t in Names(parts[j])
    ensures HomeFrom(parts, i, k, t, l) == HomeFrom(parts, i, k, t, j)
    ensures t != w && t != q
    decreases j - l
  {
    if l < j { HomeOf(w, q, parts, i, k, t, j, l + 1); }
  }

  // ---------------------------------------------------------------- one leaf

  function One(negated: bool, docs: seq<nat>, taken: nat): Node {
    Leaf(negated, [Cursor(On(docs), |docs|, taken, false)])
  }

  lemma BuiltLeaf(index: Index, t: Text, negated: bool, docs: seq<nat>)
    requires ValidIndex(index) && ListOf(index, t) == PostingList(On(docs), |docs|)
    ensures Build(TermAst(t, negated), index) == One(negated, docs, 0)
  {
    assert WordsOf(Q.TermData(t, negated, false, 0)) == [t];
    assert OpenAll(index, [t]) == [Open(index, t)];
  }

  ghost predicate OneValid(docs: seq<nat>, taken: nat) {
    Ascending(On(docs)) && taken <= |docs|
  }

  /** The next post's document is the answer; without a next post the leaf stays where it is. */
  lemma NextOne(negated: bool, docs: seq<nat>, taken: nat)
    requires OneValid(docs, taken)
    ensures Valid(One(negated, docs, taken))
    ensures NextDoc(One(negated, docs, taken)) ==
            if taken == |docs| then (One(negated, docs, taken), 0) else (One(negated, docs, taken + 1), docs[taken])
  {
    hide Walk, AdvanceTo;
    var c := Cursor(On(docs), |docs|, taken, false);
    NextPost(c);
    assert [c][0 := AdvanceToNextDoc(c).0] == [AdvanceToNextDoc(c).0];
  }

  lemma NextPost(c: Cursor)
    requires c.Valid() && !c.pending && forall j | 0 <= j < |c.posts| - 1 :: c.posts[j].doc < c.posts[j + 1].doc
    ensures AdvanceToNextDoc(c) ==
            if c.taken == |c.posts| then (c, NO_POST) else (c.(taken := c.taken + 1), c.posts[c.taken])
  {
    if c.taken < |c.posts| {
      var c' := c.(taken := c.taken + 1);
      assert c.Here().doc < c.posts[c.taken].doc;
      assert Walk(c', c.Here().doc + 1) == (c', c.posts[c.taken]);
    }
  }

  /** A probe at or before the present document does not move. */
  lemma ProbeStays(negated: bool, docs: seq<nat>, taken: nat, d: nat)
    requires OneValid(docs, taken) && 0 < d && 0 < taken && d <= docs[taken - 1]
    ensures Valid(One(negated, docs, taken))
    ensures Probe(One(negated, docs, taken), d) == (One(negated, docs, taken), (docs[taken - 1] == d) != negated)
  {
    var c := Cursor(On(docs), |docs|, taken, false);
    assert [c][0 := c] == [c];
  }

  /** One beyond it moves to the next post if that is far enough. */
  lemma ProbeMoves(negated: bool, docs: seq<nat>, taken: nat, d: nat)
    requires OneValid(docs, taken) && taken < |docs| && (taken == 0 || docs[taken - 1] < d) && 0 < d <= docs[taken]
    ensures Valid(One(negated, docs, taken))
    ensures Probe(One(negated, docs, taken), d) == (One(negated, docs, taken + 1), (docs[taken] == d) != negated)
  {
    hide Walk, AdvanceTo;
    var c := Cursor(On(docs), |docs|, taken, false);
    OnePostOn(c, d);
    assert [c][0 := AdvanceTo(c, d).0] == [AdvanceTo(c, d).0];
  }

  lemma OnePostOn(c: Cursor, d: nat)
    requires c.Valid() && !c.pending && c.taken < |c.posts| && c.Here().doc < d <= c.posts[c.taken].doc
    ensures AdvanceTo(c, d) == (c.(taken := c.taken + 1), c.posts[c.taken])
  {
    var c' := c.(taken := c.taken + 1);
    assert Walk(c', d) == (c', c.posts[c.taken]);
  }

  /** One beyond the last post finds nothing. */
  lemma ProbeRunsOut(negated: bool, docs: seq<nat>, d: nat)
    requires OneValid(docs, |docs|) && 0 < d && (docs == [] || docs[|docs| - 1] < d)
    ensures Valid(One(negated, docs, |docs|))
    ensures Probe(One(negated, docs, |docs|), d) == (One(negated, docs, |docs|), negated)
  {
    var c := Cursor(On(docs), |docs|, |docs|, false);
    assert AdvanceTo(c, d) == (c, NO_POST);
    assert [c][0 := c] == [c];
  }

  // ---------------------------------------------------------------- the parts of the inner AND

  /** An OR of two words whose cursors stand at their first documents. */
  function Two(docsX: seq<nat>, docsY: seq<nat>, currentX: nat, currentY: nat, pending: nat): Node {
    Or([One(false, docsX, 1), One(false, docsY, 1)], [currentX, currentY], pending)
  }

  /** The OR that drives. */
  function Driver(currentX: nat, currentY: nat, pending: nat): Node {
    Two([1], [2], currentX, currentY, pending)
  }

  lemma BuiltOr2(a: Q.Ast, b: Q.Ast, index: Index)
    requires ValidIndex(index)
    ensures var (x, y) := (NextDoc(Build(a, index)), NextDoc(Build(b, index)));
            Build(Q.AstOr([a, b]), index) == Or([x.0, y.0], [x.1, y.1], 0)
  {
    hide NextDoc, Valid, Build;
    BuiltOrIs([a, b], index);
    var n := Build(Q.AstOr([a, b]), index);
    assert n.children == [n.children[0], n.children[1]] && n.current == [n.current[0], n.current[1]];
  }

  lemma BuiltOrIs(cs: seq<Q.Ast>, index: Index)
    requires ValidIndex(index)
    ensures var n := Build(Q.AstOr(cs), index);
            && n.Or? && |n.children| == |n.current| == |cs| && n.pendingAdvance == 0
            && forall i | 0 <= i < |cs| :: (n.children[i], n.current[i]) == NextDoc(Build(cs[i], index))
  {
    hide NextDoc, Valid;
  }

  lemma BuiltTwo(index: Index, x: Text, y: Text, docsX: seq<nat>, docsY: seq<nat>)
    requires ValidIndex(index) && OneValid(docsX, 0) && OneValid(docsY, 0) && docsX != [] && docsY != []
    requires ListOf(index, x) == PostingList(On(docsX), |docsX|) && ListOf(index, y) == PostingList(On(docsY), |docsY|)
    ensures Build(PartAst(Either(x, y)), index) == Two(docsX, docsY, docsX[0], docsY[0], 0)
  {
    BuiltLeaf(index, x, false, docsX);
    BuiltLeaf(index, y, false, docsY);
    NextOne(false, docsX, 0);
    NextOne(false, docsY, 0);
    hide NextDoc, Build, Valid, One, TermAst;
    BuiltOr2(TermAst(x, false), TermAst(y, false), index);
  }

  /** The driving OR's words have no second document: a child that moves runs out. */
  lemma DriverStep(cx: nat, cy: nat, pending: nat)
    requires pending != 0 ==> pending == cx || pending == cy
    ensures var cx' := if pending != 0 && cx == pending then 0 else cx;
            var cy' := if pending != 0 && cy == pending then 0 else cy;
            var m := MinDoc([cx', cy']);
            Valid(Driver(cx, cy, pending)) && NextDoc(Driver(cx, cy, pending)) == (Driver(cx', cy', m), m)
  {
    hide PhraseWalk.NextDoc, Walk, Total, Size, PlanOf;
    var n := Driver(cx, cy, pending);
    assert n.current[0] == cx && n.current[1] == cy;
    NextOne(false, [1], 1);
    NextOne(false, [2], 1);
    var (cs, docs) := AdvanceStanding(n);
    assert cs == n.children by {
      assert cs[0] == AdvanceChild(n, 0).0 && cs[1] == AdvanceChild(n, 1).0;
    }
    assert docs[0] == AdvanceChild(n, 0).1 && docs[1] == AdvanceChild(n, 1).1;
    assert docs == [docs[0], docs[1]];
  }

  lemma MinOfTwo(a: nat, b: nat)
    ensures MinDoc([a, b]) == if a == 0 then b else if b == 0 then a else if b < a then b else a
  {
    assert [a, b][..1] == [a] && [a][..0] == [];
  }

  /** The OR answers 1, then 2, then nothing. */
  lemma DriverRuns()
    ensures Valid(Driver(1, 2, 0)) && NextDoc(Driver(1, 2, 0)) == (Driver(1, 2, 1), 1)
    ensures Valid(Driver(1, 2, 1)) && NextDoc(Driver(1, 2, 1)) == (Driver(0, 2, 2), 2)
    ensures Valid(Driver(0, 2, 2)) && NextDoc(Driver(0, 2, 2)) == (Driver(0, 0, 0), 0)
    ensures Valid(Driver(0, 0, 0))
  {
    hide NextDoc, Valid, Driver;
    MinOfTwo(1, 2);
    MinOfTwo(0, 2);
    MinOfTwo(0, 0);
    DriverStep(1, 2, 0);
    DriverStep(1, 2, 1);
    DriverStep(0, 2, 2);
    DriverStep(0, 0, 0);
  }

  lemma Answer(cs: seq<Node>, skip: int, doc: nat, answer: bool)
    requires AllValid(cs) && |cs| == 2 && 0 < doc
    ensures FirstAnswer(cs, skip, doc, answer, 0) ==
            if skip != 0 && Probe(cs[0], doc).1 == answer then 0
            else if skip != 1 && Probe(cs[1], doc).1 == answer then 1 else 2
  {
    assert FirstAnswer(cs, skip, doc, answer, 2) == 2;
    assert FirstAnswer(cs, skip, doc, answer, 1) ==
           if skip != 1 && Probe(cs[1], doc).1 == answer then 1 else 2;
  }

  /** x stands at document 1 for good, so the OR says yes there whatever else it has done. */
  lemma TwoSaysYes(docsY: seq<nat>, cx: nat, cy: nat)
    requires OneValid(docsY, 1)
    ensures Valid(Two([1], docsY, cx, cy, 0)) && Probe(Two([1], docsY, cx, cy, 0), 1) == (Two([1], docsY, cx, cy, 0), true)
  {
    hide One, Probe;
    ProbeStays(false, [1], 1, 1);
    var n := Two([1], docsY, cx, cy, 0);
    assert Valid(n.children[0]) && Valid(n.children[1]) by { OneIsValid(docsY); }
    Answer(n.children, -1, 1, true);
    assert ProbeUpTo(n.children, -1, 1, 0) == n.children;
    ProbeOrIs(n, 1);
  }

  lemma OneIsValid(docs: seq<nat>)
    requires OneValid(docs, 1)
    ensures Valid(One(false, docs, 1))
  {
  }

  lemma ProbeOrIs(n: Node, d: nat)
    requires Valid(n) && n.Or? && 0 < d
    ensures var stop := FirstAnswer(n.children, -1, d, true, 0);
            Probe(n, d) == (Or(ProbeUpTo(n.children, -1, d, stop), n.current, n.pendingAdvance), stop < |n.children|)
  {
  }

  /** A part that says yes to 1 and to 2 and does not move. */
  ghost predicate Fixed(n: Node) {
    Valid(n) && Probe(n, 1) == (n, true) && Probe(n, 2) == (n, true)
  }

  lemma OtherNotIsFixed()
    ensures Fixed(One(true, [], 0))
  {
    ProbeRunsOut(true, [], 1);
    ProbeRunsOut(true, [], 2);
  }

  lemma OtherEitherIsFixed()
    ensures Fixed(Two([1], [2, 3], 1, 2, 0))
  {
    hide One, Probe;
    OneIsValid([2, 3]);
    OneIsValid([1]);
    TwoSaysYes([2, 3], 1, 2);
    ProbeRunsOut(false, [1], 2);
    ProbeStays(false, [2, 3], 1, 2);
    var n := Two([1], [2, 3], 1, 2, 0);
    Answer(n.children, -1, 2, true);
    assert ProbeUpTo(n.children, -1, 2, 1) == n.children;
    ProbeOrIs(n, 2);
  }

  /** The parts of the inner AND as built: those before k stay put, and all but k say yes to 1. */
  ghost predicate Kids(kids: seq<Node>, i: nat, k: nat) {
    && i < |kids| && k < |kids| && i != k && kids[i] == Driver(1, 2, 0) && kids[k] == One(true, [1, 2], 0)
    && (forall j | 0 <= j < |kids| && j != i && j != k :: Valid(kids[j]) && Probe(kids[j], 1).1)
    && forall j | 0 <= j < k && j != i :: Fixed(kids[j])
  }

  /** The AND with its driving OR in state e and the negated word after `taken` of its documents. */
  function State(kids: seq<Node>, i: nat, k: nat, taken: nat, e: Node): Node
    requires i < |kids| && k < |kids|
  {
    And(kids[i := e][k := One(true, [1, 2], taken)], i)
  }

  lemma PassedWord()
    ensures Valid(One(true, [1, 2], 0)) && Probe(One(true, [1, 2], 0), 1) == (One(true, [1, 2], 1), false)
    ensures Valid(One(true, [1, 2], 1)) && Probe(One(true, [1, 2], 1), 2) == (One(true, [1, 2], 2), false)
    ensures Valid(One(true, [1, 2], 2)) && Probe(One(true, [1, 2], 2), 1) == (One(true, [1, 2], 2), true)
  {
    ProbeMoves(true, [1, 2], 0, 1);
    ProbeMoves(true, [1, 2], 1, 2);
    ProbeStays(true, [1, 2], 2, 1);
  }

  lemma StateValid(kids: seq<Node>, i: nat, k: nat, taken: nat, e: Node)
    requires Kids(kids, i, k) && taken <= 2 && Valid(e)
    ensures Valid(State(kids, i, k, taken, e)) && AllValid(State(kids, i, k, taken, e).children)
  {
    hide Fixed, Probe;
    PassedWord();
  }

  /** The first child that says no, when all before it say yes. */
  lemma {:induction false} FirstNo(cs: seq<Node>, skip: int, doc: nat, k: nat, j: nat)
    requires AllValid(cs) && 0 < doc && j <= k < |cs| && k != skip && !Probe(cs[k], doc).1
    requires forall l | j <= l < k && l != skip :: Probe(cs[l], doc).1
    ensures FirstAnswer(cs, skip, doc, false, j) == k
    decreases k - j
  {
    hide Probe, Valid;
    if j < k { FirstNo(cs, skip, doc, k, j + 1); }
  }

  /** The negated word is the first to say no, and only its cursor moves. */
  lemma Rejected(kids: seq<Node>, i: nat, k: nat, taken: nat, e: Node, e': Node)
    requires Kids(kids, i, k) && taken < 2 && Valid(e)
    ensures Valid(State(kids, i, k, taken, e)) && AllValid(State(kids, i, k, taken, e).children)
    ensures var cs, doc := State(kids, i, k, taken, e).children, taken + 1;
            && FirstAnswer(cs, i, doc, false, 0) == k
            && ProbeUpTo(cs, i, doc, k)[i := e'] == State(kids, i, k, taken + 1, e').children
  {
    hide Probe, NextDoc, Valid, PlanOf, One, FirstAnswer, ProbeUpTo, Size, Driver;
    StateValid(kids, i, k, taken, e);
    PassedWord();
    var cs, doc := State(kids, i, k, taken, e).children, taken + 1;
    assert cs[i] == e && cs[k] == One(true, [1, 2], taken);
    forall l | 0 <= l < k && l != i ensures Probe(cs[l], doc) == (cs[l], true) {
      assert Fixed(kids[l]) && cs[l] == kids[l];
    }
    OnlyOneMoves(cs, i, k, doc, One(true, [1, 2], taken + 1));
    SameUpdates(kids, i, k, e, e', One(true, [1, 2], taken), One(true, [1, 2], taken + 1));
  }

  lemma OnlyOneMoves(cs: seq<Node>, i: nat, k: nat, doc: nat, moved: Node)
    requires AllValid(cs) && i < |cs| && k < |cs| && i != k && 0 < doc && Probe(cs[k], doc) == (moved, false)
    requires forall l | 0 <= l < k && l != i :: Probe(cs[l], doc) == (cs[l], true)
    ensures FirstAnswer(cs, i, doc, false, 0) == k
    ensures ProbeUpTo(cs, i, doc, k) == cs[k := moved]
  {
    hide Probe, Valid, FirstAnswer;
    FirstNo(cs, i, doc, k, 0);
  }

  lemma SameUpdates<T>(s: seq<T>, i: nat, k: nat, a: T, a': T, b: T, b': T)
    requires i < |s| && k < |s| && i != k
    ensures s[i := a][k := b][k := b'][i := a'] == s[i := a'][k := b']
  {
  }

  /** One round of the AND: its OR moves on, the negated word is probed and says no, nothing else moves. */
  lemma Round(kids: seq<Node>, i: nat, k: nat, taken: nat, e: Node, e': Node)
    requires Kids(kids, i, k) && taken < 2 && Valid(e) && Valid(e') && NextDoc(e) == (e', taken + 1)
    ensures Valid(State(kids, i, k, taken, e)) && Valid(State(kids, i, k, taken + 1, e'))
    ensures Leap(State(kids, i, k, taken, e)) == Leap(State(kids, i, k, taken + 1, e'))
  {
    hide Probe, NextDoc, Valid, PlanOf, One, FirstAnswer, ProbeUpTo, Size, Fixed, Leap, Driver;
    Rejected(kids, i, k, taken, e, e');
    StateValid(kids, i, k, taken + 1, e');
    var n := State(kids, i, k, taken, e);
    assert n.children[n.driver] == e;
    RejectedLeaps(n, taken + 1, State(kids, i, k, taken + 1, e'));
  }

  lemma RejectedLeaps(n: Node, doc: nat, next: Node)
    requires Valid(n) && n.And? && 0 <= n.driver && Valid(next) && next.And? && next.driver == n.driver && 0 < doc
    requires AllValid(n.children) && NextDoc(n.children[n.driver]).1 == doc
    requires var stop := FirstAnswer(n.children, n.driver, doc, false, 0);
             && stop < |n.children|
             && ProbeUpTo(n.children, n.driver, doc, stop)[n.driver := NextDoc(n.children[n.driver]).0] == next.children
    ensures Leap(n) == Leap(next)
  {
    hide Probe, NextDoc, Valid, PlanOf, FirstAnswer, ProbeUpTo, Size;
    assert Proposed(n) == next;
  }

  lemma RoundEnds(kids: seq<Node>, i: nat, k: nat, e: Node, e': Node)
    requires Kids(kids, i, k) && Valid(e) && NextDoc(e) == (e', 0)
    ensures Valid(State(kids, i, k, 2, e)) && Leap(State(kids, i, k, 2, e)) == (State(kids, i, k, 2, e'), 0)
  {
    hide NextDoc, Valid, Probe, One;
    StateValid(kids, i, k, 2, e);
    assert State(kids, i, k, 2, e).children[i := e'] == State(kids, i, k, 2, e').children;
  }

  /** Taking the AND's first document walks it to its end. */
  lemma RunsDry(kids: seq<Node>, i: nat, k: nat)
    requires Kids(kids, i, k)
    ensures Valid(And(kids, i)) && NextDoc(And(kids, i)) == (State(kids, i, k, 2, Driver(0, 0, 0)), 0)
  {
    hide Kids, Driver, Valid, State, Leap, NextDoc;
    DriverRuns();
    Round(kids, i, k, 0, Driver(1, 2, 0), Driver(1, 2, 1));
    Round(kids, i, k, 1, Driver(1, 2, 1), Driver(0, 2, 2));
    RoundEnds(kids, i, k, Driver(0, 2, 2), Driver(0, 0, 0));
    StateStarts(kids, i, k);
    NextIsLeap(kids, i);
  }

  lemma NextIsLeap(kids: seq<Node>, i: nat)
    requires Valid(And(kids, i))
    ensures NextDoc(And(kids, i)) == Leap(And(kids, i))
  {
    hide Valid;
  }

  lemma StateStarts(kids: seq<Node>, i: nat, k: nat)
    requires Kids(kids, i, k)
    ensures State(kids, i, k, 0, Driver(1, 2, 0)) == And(kids, i)
  {
    hide Fixed, Probe, Driver, One;
    assert kids[i := Driver(1, 2, 0)] == kids && kids[k := One(true, [1, 2], 0)] == kids;
  }

  /** Yet the dry AND says yes to 1: its OR still shows 1, and the negated word is past it. */
  lemma DrySaysYes(kids: seq<Node>, i: nat, k: nat)
    requires Kids(kids, i, k)
    ensures var n := State(kids, i, k, 2, Driver(0, 0, 0)); Valid(n) && Probe(n, 1).1
  {
    hide NextDoc, Valid, One, Two, FirstAnswer, Probe;
    DriverRuns();
    StateValid(kids, i, k, 2, Driver(0, 0, 0));
    PassedWord();
    TwoSaysYes([2], 0, 0);
    var cs := State(kids, i, k, 2, Driver(0, 0, 0)).children;
    forall j | 0 <= j < |cs| ensures Probe(cs[j], 1).1 {
      if j == k { assert cs[j] == One(true, [1, 2], 2); } else if j == i { assert cs[j] == Driver(0, 0, 0); } else { assert cs[j] == kids[j]; }
    }
    AllSayYes(cs, -1, 1, 0);
    ProbeAndIs(State(kids, i, k, 2, Driver(0, 0, 0)), 1);
  }

  lemma ProbeAndIs(n: Node, d: nat)
    requires Valid(n) && n.And? && 0 < d
    ensures AllValid(n.children) && Probe(n, d).1 == (FirstAnswer(n.children, -1, d, false, 0) == |n.children|)
  {
  }

  // ---------------------------------------------------------------- the whole query

  /** The parts as built on the index. */
  lemma KidBuilt(w: Text, q: Text, parts: seq<Part>, i: nat, k: nat, j: nat)
    requires DistinctWords(w, q, parts) && Hazard(parts, i, k) && j < |parts|
    ensures var index := WrongIndex(w, q, parts, i, k);
            && ValidIndex(index)
            && Build(PartAst(parts[j]), index) ==
                 match parts[j]
                 case Word(_) => One(false, [1, 3, 4], 0)
                 case Not(_) => One(true, if j == k then [1, 2] else [], 0)
                 case Either(_, _) => if j == i then Driver(1, 2, 0) else Two([1], [2, 3], 1, 2, 0)
  {
    hide Build, HomeFrom, WrongIndex, One, ListOf;
    var index := WrongIndex(w, q, parts, i, k);
    IndexIsValid(w, q, parts, i, k);
    forall t | t in Names(parts[j]) ensures Home(w, q, parts, i, k, t) == HomeFrom(parts, i, k, t, j) {
      HomeOf(w, q, parts, i, k, t, j, 0);
    }
    match parts[j]
    case Word(t) =>
      HomeHere(parts, i, k, t, j);
      BuiltLeaf(index, t, false, [1, 3, 4]);
    case Not(t) =>
      HomeHere(parts, i, k, t, j);
      BuiltLeaf(index, t, true, if j == k then [1, 2] else []);
    case Either(x, y) =>
      HomeHere(parts, i, k, x, j);
      HomeHere(parts, i, k, y, j);
      HomesAscend();
      BuiltTwo(index, x, y, [1], if j == i then [2] else [2, 3]);
  }

  lemma HomeHere(parts: seq<Part>, i: nat, k: nat, t: Text, j: nat)
    requires j < |parts| && t in Names(parts[j])
    ensures HomeFrom(parts, i, k, t, j) ==
            match parts[j]
            case Word(_) => [1, 3, 4]
            case Not(_) => if j == k then [1, 2] else []
            case Either(x, _) => if t == x then [1] else if j == i then [2] else [2, 3]
  {
  }

  lemma HomesAscend()
    ensures OneValid([1], 0) && OneValid([2], 0) && OneValid([2, 3], 0) && OneValid([1, 3, 4], 0)
  {
  }

  lemma KidsBuilt(w: Text, q: Text, parts: seq<Part>, i: nat, k: nat)
    requires DistinctWords(w, q, parts) && Hazard(parts, i, k)
    ensures var index := WrongIndex(w, q, parts, i, k);
            ValidIndex(index) && Kids(BuildAll(PartAsts(parts), index), i, k)
  {
    hide Build, WrongIndex, One, Two, Driver, Probe, Valid, HomeFrom;
    IndexIsValid(w, q, parts, i, k);
    var kids := BuildAll(PartAsts(parts), WrongIndex(w, q, parts, i, k));
    forall j | 0 <= j < |kids| ensures KidIs(parts, i, k, j, kids[j]) { KidBuilt(w, q, parts, i, k, j); }
    forall j | 0 <= j < |kids| && j != i && j != k
      ensures Valid(kids[j]) && Probe(kids[j], 1).1 && (j < k ==> Fixed(kids[j]))
    {
      match parts[j]
      case Word(_) => WordSaysYes();
      case Not(_) => OtherNotIsFixed();
      case Either(_, _) => OtherEitherIsFixed();
    }
  }

  ghost predicate KidIs(parts: seq<Part>, i: nat, k: nat, j: nat, n: Node)
    requires j < |parts|
  {
    n == match parts[j]
         case Word(_) => One(false, [1, 3, 4], 0)
         case Not(_) => One(true, if j == k then [1, 2] else [], 0)
         case Either(_, _) => if j == i then Driver(1, 2, 0) else Two([1], [2, 3], 1, 2, 0)
  }

  lemma WordSaysYes()
    ensures Valid(One(false, [1, 3, 4], 0)) && Probe(One(false, [1, 3, 4], 0), 1).1
  {
    HomesAscend();
    ProbeMoves(false, [1, 3, 4], 0, 1);
  }

  /** The driving OR is the rarest: two documents, every other part that could drive has three. */
  lemma DriverIsRarest(w: Text, q: Text, parts: seq<Part>, i: nat, k: nat)
    requires DistinctWords(w, q, parts) && Hazard(parts, i, k)
    ensures var index := WrongIndex(w, q, parts, i, k);
            ValidIndex(index) && Build(Inner(parts), index) == And(BuildAll(PartAsts(parts), index), i)
  {
    hide Build, WrongIndex, One, Two, Driver, Driveable, Estimate, PickDriver;
    IndexIsValid(w, q, parts, i, k);
    var index := WrongIndex(w, q, parts, i, k);
    var kids := BuildAll(PartAsts(parts), index);
    forall j | 0 <= j < |kids|
      ensures Driveable(PlanOf(kids[j])) <==> !parts[j].Not?
      ensures !parts[j].Not? ==> if j == i then Estimate(kids[j]) == 2 else Estimate(kids[j]) == 3
    {
      KidBuilt(w, q, parts, i, k, j);
      Estimates();
    }
    assert PickDriver(kids, |kids|) == i;
    BuiltAndIs(PartAsts(parts), index);
  }

  lemma BuiltAndIs(cs: seq<Q.Ast>, index: Index)
    requires ValidIndex(index)
    ensures Build(Q.AstAnd(cs), index) == And(BuildAll(cs, index), PickDriver(BuildAll(cs, index), |cs|))
  {
    hide PickDriver;
  }

  lemma Estimates()
    ensures Driveable(PlanOf(One(false, [1, 3, 4], 0))) && Estimate(One(false, [1, 3, 4], 0)) == 3
    ensures !Driveable(PlanOf(One(true, [1, 2], 0))) && !Driveable(PlanOf(One(true, [], 0)))
    ensures Driveable(PlanOf(Driver(1, 2, 0))) && Estimate(Driver(1, 2, 0)) == 2
    ensures Driveable(PlanOf(Two([1], [2, 3], 1, 2, 0))) && Estimate(Two([1], [2, 3], 1, 2, 0)) == 3
  {
    TwoEstimate([1], [2]);
    TwoEstimate([1], [2, 3]);
  }

  lemma TwoEstimate(docsX: seq<nat>, docsY: seq<nat>)
    requires |docsX| + |docsY| < UINT32_MAX
    ensures Driveable(PlanOf(Two(docsX, docsY, 1, 2, 0))) && Estimate(Two(docsX, docsY, 1, 2, 0)) == |docsX| + |docsY|
  {
    var n := Two(docsX, docsY, 1, 2, 0);
    assert PlanOf(n).parts == [PlanOf(n.children[0]), PlanOf(n.children[1])];
    assert Estimate(n.children[0]) == |docsX| && Estimate(n.children[1]) == |docsY|;
    assert SumEstimate(n.children, 0) == 0;
    assert SumEstimate(n.children, 1) == |docsX|;
    assert SumEstimate(n.children, 2) == |docsX| + |docsY|;
  }

  /** The outer OR after its children have been primed. */
  function Outer(dry: Node): Node {
    Or([One(false, [5], 1), dry], [5, 0], 0)
  }

  lemma OuterBuilt(w: Text, q: Text, parts: seq<Part>, i: nat, k: nat) returns (dry: Node)
    requires DistinctWords(w, q, parts) && Hazard(parts, i, k)
    ensures var index := WrongIndex(w, q, parts, i, k);
            && ValidIndex(index)
            && Build(TermAst(w, false), index) == One(false, [1], 0)
            && Build(Q.AstOr([TermAst(q, false), Inner(parts)]), index) == Outer(dry)
    ensures Valid(dry) && Probe(dry, 1).1
  {
    hide Build, WrongIndex, One, Driver, State, Probe, Valid, NextDoc, Inner, ListOf;
    var index := WrongIndex(w, q, parts, i, k);
    IndexIsValid(w, q, parts, i, k);
    KidsBuilt(w, q, parts, i, k);
    DriverIsRarest(w, q, parts, i, k);
    var kids := BuildAll(PartAsts(parts), index);
    RunsDry(kids, i, k);
    DrySaysYes(kids, i, k);
    dry := State(kids, i, k, 2, Driver(0, 0, 0));
    BuiltLeaf(index, w, false, [1]);
    BuiltLeaf(index, q, false, [5]);
    FiveAscends();
    NextOne(false, [5], 0);
    BuiltOr2(TermAst(q, false), Inner(parts), index);
  }

  lemma FiveAscends()
    ensures OneValid([5], 0) && OneValid([5], 1) && OneValid([1], 0)
  {
  }

  lemma OuterSaysYes(dry: Node)
    requires Valid(dry) && Probe(dry, 1).1
    ensures Valid(Outer(dry)) && Probe(Outer(dry), 1).1
  {
    hide Probe, One;
    FiveAscends();
    OneIsValid([5]);
    ProbeStays(false, [5], 1, 1);
    Answer(Outer(dry).children, -1, 1, true);
    ProbeOrIs(Outer(dry), 1);
  }

  lemma RootBuilt(w: Text, q: Text, parts: seq<Part>, index: Index, dry: Node)
    requires ValidIndex(index) && Build(TermAst(w, false), index) == One(false, [1], 0)
    requires Build(Q.AstOr([TermAst(q, false), Inner(parts)]), index) == Outer(dry)
    ensures Build(Query(w, q, parts), index) == And([One(false, [1], 0), Outer(dry)], 0)
  {
    hide NextDoc, Build, Driveable;
    var cs := [TermAst(w, false), Q.AstOr([TermAst(q, false), Inner(parts)])];
    var kids := BuildAll(cs, index);
    assert kids == [One(false, [1], 0), Outer(dry)];
    BuiltAndIs(cs, index);
    WordDrives(kids, dry);
  }

  lemma WordDrives(kids: seq<Node>, dry: Node)
    requires kids == [One(false, [1], 0), Outer(dry)]
    ensures PickDriver(kids, 2) == 0
  {
    hide PlanOf;
    assert Driveable(PlanOf(kids[0])) by { WordIsDriveable(); }
    OuterEstimate(dry);
    assert PickDriver(kids, 0) == -1;
    assert PickDriver(kids, 1) == 0;
  }

  lemma WordIsDriveable()
    ensures Driveable(PlanOf(One(false, [1], 0)))
  {
  }

  lemma OuterEstimate(dry: Node)
    ensures Estimate(Outer(dry)) >= 1 && Estimate(One(false, [1], 0)) == 1
  {
    var cs := Outer(dry).children;
    assert Estimate(cs[0]) == 1;
    assert SumEstimate(cs, 0) == 0;
    assert SumEstimate(cs, 1) == 1;
  }

  /** The run of the tree starts with document 1. */
  lemma RunStartsWrong(dry: Node)
    requires Valid(dry) && Probe(dry, 1).1
    ensures var n := And([One(false, [1], 0), Outer(dry)], 0); Valid(n) && 1 in Run(n)
  {
    hide Probe, One, PlanOf, Size;
    var n := And([One(false, [1], 0), Outer(dry)], 0);
    FiveAscends();
    NextOne(false, [1], 0);
    OuterSaysYes(dry);
    Answer(n.children, 0, 1, false);
    assert Accepted(n, 1);
    NextIsLeap(n.children, 0);
    assert NextDoc(n).1 == 1;
    RunBegins(n);
  }

  lemma RunBegins(n: Node)
    requires Valid(n) && NextDoc(n).1 != 0
    ensures NextDoc(n).1 in Run(n)
  {
    hide NextDoc, Valid, Size;
    RunStarts(n);
    assert Run(n)[0] == NextDoc(n).1;
  }

  lemma RunStarts(n: Node)
    requires Valid(n) && NextDoc(n).1 != 0
    ensures |Run(n)| > 0 && Run(n)[0] == NextDoc(n).1
  {
    hide NextDoc, Valid;
  }

  /** Document 1 holds the negated word, and not q. */
  lemma NotAskedFor(w: Text, q: Text, parts: seq<Part>, i: nat, k: nat)
    requires DistinctWords(w, q, parts) && Hazard(parts, i, k)
    ensures !Holds(Query(w, q, parts), WrongIndex(w, q, parts, i, k), 1)
  {
    hide WrongIndex, HomeFrom, ListOf;
    var index, z := WrongIndex(w, q, parts, i, k), parts[k].word;
    IndexIsValid(w, q, parts, i, k);
    HomeOf(w, q, parts, i, k, z, k, 0);
    HomeHere(parts, i, k, z, k);
    WordHolds(index, z, [1, 2], true);
    WordHolds(index, q, [5], false);
    assert !Holds(PartAsts(parts)[k], index, 1) && !Holds(Inner(parts), index, 1);
    var outer := Q.AstOr([TermAst(q, false), Inner(parts)]);
    assert outer.children[0] == TermAst(q, false) && outer.children[1] == Inner(parts);
    assert !Holds(outer, index, 1) && Query(w, q, parts).children[1] == outer;
  }

  lemma WordHolds(index: Index, t: Text, docs: seq<nat>, negated: bool)
    requires ListOf(index, t) == PostingList(On(docs), |docs|)
    ensures Holds(TermAst(t, negated), index, 1) <==> (1 in docs) != negated
  {
    var words := WordsOf(Q.TermData(t, negated, false, 0));
    assert words == [t];
    if 1 in docs {
      var j :| 0 <= j < |docs| && docs[j] == 1;
      assert On(docs)[j] == Post(1, 1);
      assert StandAt(index, words, 1, 1);
    }
    forall pos: nat | StandAt(index, words, 1, pos) ensures 1 in docs {
      assert Post(1, pos + 0) in ListOf(index, words[0]).posts;
    }
  }

  // ---------------------------------------------------------------- the exact condition

  /** On this index the executor lists exactly the documents the query asks for. */
  ghost predicate Right(a: Q.Ast, index: Index)
    requires ValidIndex(index)
  {
    forall doc: nat :: doc in Run(Build(a, index)) <==> Holds(a, index, doc)
  }

  /** A hazard is an index on which the first answer is a document the query does not ask for. */
  lemma HazardAnswersWrongly(w: Text, q: Text, parts: seq<Part>, i: nat, k: nat)
    requires DistinctWords(w, q, parts) && Hazard(parts, i, k)
    ensures var a, index := Query(w, q, parts), WrongIndex(w, q, parts, i, k);
            ValidIndex(index) && 1 in Run(Build(a, index)) && !Holds(a, index, 1) && !Right(a, index)
  {
    hide Build, WrongIndex, Run, Holds, Probe, One, Outer, Query;
    var dry := OuterBuilt(w, q, parts, i, k);
    RootBuilt(w, q, parts, WrongIndex(w, q, parts, i, k), dry);
    RunStartsWrong(dry);
    NotAskedFor(w, q, parts, i, k);
  }

  /** The smallest hazard: w (q | (x | y) -z), whatever the words, as long as they differ. */
  lemma ExecutorAnswersWrongly(w: Text, q: Text, x: Text, y: Text, z: Text) returns (index: Index)
    requires DistinctWords(w, q, [Either(x, y), Not(z)])
    ensures ValidIndex(index)
    ensures var a := Q.AstAnd([TermAst(w, false), Q.AstOr([TermAst(q, false),
                       Q.AstAnd([Q.AstOr([TermAst(x, false), TermAst(y, false)]), TermAst(z, true)])])]);
            Q.Driveable(a) && 1 in Run(Build(a, index)) && !Holds(a, index, 1)
  {
    hide Build, WrongIndex, Run, Holds;
    var parts := [Either(x, y), Not(z)];
    HazardAnswersWrongly(w, q, parts, 0, 1);
    assert PartAsts(parts) == [PartAst(parts[0]), PartAst(parts[1])];
    assert Q.Driveable(Query(w, q, parts).children[0]);
    index := WrongIndex(w, q, parts, 0, 1);
  }

  /** An AND in place of the inner OR is no hazard: a query like w (q | (x y) -z) is in the safe class. */
  lemma NestedAndIsSafe(w: Text, q: Text, words: seq<Q.Ast>, z: Text)
    requires words != [] && forall i | 0 <= i < |words| :: words[i].AstTerm? && !words[i].term.negated
    ensures DriveSafeQuery(Q.AstAnd([TermAst(w, false),
              Q.AstOr([TermAst(q, false), Q.AstAnd([Q.AstAnd(words), TermAst(z, true)])])]))
  {
    hide DriveSafeQuery, ProbeSafeQuery, SteadyQuery, CalmQuery, BlockingQuery, Q.Driveable, Q.NegationFree;
    AndOfWords(words);
    var inner := Q.AstAnd([Q.AstAnd(words), TermAst(z, true)]);
    BlockedAnd(Q.AstAnd(words), z);
    OrIsSafe(q, inner);
    RootIsSafe(w, Q.AstOr([TermAst(q, false), inner]));
  }

  lemma AndOfWords(words: seq<Q.Ast>)
    requires words != [] && forall i | 0 <= i < |words| :: words[i].AstTerm? && !words[i].term.negated
    ensures var a := Q.AstAnd(words);
            SteadyQuery(a) && BlockingQuery(a) && Q.Driveable(a) && DriveSafeQuery(a) && ProbeSafeQuery(a)
  {
    forall i | 0 <= i < |words|
      ensures SteadyQuery(words[i]) && BlockingQuery(words[i]) && Q.Driveable(words[i])
      ensures DriveSafeQuery(words[i]) && ProbeSafeQuery(words[i])
    {
    }
    assert Q.Driveable(words[0]) && BlockingQuery(words[0]);
  }

  lemma BlockedAnd(a: Q.Ast, z: Text)
    requires SteadyQuery(a) && BlockingQuery(a) && Q.Driveable(a) && DriveSafeQuery(a)
    ensures var inner := Q.AstAnd([a, TermAst(z, true)]); CalmQuery(inner) && Q.Driveable(inner) && DriveSafeQuery(inner)
  {
    hide SteadyQuery, BlockingQuery;
    var cs := [a, TermAst(z, true)];
    assert cs[0] == a && !Q.Driveable(cs[1]);
    BlockedSteady(a, z);
  }

  lemma BlockedSteady(a: Q.Ast, z: Text)
    requires SteadyQuery(a) && BlockingQuery(a) && Q.Driveable(a)
    ensures SteadyQuery(Q.AstAnd([a, TermAst(z, true)]))
  {
    hide BlockingQuery;
    var cs := [a, TermAst(z, true)];
    assert cs[0] == a && !Q.Driveable(cs[1]);
  }

  /** In this fragment the safe class is exact: a query is answered rightly on every index if and only if it is in it. */
  lemma FragmentExactly(w: Text, q: Text, parts: seq<Part>)
    requires DistinctWords(w, q, parts)
    ensures (forall index | ValidIndex(index) :: Right(Query(w, q, parts), index)) <==> DriveSafeQuery(Query(w, q, parts))
  {
    hide Build, WrongIndex, Run, Holds, DriveSafeQuery, Query;
    var a := Query(w, q, parts);
    if DriveSafeQuery(a) {
      forall index | ValidIndex(index) ensures Right(a, index) { QueryAnsweredExactly(a, index); }
    } else {
      var i, k := UnsafeHasHazard(w, q, parts);
      HazardAnswersWrongly(w, q, parts, i, k);
    }
  }

  /** The class is not necessary when a word occurs twice: in w (w | ...) the OR holds wherever it is probed. */
  lemma RepeatedWordIsRight(w: Text, rest: Q.Ast, index: Index)
    requires ValidIndex(index)
    ensures Right(Q.AstAnd([TermAst(w, false), Q.AstOr([TermAst(w, false), rest])]), index)
  {
    hide Build, Run;
    var t, outer := TermAst(w, false), Q.AstOr([TermAst(w, false), rest]);
    var a := Q.AstAnd([t, outer]);
    assert a.children[0] == t && a.children[1] == outer && outer.children[0] == t;
    assert Q.Driveable(a.children[0]);
    EveryRunBounded(a, index);
    forall doc: nat ensures Holds(a, index, doc) <==> Holds(t, index, doc) {
      assert Holds(t, index, doc) ==> Holds(outer.children[0], index, doc);
    }
    forall doc: nat | Possible(a, index, doc) ensures Holds(t, index, doc) { assert Possible(a.children[0], index, doc); }
  }
}
