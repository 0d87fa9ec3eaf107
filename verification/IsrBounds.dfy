/**
  What holds of every run of a driveable query, in or outside the class in which the
  executor is exact: no document the query asks for is lost, and a document it does not
  ask for can only be answered where a negated leaf fails to reject it
  (index_chunk/query_isr.h).
*/
module IsrBounds {
  import opened Bytes
  import opened Postings
  import opened IsrTree
  import opened IsrMeaning
  import opened IsrBuild
  import IsrOrder
  import PhraseWalk
  import Q = QueryAst

  // ---------------------------------------------------------------- nothing is lost

  /** A positive leaf with a hit in x that no cursor has passed. */
  ghost predicate HitKept(ss: PhraseWalk.Streams, x: nat)
    requires PhraseWalk.ValidStreams(ss)
  {
    exists pos: nat :: PhraseWalk.HitAt(ss, x, pos) && PhraseWalk.AllUnpassed(ss, x, pos)
  }

  /** x matches, and a probe of x will say so, whatever is probed before it. */
  ghost predicate Keeps(n: Node, x: nat)
    requires Valid(n)
  {
    match n
    case Leaf(negated, ss) => if negated then !PhraseIn(Words(ss), x) else HitKept(ss, x)
    case And(cs, _) => forall i | 0 <= i < |cs| :: Keeps(cs[i], x)
    case Or(cs, _, _) => exists i | 0 <= i < |cs| :: Keeps(cs[i], x)
  }

  /** x matches, and next_doc has not answered it yet but will. */
  ghost predicate Ahead(n: Node, x: nat)
    requires Valid(n)
    decreases n, 0
  {
    match n
    case Leaf(negated, ss) => !negated && HitKept(ss, x) && ss != [] && ss[0].Here().doc < x
    case And(cs, driver) =>
      && 0 <= driver && Ahead(cs[driver], x)
      && forall i | 0 <= i < |cs| && i != driver :: Keeps(cs[i], x)
    case Or(cs, current, pending) => exists i | 0 <= i < |cs| :: Waits(cs[i], current[i], pending, x)
  }

  /** Child of an OR that will bring x: it stands at x, unreported, or is still before it. */
  ghost predicate Waits(c: Node, current: nat, pending: nat, x: nat)
    requires Valid(c)
    decreases c, 1
  {
    current != 0 && if current == x then pending != x && Keeps(c, x) else current < x && Ahead(c, x)
  }

  lemma {:induction false} AheadKeeps(n: Node, x: nat)
    requires Valid(n) && Ahead(n, x)
    ensures Keeps(n, x)
    decreases n
  {
    match n
    case Leaf(_, _) =>
    case And(cs, driver) => AheadKeeps(cs[driver], x);
    case Or(cs, current, pending) =>
      var i :| 0 <= i < |cs| && Waits(cs[i], current[i], pending, x);
      if current[i] != x { AheadKeeps(cs[i], x); }
  }

  lemma ProbeLeafKeeps(negated: bool, ss: PhraseWalk.Streams, x: nat, d: nat)
    requires PhraseWalk.ValidStreams(ss) && 0 < d <= x && Keeps(Leaf(negated, ss), x)
    ensures Keeps(Probe(Leaf(negated, ss), d).0, x)
    ensures d == x ==> Probe(Leaf(negated, ss), d).1
  {
    hide PhraseWalk.Probe, PhraseWalk.AllUnpassed, Ascending, PhraseIn;
    var tt := PhraseWalk.Probe(ss, d).0;
    assert Words(tt) == Words(ss);
    if negated {
      if PhraseWalk.Probe(ss, d).1 {
        PhraseWalk.ProbeSound(ss, d);
        LeafMeaning(ss, d);
      }
    } else {
      var pos: nat :| PhraseWalk.HitAt(ss, x, pos) && PhraseWalk.AllUnpassed(ss, x, pos);
      PhraseWalk.ProbeKeeps(ss, d, x, pos);
      PhraseWalk.SameWordsSameHits(ss, tt, x, pos);
    }
  }

  /** Probing up to x keeps it, and probing x finds it. */
  lemma {:induction false} ProbeKeeps(n: Node, x: nat, d: nat)
    requires Valid(n) && 0 < d <= x && Keeps(n, x)
    ensures Keeps(Probe(n, d).0, x) && (d == x ==> Probe(n, d).1)
    decreases n
  {
    match n
    case Leaf(negated, ss) => ProbeLeafKeeps(negated, ss, x, d);
    case And(cs, _) =>
      forall i | 0 <= i < |cs| { ProbeKeeps(cs[i], x, d); }
    case Or(cs, _, _) =>
      var i :| 0 <= i < |cs| && Keeps(cs[i], x);
      ProbeKeeps(cs[i], x, d);
      var cs' := ProbeUpTo(cs, -1, d, FirstAnswer(cs, -1, d, true, 0));
      assert Keeps(cs'[i], x);
  }

  lemma NextLeafKeeps(ss: PhraseWalk.Streams, x: nat)
    requires PhraseWalk.ValidStreams(ss) && Ahead(Leaf(false, ss), x)
    ensures var (tt, r) := PhraseWalk.NextDoc(ss);
            0 < r <= x && HitKept(tt, x) && (r < x ==> Ahead(Leaf(false, tt), x))
  {
    hide PhraseWalk.NextDoc, PhraseWalk.AllUnpassed, Ascending;
    var (tt, r) := PhraseWalk.NextDoc(ss);
    var pos: nat :| PhraseWalk.HitAt(ss, x, pos) && PhraseWalk.AllUnpassed(ss, x, pos);
    PhraseWalk.NextDocKeeps(ss, x, pos);
    PhraseWalk.SameWordsSameHits(ss, tt, x, pos);
    NextStandsThere(ss);
  }

  /** The document a leaf answers is the one its first cursor stands in. */
  lemma NextStandsThere(ss: PhraseWalk.Streams)
    requires PhraseWalk.ValidStreams(ss) && ss != []
    ensures var (tt, r) := PhraseWalk.NextDoc(ss); r != 0 ==> tt[0].Here().doc == r && PhraseWalk.Found(ss, r)
  {
    hide Walk, PhraseWalk.CheckAdjacency, PhraseWalk.NextHit, PhraseWalk.HitAt;
    var (c, p) := AdvanceToNextDoc(ss[0]);
    var uu := ss[0 := c];
    PhraseWalk.NextHitSound(uu, p);
    if p == NO_POST { PhraseWalk.NoGround(uu); }
    var r := PhraseWalk.NextDoc(ss).1;
    if r != 0 {
      var pos: nat :| PhraseWalk.HitAt(uu, r, pos);
      PhraseWalk.SameWordsSameHits(ss, uu, r, pos);
    }
  }

  /** next_doc answers x or an earlier document, and then x is still ahead. */
  lemma {:induction false} NextKeeps(n: Node, x: nat)
    requires Valid(n) && Ahead(n, x)
    ensures var (n', r) := NextDoc(n);
            0 < r <= x && Keeps(n', x) && (r < x ==> Ahead(n', x))
    decreases PlanOf(n), 1, 0
  {
    match n
    case Leaf(_, ss) => NextLeafKeeps(ss, x);
    case And(_, _) => LeapKeeps(n, x);
    case Or(cs, current, pending) =>
      var (cs', docs) := AdvanceStanding(n);
      var i :| 0 <= i < |cs| && Waits(cs[i], current[i], pending, x);
      ChildKeeps(n, i, x);
      OrKeeps(cs', docs, i, x);
  }

  lemma {:induction false} ChildKeeps(n: Node, i: nat, x: nat)
    requires Valid(n) && n.Or? && i < |n.children| && Waits(n.children[i], n.current[i], n.pendingAdvance, x)
    ensures var (c, doc) := AdvanceChild(n, i); 0 < doc <= x && Keeps(c, x) && (doc < x ==> Ahead(c, x))
    decreases PlanOf(n), 0, 0
  {
    if n.current[i] != x { AheadKeeps(n.children[i], x); }
    if Stands(n, i) { NextKeeps(n.children[i], x); }
  }

  lemma OrKeeps(cs: seq<Node>, docs: seq<nat>, i: nat, x: nat)
    requires AllValid(cs) && |docs| == |cs| && i < |cs|
    requires 0 < docs[i] <= x && Keeps(cs[i], x) && (docs[i] < x ==> Ahead(cs[i], x))
    ensures var r := MinDoc(docs);
            var n := Or(cs, docs, r);
            Valid(n) && 0 < r <= x && Keeps(n, x) && (r < x ==> Ahead(n, x))
  {
    var r := MinDoc(docs);
    if r < x { assert Waits(cs[i], docs[i], r, x); }
  }

  lemma {:induction false} LeapKeeps(n: Node, x: nat)
    requires Valid(n) && n.And? && Ahead(n, x)
    ensures var (n', r) := Leap(n);
            0 < r <= x && Keeps(n', x) && (r < x ==> Ahead(n', x))
    decreases PlanOf(n), 0, Size(n)
  {
    hide FirstAnswer, Keeps, Ahead, Proposed, NextDoc, Probe, Size;
    AheadHasDriver(n, x);
    var doc := NextDoc(n.children[n.driver]).1;
    NextKeeps(n.children[n.driver], x);
    ProposedKeeps(n, x);
    if !Accepted(n, doc) { LeapKeeps(Proposed(n), x); }
  }

  lemma AheadHasDriver(n: Node, x: nat)
    requires Valid(n) && n.And? && Ahead(n, x)
    ensures 0 <= n.driver < |n.children| && AllValid(n.children) && Ahead(n.children[n.driver], x)
  {
  }

  /** One round of the leapfrog. */
  lemma {:induction false} ProposedKeeps(n: Node, x: nat)
    requires Valid(n) && n.And? && Ahead(n, x)
    requires var (d, r) := NextDoc(n.children[n.driver]); 0 < r <= x && Keeps(d, x) && (r < x ==> Ahead(d, x))
    ensures Keeps(Proposed(n), x)
    ensures var doc := NextDoc(n.children[n.driver]).1;
            (doc < x ==> Ahead(Proposed(n), x)) && (doc == x ==> Accepted(n, doc))
  {
    hide FirstAnswer, NextDoc, Probe, PlanOf, Size;
    var cs, driver := n.children, n.driver;
    var doc := NextDoc(cs[driver]).1;
    forall i | 0 <= i < |cs| && i != driver
      ensures Keeps(Proposed(n).children[i], x) && (doc == x ==> Probe(cs[i], doc).1)
    {
      ProbeKeeps(cs[i], x, doc);
    }
    if doc == x { AllSayYes(cs, driver, doc, 0); }
  }

  lemma {:induction false} AllSayYes(cs: seq<Node>, driver: int, doc: nat, i: nat)
    requires AllValid(cs) && 0 < doc && i <= |cs| && forall j | 0 <= j < |cs| && j != driver :: Probe(cs[j], doc).1
    ensures FirstAnswer(cs, driver, doc, false, i) == |cs|
    decreases |cs| - i
  {
    hide Probe, Valid;
    if i < |cs| { AllSayYes(cs, driver, doc, i + 1); }
  }

  // ---------------------------------------------------------------- the built tree

  lemma FreshLeafKeeps(t: Q.TermData, index: Index, x: nat)
    requires ValidIndex(index) && Holds(Q.AstTerm(t), index, x)
    ensures Keeps(Build(Q.AstTerm(t), index), x)
    ensures !t.negated ==> 0 < x && Ahead(Build(Q.AstTerm(t), index), x)
  {
    hide Ascending;
    var ss := OpenAll(index, WordsOf(t));
    BuildTermMeaning(t, index);
    LeafMeaning(ss, x);
    if !t.negated {
      var pos: nat :| PhraseWalk.HitAt(ss, x, pos);
      FreshUnpassed(ss, index, WordsOf(t), x, pos);
    }
  }

  lemma FreshUnpassed(ss: PhraseWalk.Streams, index: Index, words: seq<Text>, x: nat, pos: nat)
    requires ValidIndex(index) && ss == OpenAll(index, words) && PhraseWalk.HitAt(ss, x, pos)
    ensures 0 < x && PhraseWalk.AllUnpassed(ss, x, pos) && ss[0].Here().doc == 0
  {
    assert Post(x, pos + 0) in ss[0].posts;
  }

  /** A built tree keeps every document the query asks for; if it can be driven, they are all ahead. */
  lemma {:induction false} BuiltKeeps(a: Q.Ast, index: Index, x: nat)
    requires ValidIndex(index) && Holds(a, index, x) && 0 < x
    ensures Keeps(Build(a, index), x)
    ensures Q.Driveable(a) ==> Ahead(Build(a, index), x)
    decreases a, 0
  {
    hide NextDoc, PlanOf, Keeps, Ahead, Build;
    match a
    case AstTerm(t) => FreshLeafKeeps(t, index, x);
    case AstAnd(cs) =>
      forall i | 0 <= i < |cs| { BuiltKeeps(cs[i], index, x); }
      AndBuiltKeeps(cs, index, x);
    case AstOr(cs) =>
      var i :| 0 <= i < |cs| && Holds(cs[i], index, x);
      PrimedKeeps(cs[i], index, x);
      OrBuiltKeeps(cs, index, i, x);
  }

  lemma AndBuiltKeeps(cs: seq<Q.Ast>, index: Index, x: nat)
    requires ValidIndex(index)
    requires forall i | 0 <= i < |cs| :: Keeps(Build(cs[i], index), x) && (Q.Driveable(cs[i]) ==> Ahead(Build(cs[i], index), x))
    ensures Keeps(Build(Q.AstAnd(cs), index), x)
    ensures Q.Driveable(Q.AstAnd(cs)) ==> Ahead(Build(Q.AstAnd(cs), index), x)
  {
    hide NextDoc;
    if Q.Driveable(Q.AstAnd(cs)) {
      var n := Build(Q.AstAnd(cs), index);
      BuiltAnd(cs, index);
      forall i | 0 <= i < |cs| { BuildFlags(cs[i], index); }
    }
  }

  lemma OrBuiltKeeps(cs: seq<Q.Ast>, index: Index, i: nat, x: nat)
    requires ValidIndex(index) && i < |cs|
    requires var (c, r) := NextDoc(Build(cs[i], index));
             Keeps(c, x) && (Q.Driveable(cs[i]) ==> 0 < r <= x && (r < x ==> Ahead(c, x)))
    ensures Keeps(Build(Q.AstOr(cs), index), x)
    ensures Q.Driveable(Q.AstOr(cs)) && 0 < x ==> Ahead(Build(Q.AstOr(cs), index), x)
  {
    hide NextDoc;
    var n := Build(Q.AstOr(cs), index);
    assert Keeps(n.children[i], x);
    if Q.Driveable(Q.AstOr(cs)) && 0 < x { assert Waits(n.children[i], n.current[i], 0, x); }
  }

  /** Taking a child's first document, as add_child does, loses nothing either. */
  lemma {:induction false} PrimedKeeps(a: Q.Ast, index: Index, x: nat)
    requires ValidIndex(index) && Holds(a, index, x) && 0 < x
    ensures var (n', r) := NextDoc(Build(a, index));
            && Keeps(n', x)
            && (Q.Driveable(a) ==> 0 < r <= x && (r < x ==> Ahead(n', x)))
    decreases a, 1
  {
    var n := Build(a, index);
    BuiltKeeps(a, index, x);
    if Q.Driveable(a) {
      NextKeeps(n, x);
    } else {
      IdleKeeps(a, index, x);
    }
  }

  lemma IdleKeeps(a: Q.Ast, index: Index, x: nat)
    requires ValidIndex(index) && Keeps(Build(a, index), x) && !Q.Driveable(a)
    ensures Keeps(NextDoc(Build(a, index)).0, x)
  {
    hide Keeps, NextDoc, PlanOf;
    var n := Build(a, index);
    BuildFlags(a, index);
    match a
    case AstTerm(t) => IdleLeaf(OpenAll(index, WordsOf(t)), x);
    case AstAnd(cs) =>
      BuiltAnd(cs, index);
      UndriveableAnd(cs, index);
      UnmovedAnd(n);
    case AstOr(cs) => IdleOr(n, x);
  }

  lemma IdleLeaf(ss: PhraseWalk.Streams, x: nat)
    requires PhraseWalk.ValidStreams(ss) && Keeps(Leaf(true, ss), x)
    ensures Keeps(NextDoc(Leaf(true, ss)).0, x)
  {
    hide PhraseWalk.NextDoc, PhraseIn;
    assert Words(PhraseWalk.NextDoc(ss).0) == Words(ss);
  }

  lemma UndriveableAnd(cs: seq<Q.Ast>, index: Index)
    requires ValidIndex(index) && !Q.Driveable(Q.AstAnd(cs))
    ensures Build(Q.AstAnd(cs), index).And? && Build(Q.AstAnd(cs), index).driver < 0
  {
    hide NextDoc;
    BuiltAnd(cs, index);
    forall i | 0 <= i < |cs| { BuildFlags(cs[i], index); }
  }

  lemma IdleOr(n: Node, x: nat)
    requires Valid(n) && n.Or? && n.pendingAdvance == 0 && Keeps(n, x)
    ensures Keeps(NextDoc(n).0, x)
  {
    hide Valid;
    OrNextIs(n);
    assert AdvanceStanding(n).0 == n.children;
  }

  lemma {:induction false} RunKeeps(n: Node, x: nat)
    requires Valid(n) && Ahead(n, x)
    ensures x in Run(n)
    decreases Size(n)
  {
    hide Ahead, Keeps, NextDoc;
    NextKeeps(n, x);
    var (n', r) := NextDoc(n);
    if r < x { RunKeeps(n', x); }
  }

  /** Documents are numbered from 1: a driveable query never holds at 0. */
  lemma {:induction false} NeverAtZero(a: Q.Ast, index: Index)
    requires ValidIndex(index) && Q.Driveable(a)
    ensures !Holds(a, index, 0)
  {
    match a
    case AstTerm(t) => if Holds(a, index, 0) { FreshLeafKeeps(t, index, 0); }
    case AstAnd(cs) =>
      var i :| 0 <= i < |cs| && Q.Driveable(cs[i]);
      NeverAtZero(cs[i], index);
    case AstOr(cs) =>
      forall i | 0 <= i < |cs| { NeverAtZero(cs[i], index); }
  }

  // ---------------------------------------------------------------- nothing else than this is answered

  /** What a query asks for when its negated leaves are ignored. */
  ghost predicate Possible(a: Q.Ast, index: Index, doc: nat) {
    match a
    case AstTerm(t) => t.negated || exists pos: nat :: StandAt(index, WordsOf(t), doc, pos)
    case AstAnd(cs) => forall i | 0 <= i < |cs| :: Possible(cs[i], index, doc)
    case AstOr(cs) => exists i | 0 <= i < |cs| :: Possible(cs[i], index, doc)
  }

  ghost predicate Plausible(p: Plan, doc: nat) {
    match p
    case PLeaf(negated, words) => negated || PhraseIn(words, doc)
    case PAnd(parts, _) => forall i | 0 <= i < |parts| :: Plausible(parts[i], doc)
    case POr(parts) => exists i | 0 <= i < |parts| :: Plausible(parts[i], doc)
  }

  /** Wherever the cursors are, a yes is plausible. */
  lemma {:induction false} ProbePlausible(n: Node, d: nat)
    requires Valid(n) && 0 < d && Probe(n, d).1
    ensures Plausible(PlanOf(n), d)
    decreases n
  {
    match n
    case Leaf(negated, ss) =>
      if !negated {
        PhraseWalk.ProbeSound(ss, d);
        LeafMeaning(ss, d);
      }
    case And(cs, _) =>
      forall i | 0 <= i < |cs| ensures Plausible(PlanOf(n).parts[i], d) { ProbePlausible(cs[i], d); }
    case Or(cs, _, _) =>
      var i := FirstAnswer(cs, -1, d, true, 0);
      ProbePlausible(cs[i], d);
      assert Plausible(PlanOf(n).parts[i], d);
  }

  /** Every document an OR has noted for a child is plausible for that child. */
  ghost predicate Noted(n: Node)
    requires Valid(n)
  {
    match n
    case Leaf(_, _) => true
    case And(cs, _) => forall i | 0 <= i < |cs| :: Noted(cs[i])
    case Or(cs, current, _) =>
      forall i | 0 <= i < |cs| :: Noted(cs[i]) && (current[i] != 0 ==> Plausible(PlanOf(cs[i]), current[i]))
  }

  lemma {:induction false} ProbeNoted(n: Node, d: nat)
    requires Valid(n) && 0 < d && Noted(n)
    ensures Noted(Probe(n, d).0)
    decreases n
  {
    hide Plausible, PlanOf, FirstAnswer;
    match n
    case Leaf(_, _) =>
    case And(cs, _) => forall i | 0 <= i < |cs| { ProbeNoted(cs[i], d); }
    case Or(cs, _, _) => forall i | 0 <= i < |cs| { ProbeNoted(cs[i], d); }
  }

  /** What next_doc answers is plausible. */
  lemma {:induction false} NextPlausible(n: Node)
    requires Valid(n) && Noted(n)
    ensures var (n', r) := NextDoc(n); Noted(n') && (r != 0 ==> Plausible(PlanOf(n), r))
    decreases PlanOf(n), 1, 0
  {
    match n
    case Leaf(negated, ss) =>
      if ss != [] && PhraseWalk.NextDoc(ss).1 != 0 {
        NextStandsThere(ss);
        LeafMeaning(ss, PhraseWalk.NextDoc(ss).1);
      }
    case And(_, driver) => if driver >= 0 { LeapPlausible(n); }
    case Or(cs, _, _) =>
      hide Noted, Plausible;
      var (cs', docs) := AdvanceStanding(n);
      forall i | 0 <= i < |cs| ensures Noted(cs'[i]) && (docs[i] != 0 ==> Plausible(PlanOf(cs'[i]), docs[i])) {
        ChildPlausible(n, i);
      }
      OrPlausible(cs', docs);
      assert Plans(cs') == Plans(cs);
  }

  lemma OrPlausible(cs: seq<Node>, docs: seq<nat>)
    requires AllValid(cs) && |docs| == |cs|
    requires forall i | 0 <= i < |cs| :: Noted(cs[i]) && (docs[i] != 0 ==> Plausible(PlanOf(cs[i]), docs[i]))
    ensures var n := Or(cs, docs, MinDoc(docs));
            Valid(n) && Noted(n) && (MinDoc(docs) != 0 ==> Plausible(PlanOf(n), MinDoc(docs)))
  {
    var r := MinDoc(docs);
    var n := Or(cs, docs, r);
    if r != 0 {
      var i :| 0 <= i < |docs| && docs[i] == r;
      assert Plausible(PlanOf(n).parts[i], r);
    }
  }

  lemma {:induction false} ChildPlausible(n: Node, i: nat)
    requires Valid(n) && n.Or? && Noted(n) && i < |n.children|
    ensures var (c, doc) := AdvanceChild(n, i); Noted(c) && (doc != 0 ==> Plausible(PlanOf(c), doc))
    decreases PlanOf(n), 0, 0
  {
    if Stands(n, i) { NextPlausible(n.children[i]); }
  }

  lemma {:induction false} LeapPlausible(n: Node)
    requires Valid(n) && n.And? && 0 <= n.driver && Noted(n)
    ensures var (n', r) := Leap(n); Noted(n') && (r != 0 ==> Plausible(PlanOf(n), r))
    decreases PlanOf(n), 0, Size(n)
  {
    hide FirstAnswer, Noted, Plausible, Proposed, NextDoc, Probe, Size;
    var doc := NextDoc(n.children[n.driver]).1;
    NotedChild(n, n.driver);
    NextPlausible(n.children[n.driver]);
    ProposedPlausible(n);
    if doc != 0 && !Accepted(n, doc) { LeapPlausible(Proposed(n)); }
  }

  lemma NotedChild(n: Node, i: nat)
    requires Valid(n) && n.And? && Noted(n) && i < |n.children|
    ensures Valid(n.children[i]) && Noted(n.children[i])
  {
  }

  /** One round of the leapfrog. */
  lemma ProposedPlausible(n: Node)
    requires Valid(n) && n.And? && 0 <= n.driver && Noted(n)
    requires var (d, r) := NextDoc(n.children[n.driver]); Noted(d) && (r != 0 ==> Plausible(PlanOf(n.children[n.driver]), r))
    ensures Noted(Proposed(n))
    ensures var doc := NextDoc(n.children[n.driver]).1; doc != 0 && Accepted(n, doc) ==> Plausible(PlanOf(n), doc)
  {
    hide FirstAnswer, NextDoc, Probe, Size;
    var cs := n.children;
    var doc := NextDoc(cs[n.driver]).1;
    if doc != 0 {
      forall i | 0 <= i < |cs| && i != n.driver ensures Noted(Probe(cs[i], doc).0) { ProbeNoted(cs[i], doc); }
      forall i | 0 <= i < |cs| && i != n.driver && Probe(cs[i], doc).1 ensures Plausible(PlanOf(n).parts[i], doc) {
        ProbePlausible(cs[i], doc);
      }
    }
  }

  lemma NotedLeaf(t: Q.TermData, index: Index)
    requires ValidIndex(index)
    ensures Noted(Build(Q.AstTerm(t), index))
  {
  }

  lemma {:induction false} BuiltNoted(a: Q.Ast, index: Index)
    requires ValidIndex(index)
    ensures Noted(Build(a, index))
    decreases a
  {
    hide NextDoc, Plausible, PlanOf, Build, Valid, ValidIndex;
    match a
    case AstTerm(t) =>
      NotedLeaf(t, index);
    case AstAnd(cs) =>
      BuiltAndNodes(cs, index);
      forall i | 0 <= i < |cs| ensures Noted(Build(cs[i], index)) { BuiltNoted(cs[i], index); }
    case AstOr(cs) =>
      BuiltOrNodes(cs, index);
      forall i | 0 <= i < |cs|
        ensures var (c, r) := NextDoc(Build(cs[i], index)); Noted(c) && (r != 0 ==> Plausible(PlanOf(c), r))
      {
        BuiltNoted(cs[i], index);
        NextPlausible(Build(cs[i], index));
      }
  }

  lemma {:induction false} PlausibleMeaning(a: Q.Ast, index: Index, doc: nat)
    requires ValidIndex(index) && Plausible(PlanOf(Build(a, index)), doc)
    ensures Possible(a, index, doc)
    decreases a
  {
    hide Build, PlanOf, ValidIndex;
    match a
    case AstTerm(t) => LeafPlausible(t, index, doc);
    case AstAnd(cs) =>
      BuiltAnd(cs, index);
      forall i | 0 <= i < |cs| { PlausibleMeaning(cs[i], index, doc); }
    case AstOr(cs) =>
      BuiltOr(cs, index);
      var i :| 0 <= i < |cs| && Plausible(PlanOf(Build(a, index)).parts[i], doc);
      PlausibleMeaning(cs[i], index, doc);
  }

  lemma LeafPlausible(t: Q.TermData, index: Index, doc: nat)
    requires ValidIndex(index) && Plausible(PlanOf(Build(Q.AstTerm(t), index)), doc)
    ensures Possible(Q.AstTerm(t), index, doc)
  {
    BuildTermMeaning(t, index);
    if !t.negated { assert Holds(Q.AstTerm(t), index, doc); }
  }

  lemma {:induction false} RunPlausible(n: Node)
    requires Valid(n) && Noted(n)
    ensures forall doc | doc in Run(n) :: Plausible(PlanOf(n), doc)
    decreases Size(n)
  {
    hide Noted, NextDoc, Plausible;
    NextPlausible(n);
    var (n', r) := NextDoc(n);
    if r != 0 { RunPlausible(n'); }
  }

  // ---------------------------------------------------------------- every run

  /**
    Every driveable query, every index: the run ascends, it holds every document the
    query asks for, and whatever it holds beside satisfies the query but for its
    negated leaves.
  */
  lemma EveryRunBounded(a: Q.Ast, index: Index)
    requires ValidIndex(index) && Q.Driveable(a)
    ensures var run := Run(Build(a, index));
            && Increasing(run)
            && (forall doc: nat | Holds(a, index, doc) :: doc in run)
            && (forall doc: nat | doc in run :: Possible(a, index, doc))
  {
    hide Holds, Build, Run, Ahead, Keeps, Noted, Possible, Plausible, PlanOf, Q.Driveable;
    var n := Build(a, index);
    IsrOrder.EveryRunClimbs(a, index);
    NeverAtZero(a, index);
    forall doc: nat | Holds(a, index, doc) ensures doc in Run(n) {
      BuiltKeeps(a, index, doc);
      RunKeeps(n, doc);
    }
    BuiltNoted(a, index);
    RunPlausible(n);
    forall doc: nat | doc in Run(n) ensures Possible(a, index, doc) { PlausibleMeaning(a, index, doc); }
  }
}
