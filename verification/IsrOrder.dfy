/**
  What holds of every run of the executor, exact or not: documents come out in
  strictly ascending order, and a query without positive words finds nothing
  (index_chunk/query_isr.h).
*/
module IsrOrder {
  import opened Postings
  import opened IsrTree
  import opened IsrBuild
  import PhraseWalk
  import Q = QueryAst

  /** Every document `n` can still drive to lies after `cur`. */
  ghost predicate Climbs(n: Node, cur: nat)
    requires Valid(n)
  {
    match n
    case Leaf(_, ss) => |ss| > 0 ==> cur <= ss[0].Here().doc || cur == 0
    case And(cs, driver) => driver >= 0 ==> Climbs(cs[driver], cur)
    case Or(cs, current, pending) =>
      forall i | 0 <= i < |cs| && current[i] != 0 ::
        Climbs(cs[i], current[i]) && (cur < current[i] || cur == current[i] == pending)
  }

  lemma {:induction false} NextClimbs(n: Node, cur: nat)
    requires Valid(n) && Climbs(n, cur)
    ensures var (n', doc) := NextDoc(n); doc != 0 ==> cur < doc && Climbs(n', doc)
    decreases PlanOf(n), 1, 0
  {
    match n
    case Leaf(_, ss) =>
      LeafClimbs(ss, cur);
    case And(_, driver) =>
      if driver >= 0 { LeapClimbs(n, cur); }
    case Or(cs, current, pending) =>
      hide Climbs;
      var (cs', docs) := AdvanceStanding(n);
      forall i | 0 <= i < |cs| && docs[i] != 0 ensures cur < docs[i] && Climbs(cs'[i], docs[i]) {
        OrChildClimbs(n, cur, i);
      }
      OrClimbs(cs', docs);
  }

  lemma LeafClimbs(ss: PhraseWalk.Streams, cur: nat)
    requires PhraseWalk.ValidStreams(ss) && (|ss| > 0 ==> cur <= ss[0].Here().doc || cur == 0)
    ensures var (tt, doc) := PhraseWalk.NextDoc(ss);
            doc != 0 ==> |tt| > 0 && cur < doc == tt[0].Here().doc
  {
    hide Walk, PhraseWalk.CheckAdjacency, PhraseWalk.NextHit;
    if |ss| > 0 {
      var (c, p) := AdvanceToNextDoc(ss[0]);
      PhraseWalk.NextHitSound(ss[0 := c], p);
      if p == NO_POST { PhraseWalk.NoGround(ss[0 := c]); }
    }
  }

  lemma OrClimbs(cs: seq<Node>, docs: seq<nat>)
    requires AllValid(cs) && |docs| == |cs|
    requires forall i | 0 <= i < |cs| && docs[i] != 0 :: Climbs(cs[i], docs[i])
    ensures var doc := MinDoc(docs); doc != 0 ==> Valid(Or(cs, docs, doc)) && Climbs(Or(cs, docs, doc), doc)
  {
  }

  lemma {:induction false} OrChildClimbs(n: Node, cur: nat, i: nat)
    requires Valid(n) && n.Or? && Climbs(n, cur) && i < |n.children|
    ensures var (c, doc) := AdvanceChild(n, i); doc != 0 ==> cur < doc && Climbs(c, doc)
    decreases PlanOf(n), 0, 0
  {
    if n.current[i] != 0 && Stands(n, i) { NextClimbs(n.children[i], n.current[i]); }
  }

  lemma {:induction false} LeapClimbs(n: Node, cur: nat)
    requires Valid(n) && n.And? && 0 <= n.driver && Climbs(n, cur)
    ensures var (n', doc) := Leap(n); doc != 0 ==> cur < doc && Climbs(n', doc)
    decreases PlanOf(n), 0, Size(n)
  {
    hide FirstAnswer, ProbeUpTo;
    NextClimbs(n.children[n.driver], cur);
    var (d, doc) := NextDoc(n.children[n.driver]);
    if doc != 0 {
      assert Proposed(n).children[n.driver] == d;
      if !Accepted(n, doc) { LeapClimbs(Proposed(n), doc); }
    }
  }

  lemma {:induction false} BuiltClimbs(a: Q.Ast, index: Index)
    requires ValidIndex(index)
    ensures Climbs(Build(a, index), 0)
  {
    var n := Build(a, index);
    match a
    case AstTerm(_) =>
    case AstAnd(cs) =>
      if n.driver >= 0 { BuiltClimbs(cs[n.driver], index); }
    case AstOr(cs) =>
      forall i | 0 <= i < |cs| && n.current[i] != 0 ensures Climbs(n.children[i], n.current[i]) {
        BuiltClimbs(cs[i], index);
        NextClimbs(Build(cs[i], index), 0);
      }
  }

  lemma {:induction false} RunClimbs(n: Node, cur: nat)
    requires Valid(n) && Climbs(n, cur)
    ensures Increasing(Run(n)) && forall d | d in Run(n) :: cur < d
    decreases Size(n)
  {
    hide Climbs, NextDoc;
    NextClimbs(n, cur);
    var (n', doc) := NextDoc(n);
    if doc != 0 {
      RunClimbs(n', doc);
      assert forall j | 0 <= j < |Run(n')| :: Run(n')[j] in Run(n');
    }
  }

  /** Whatever the query, its run is strictly ascending. */
  lemma EveryRunClimbs(a: Q.Ast, index: Index)
    requires ValidIndex(index)
    ensures Increasing(Run(Build(a, index)))
  {
    BuiltClimbs(a, index);
    RunClimbs(Build(a, index), 0);
  }

  // ---------------------------------------------------------------- the words of a query

  /** The leaves of one kind, in the order the arena makes them. */
  function Leaves(a: Q.Ast, phrases: bool): seq<Q.TermData>
    decreases a, 0
  {
    match a
    case AstTerm(t) => if t.isPhrase == phrases then [t] else []
    case AstAnd(cs) => LeavesUpTo(cs, |cs|, phrases)
    case AstOr(cs) => LeavesUpTo(cs, |cs|, phrases)
  }

  function LeavesUpTo(cs: seq<Q.Ast>, k: nat, phrases: bool): seq<Q.TermData>
    requires k <= |cs|
    decreases cs, k
  {
    if k == 0 then [] else LeavesUpTo(cs, k - 1, phrases) + Leaves(cs[k - 1], phrases)
  }

  /** Every positive leaf of the query, of either kind, has no word. */
  ghost predicate Wordless(a: Q.Ast) {
    match a
    case AstTerm(t) => !t.negated ==> WordsOf(t) == []
    case AstAnd(cs) => forall i | 0 <= i < |cs| :: Wordless(cs[i])
    case AstOr(cs) => forall i | 0 <= i < |cs| :: Wordless(cs[i])
  }

  /** A driveable query without a positive word finds nothing, so stopping early loses nothing. */
  lemma {:induction false} WordlessFindsNothing(a: Q.Ast, index: Index)
    requires ValidIndex(index) && Wordless(a) && Q.Driveable(a)
    ensures NextDoc(Build(a, index)).1 == 0
    decreases a
  {
    hide Build, NextDoc, Valid, ValidIndex;
    var n := Build(a, index);
    match a
    case AstTerm(t) =>
      WordlessLeaf(t, index);
    case AstAnd(cs) =>
      BuiltAndNodes(cs, index);
      DriverIsDriveable(cs, index);
      WordlessFindsNothing(cs[n.driver], index);
      AndIdle(n);
    case AstOr(cs) =>
      BuiltOrNodes(cs, index);
      forall i | 0 <= i < |cs| ensures n.current[i] == 0 {
        WordlessFindsNothing(cs[i], index);
      }
      OrIdle(n);
  }

  lemma WordlessLeaf(t: Q.TermData, index: Index)
    requires ValidIndex(index) && !t.negated && WordsOf(t) == []
    ensures NextDoc(Build(Q.AstTerm(t), index)).1 == 0
  {
    hide ValidIndex;
  }

  lemma AndIdle(n: Node)
    requires Valid(n) && n.And? && 0 <= n.driver && NextDoc(n.children[n.driver]).1 == 0
    ensures NextDoc(n).1 == 0
  {
  }

  lemma DriverIsDriveable(cs: seq<Q.Ast>, index: Index)
    requires ValidIndex(index) && Q.Driveable(Q.AstAnd(cs))
    ensures var n := Build(Q.AstAnd(cs), index);
            && 0 <= n.driver < |cs| == |n.children| && Q.Driveable(cs[n.driver])
            && n.children[n.driver] == Build(cs[n.driver], index)
  {
    hide PlanOf, Driveable, ValidIndex, Valid, NextDoc;
    var k :| 0 <= k < |cs| && Q.Driveable(cs[k]);
    BuildFlags(cs[k], index);
    var n := Build(Q.AstAnd(cs), index);
    assert Driveable(PlanOf(n.children[k]));
    BuildFlags(cs[n.driver], index);
  }

  lemma OrIdle(n: Node)
    requires Valid(n) && n.Or? && n.pendingAdvance == 0 && forall i | 0 <= i < |n.current| :: n.current[i] == 0
    ensures NextDoc(n).1 == 0
  {
    var docs := AdvanceStanding(n).1;
    assert forall i | 0 <= i < |docs| :: docs[i] == AdvanceChild(n, i).1 == 0;
  }

  lemma {:induction false} LeavesAreWords(a: Q.Ast)
    ensures Wordless(a) <==> forall t | (t in Leaves(a, false) || t in Leaves(a, true)) && !t.negated :: WordsOf(t) == []
    decreases a, 1, 0
  {
    match a
    case AstTerm(_) =>
    case AstAnd(cs) => LeavesUpToAreWords(cs, |cs|);
    case AstOr(cs) => LeavesUpToAreWords(cs, |cs|);
  }

  lemma {:induction false} LeavesUpToAreWords(cs: seq<Q.Ast>, k: nat)
    requires k <= |cs|
    ensures (forall i | 0 <= i < k :: Wordless(cs[i])) <==>
            forall t | (t in LeavesUpTo(cs, k, false) || t in LeavesUpTo(cs, k, true)) && !t.negated :: WordsOf(t) == []
    decreases cs, 0, k
  {
    hide Wordless, WordsOf;
    if k > 0 {
      LeavesUpToAreWords(cs, k - 1);
      LeavesAreWords(cs[k - 1]);
    }
  }
}
