/**
  When the executor's answers are exactly the set semantics (index_chunk/query_isr.h).
  That nothing is lost is proved for every driveable query in IsrBounds; here is the
  other half, when no answer is wrong:

    Honest(n, lo)        a yes to a probe at or after lo is right, now and later;
    SteadyState(n)       however often n has been driven, it is honest about every document;
    DriveRight(n, cur)   what next_doc answers after cur is right.
*/
module IsrExact {
  import opened Bytes
  import opened Postings
  import PhraseWalk
  import opened IsrTree
  import opened IsrMeaning
  import opened IsrBuild
  import opened IsrBounds
  import opened IsrOrder
  import Q = QueryAst

  // ---------------------------------------------------------------- probing

  /** A positive leaf whose cursor stands at b or later, or an AND with such a part: it answers no below b. */
  ghost predicate Blocks(n: Node, b: nat)
    requires Valid(n)
  {
    match n
    case Leaf(negated, ss) => !negated && (ss == [] || b <= ss[0].Here().doc)
    case And(cs, _) => exists i | 0 <= i < |cs| :: Blocks(cs[i], b)
    case Or(_, _, _) => false
  }

  /**
    A negated leaf must not have passed what it is asked about.  An AND may ask its
    parts about documents they have passed as long as one of them answers no there.
  */
  ghost predicate Honest(n: Node, lo: nat)
    requires Valid(n)
    decreases n, 1
  {
    match n
    case Leaf(negated, ss) => negated ==> PhraseWalk.Ready(ss, Post(lo, 0))
    case And(_, _) => exists b: nat :: HonestFrom(n, lo, b)
    case Or(cs, _, _) => forall i | 0 <= i < |cs| :: Honest(cs[i], lo)
  }

  ghost predicate HonestFrom(n: Node, lo: nat, b: nat)
    requires Valid(n) && n.And?
    decreases n, 0
  {
    && lo <= b
    && (forall i | 0 <= i < |n.children| :: Honest(n.children[i], b))
    && (b == lo || Blocks(n, b))
  }

  function Max(a: nat, b: nat): nat {
    if a < b then b else a
  }

  lemma {:induction false} ProbeBlocks(n: Node, d: nat, b: nat)
    requires Valid(n) && 0 < d && Blocks(n, b)
    ensures Blocks(Probe(n, d).0, b) && (d < b ==> !Probe(n, d).1)
    decreases n
  {
    match n
    case Leaf(_, ss) => if ss != [] { PhraseWalk.ProbeBehind(ss, d, b); }
    case And(cs, _) =>
      var i :| 0 <= i < |cs| && Blocks(cs[i], b);
      ProbeBlocks(cs[i], d, b);
      assert Blocks(ProbeUpTo(cs, -1, d, FirstAnswer(cs, -1, d, false, 0))[i], b);
  }

  lemma {:induction false} HonestLater(n: Node, lo: nat, lo': nat)
    requires Valid(n) && Honest(n, lo) && lo <= lo'
    ensures Honest(n, lo')
    decreases n
  {
    match n
    case Leaf(_, ss) => if n.negated { PhraseWalk.ReadyFromLater(ss, Post(lo, 0), Post(lo', 0)); }
    case And(cs, _) =>
      var b: nat :| HonestFrom(n, lo, b);
      forall i | 0 <= i < |cs| ensures Honest(cs[i], Max(b, lo')) { HonestLater(cs[i], b, Max(b, lo')); }
      assert HonestFrom(n, lo', Max(b, lo'));
    case Or(cs, _, _) => forall i | 0 <= i < |cs| { HonestLater(cs[i], lo, lo'); }
  }

  /** A yes from lo on is right, and the node stays honest from max(lo, d). */
  lemma {:induction false} ProbeHonest(n: Node, lo: nat, d: nat)
    requires Valid(n) && 0 < d && Honest(n, lo)
    ensures Honest(Probe(n, d).0, Max(lo, d))
    ensures lo <= d && Probe(n, d).1 ==> Matches(PlanOf(n), d)
    decreases n, 1
  {
    match n
    case Leaf(negated, ss) => ProbeLeafHonest(negated, ss, lo, d);
    case And(_, _) =>
      var b: nat :| HonestFrom(n, lo, b);
      ProbeAndHonest(n, lo, d, b);
    case Or(cs, _, _) =>
      var stop := FirstAnswer(cs, -1, d, true, 0);
      forall i | 0 <= i < |cs| ensures Honest(ProbeUpTo(cs, -1, d, stop)[i], Max(lo, d)) {
        ProbedHonest(cs, -1, d, stop, i, lo);
      }
      if lo <= d && stop < |cs| {
        ProbeHonest(cs[stop], lo, d);
        assert Matches(PlanOf(n).parts[stop], d);
      }
  }

  lemma ProbeLeafHonest(negated: bool, ss: PhraseWalk.Streams, lo: nat, d: nat)
    requires PhraseWalk.ValidStreams(ss) && 0 < d && Honest(Leaf(negated, ss), lo)
    ensures Honest(Probe(Leaf(negated, ss), d).0, Max(lo, d))
    ensures lo <= d && Probe(Leaf(negated, ss), d).1 ==> Matches(PlanOf(Leaf(negated, ss)), d)
  {
    hide PhraseWalk.Probe, PhraseWalk.Ready;
    LeafMeaning(ss, d);
    if negated {
      PhraseWalk.ProbeExact(ss, lo, d);
    } else if PhraseWalk.Probe(ss, d).1 {
      PhraseWalk.ProbeSound(ss, d);
    }
  }

  /** A child that was or was not reached by a probing loop. */
  lemma ProbedHonest(cs: seq<Node>, skip: int, d: nat, stop: nat, i: nat, lo: nat)
    requires AllValid(cs) && 0 < d && i < |cs| && Honest(cs[i], lo)
    ensures Honest(ProbeUpTo(cs, skip, d, stop)[i], Max(lo, d))
    decreases cs, 0
  {
    ProbeHonest(cs[i], lo, d);
    HonestLater(cs[i], lo, Max(lo, d));
  }

  lemma {:induction false} ProbeAndHonest(n: Node, lo: nat, d: nat, b: nat)
    requires Valid(n) && n.And? && 0 < d && HonestFrom(n, lo, b)
    ensures HonestFrom(Probe(n, d).0, Max(lo, d), Max(b, d))
    ensures lo <= d && Probe(n, d).1 ==> Matches(PlanOf(n), d)
    decreases n, 0
  {
    hide Honest, Blocks, Matches;
    var cs := n.children;
    var stop := FirstAnswer(cs, -1, d, false, 0);
    forall i | 0 <= i < |cs| ensures Honest(ProbeUpTo(cs, -1, d, stop)[i], Max(b, d)) {
      ProbedHonest(cs, -1, d, stop, i, b);
    }
    if b != lo { ProbeBlocks(n, d, b); }
    if b <= d && stop == |cs| {
      forall i | 0 <= i < |cs| ensures Matches(PlanOf(cs[i]), d) { ProbeHonest(cs[i], b, d); }
      AllPartsMatch(n, d);
    }
  }

  lemma AllPartsMatch(n: Node, d: nat)
    requires Valid(n) && n.And? && forall i | 0 <= i < |n.children| :: Matches(PlanOf(n.children[i]), d)
    ensures Matches(PlanOf(n), d)
  {
  }

  /** A node without negation is honest wherever its cursors are. */
  lemma {:induction false} NegationFreeHonest(n: Node, lo: nat)
    requires Valid(n) && NegationFree(PlanOf(n))
    ensures Honest(n, lo)
    decreases n
  {
    match n
    case Leaf(_, _) =>
    case And(cs, _) =>
      forall i | 0 <= i < |cs| ensures Honest(cs[i], lo) {
        assert NegationFree(PlanOf(n).parts[i]);
        NegationFreeHonest(cs[i], lo);
      }
      assert HonestFrom(n, lo, lo);
    case Or(cs, _, _) =>
      forall i | 0 <= i < |cs| ensures Honest(cs[i], lo) {
        assert NegationFree(PlanOf(n).parts[i]);
        NegationFreeHonest(cs[i], lo);
      }
  }

  // ---------------------------------------------------------------- the classes

  /** Whenever it says yes to a document, a positive leaf in it stands there, and it then blocks every earlier one. */
  predicate Blocking(p: Plan) {
    match p
    case PLeaf(negated, _) => !negated
    case PAnd(parts, _) => exists i | 0 <= i < |parts| :: Blocking(parts[i])
    case POr(_) => false
  }

  /** In the order of probing, a blocking part without negation comes before any part with negation. */
  predicate Guarded(parts: seq<Plan>, driver: int) {
    forall k | 0 <= k < |parts| && k != driver :: NegationFree(parts[k]) || GuardedAt(parts, driver, k)
  }

  predicate GuardedAt(parts: seq<Plan>, driver: int, k: nat)
    requires k <= |parts|
  {
    exists j | 0 <= j < k && j != driver :: NegationFree(parts[j]) && Blocking(parts[j])
  }

  /** May be driven any number of times and then be asked about any document. */
  predicate Steady(p: Plan)
    decreases p, 0
  {
    match p
    case PLeaf(negated, _) => !negated
    case PAnd(parts, driver) =>
      && 0 <= driver < |parts| && Steady(parts[driver])
      && (forall i | 0 <= i < |parts| && i != driver :: ProbeSafe(parts[i]))
      && (Blocking(parts[driver]) || Guarded(parts, driver))
    case POr(parts) => forall i | 0 <= i < |parts| :: Steady(parts[i])
  }

  /** May be driven once, as OrOp::add_child does, and then be asked about any document. */
  predicate Calm(p: Plan)
    decreases p, 1
  {
    match p
    case PLeaf(_, _) => true
    case PAnd(parts, driver) =>
      if driver < 0 then forall i | 0 <= i < |parts| :: ProbeSafe(parts[i]) else Steady(p)
    case POr(parts) => forall i | 0 <= i < |parts| :: Calm(parts[i])
  }

  /** May be probed: what an OR in it took while it was built does no harm. */
  predicate ProbeSafe(p: Plan)
    decreases p, 0
  {
    match p
    case PLeaf(_, _) => true
    case PAnd(parts, _) => forall i | 0 <= i < |parts| :: ProbeSafe(parts[i])
    case POr(parts) => forall i | 0 <= i < |parts| :: Calm(parts[i])
  }

  /** May be driven: the driver of an AND is driven, its other children are probed. */
  predicate DriveSafe(p: Plan) {
    match p
    case PLeaf(negated, _) => !negated
    case PAnd(parts, driver) =>
      && 0 <= driver < |parts| && DriveSafe(parts[driver])
      && forall i | 0 <= i < |parts| && i != driver :: ProbeSafe(parts[i])
    case POr(parts) => |parts| > 0 && forall i | 0 <= i < |parts| :: DriveSafe(parts[i])
  }

  // ---------------------------------------------------------------- steady nodes

  /** A driven AND: its driver is steady, its other children honest from where they were probed, and it blocks below. */
  ghost predicate SteadyState(n: Node)
    requires Valid(n)
  {
    match n
    case Leaf(negated, _) => !negated
    case And(cs, driver) => 0 <= driver && SteadyState(cs[driver]) && exists b: nat :: OthersHonest(n, b)
    case Or(cs, _, _) => forall i | 0 <= i < |cs| :: SteadyState(cs[i])
  }

  ghost predicate OthersHonest(n: Node, b: nat)
    requires Valid(n) && n.And?
  {
    && (forall i | 0 <= i < |n.children| && i != n.driver :: Honest(n.children[i], b))
    && (b == 0 || Blocks(n, b))
  }

  lemma {:induction false} SteadyHonest(n: Node)
    requires Valid(n) && SteadyState(n)
    ensures Honest(n, 0)
    decreases n
  {
    match n
    case Leaf(_, _) =>
    case And(cs, driver) =>
      var b: nat :| OthersHonest(n, b);
      SteadyHonest(cs[driver]);
      HonestLater(cs[driver], 0, b);
      assert HonestFrom(n, 0, b);
    case Or(cs, _, _) => forall i | 0 <= i < |cs| { SteadyHonest(cs[i]); }
  }

  /** A yes of a blocking node blocks everything before it. */
  lemma {:induction false} YesBlocks(n: Node, d: nat)
    requires Valid(n) && 0 < d && Blocking(PlanOf(n)) && Probe(n, d).1
    ensures Blocks(Probe(n, d).0, d)
    decreases n
  {
    match n
    case Leaf(_, ss) => PhraseWalk.ProbeStandsThere(ss, d);
    case And(cs, _) =>
      var i :| 0 <= i < |cs| && Blocking(PlanOf(n).parts[i]);
      YesBlocks(cs[i], d);
      assert Blocks(ProbeUpTo(cs, -1, d, FirstAnswer(cs, -1, d, false, 0))[i], d);
  }

  /** Driving never takes a block away, and an answer of a blocking node is one. */
  lemma {:induction false} NextBlocks(n: Node, b: nat)
    requires Valid(n)
    ensures var (n', r) := NextDoc(n);
            && (Blocks(n, b) ==> Blocks(n', b))
            && (r != 0 && Blocking(PlanOf(n)) ==> Blocks(n', r))
    decreases PlanOf(n), 1, 0
  {
    match n
    case Leaf(_, ss) =>
      if ss != [] {
        NextStandsThere(ss);
        PhraseWalk.MonotoneHere(ss[0], PhraseWalk.NextDoc(ss).0[0]);
      }
    case And(_, driver) => if driver >= 0 { LeapBlocks(n, b); }
    case Or(_, _, _) =>
  }

  lemma {:induction false} LeapBlocks(n: Node, b: nat)
    requires Valid(n) && n.And? && 0 <= n.driver
    ensures var (n', r) := Leap(n);
            && (Blocks(n, b) ==> Blocks(n', b))
            && (r != 0 && Blocking(PlanOf(n)) ==> Blocks(n', r))
    decreases PlanOf(n), 0, Size(n)
  {
    hide Blocks, Blocking, FirstAnswer, Proposed, NextDoc, Probe, Size;
    var doc := NextDoc(n.children[n.driver]).1;
    NextBlocks(n.children[n.driver], b);
    ProposedBlocks(n, b);
    if doc != 0 && !Accepted(n, doc) { LeapBlocks(Proposed(n), b); }
  }

  lemma ProposedBlocks(n: Node, b: nat)
    requires Valid(n) && n.And? && 0 <= n.driver
    requires var (c, r) := NextDoc(n.children[n.driver]);
             && (Blocks(n.children[n.driver], b) ==> Blocks(c, b))
             && (r != 0 && Blocking(PlanOf(n.children[n.driver])) ==> Blocks(c, r))
    ensures Blocks(n, b) ==> Blocks(Proposed(n), b)
    ensures var r := NextDoc(n.children[n.driver]).1; r != 0 && Accepted(n, r) && Blocking(PlanOf(n)) ==> Blocks(Proposed(n), r)
  {
    hide FirstAnswer, NextDoc, Probe, Size;
    var cs, driver := n.children, n.driver;
    var doc := NextDoc(cs[driver]).1;
    if i :| 0 <= i < |cs| && Blocks(cs[i], b) {
      if doc != 0 && i != driver { ProbeBlocks(cs[i], doc, b); }
      assert Blocks(Proposed(n).children[i], b);
    }
    if doc != 0 && Accepted(n, doc) && Blocking(PlanOf(n)) {
      var i :| 0 <= i < |cs| && Blocking(PlanOf(n).parts[i]);
      if i != driver { YesBlocks(cs[i], doc); }
      assert Blocks(Proposed(n).children[i], doc);
    }
  }

  /** Driving a steady node leaves it steady. */
  lemma {:induction false} NextSteady(n: Node)
    requires Valid(n) && Steady(PlanOf(n)) && SteadyState(n)
    ensures SteadyState(NextDoc(n).0)
    decreases PlanOf(n), 1, 0
  {
    match n
    case Leaf(_, _) =>
    case And(_, _) => LeapSteady(n);
    case Or(cs, _, _) =>
      forall i | 0 <= i < |cs| ensures SteadyState(AdvanceChild(n, i).0) {
        assert Steady(PlanOf(n).parts[i]);
        ChildSteady(n, i);
      }
      OrNextIs(n);
  }

  lemma {:induction false} ChildSteady(n: Node, i: nat)
    requires Valid(n) && n.Or? && i < |n.children| && Steady(PlanOf(n.children[i])) && SteadyState(n.children[i])
    ensures SteadyState(AdvanceChild(n, i).0)
    decreases PlanOf(n), 0, 0
  {
    if Stands(n, i) { NextSteady(n.children[i]); }
  }

  lemma {:induction false} LeapSteady(n: Node)
    requires Valid(n) && n.And? && Steady(PlanOf(n)) && SteadyState(n)
    ensures SteadyState(Leap(n).0)
    decreases PlanOf(n), 0, Size(n)
  {
    hide SteadyState, Steady, FirstAnswer, Proposed, NextDoc, Probe, Size;
    SteadyDriver(n);
    NextSteady(n.children[n.driver]);
    ProposedSteady(n);
    var doc := NextDoc(n.children[n.driver]).1;
    if doc != 0 && !Accepted(n, doc) { LeapSteady(Proposed(n)); }
  }

  lemma SteadyDriver(n: Node)
    requires Valid(n) && n.And? && Steady(PlanOf(n)) && SteadyState(n)
    ensures 0 <= n.driver < |n.children| && AllValid(n.children)
    ensures Steady(PlanOf(n.children[n.driver])) && SteadyState(n.children[n.driver])
  {
    assert PlanOf(n).parts[n.driver] == PlanOf(n.children[n.driver]);
  }

  /** One round of the leapfrog: the driver or a guard blocks whatever the others have now been asked beyond. */
  lemma ProposedSteady(n: Node)
    requires Valid(n) && n.And? && 0 <= n.driver && Steady(PlanOf(n)) && SteadyState(n)
    requires SteadyState(NextDoc(n.children[n.driver]).0)
    ensures SteadyState(Proposed(n))
  {
    hide FirstAnswer, NextDoc, Probe, Size, Honest, Blocks, SteadyState, Steady, Blocking, NegationFree, ProbeSafe, Guarded;
    var b := WhereHonest(n);
    var cs, driver := n.children, n.driver;
    var (d, doc) := NextDoc(cs[driver]);
    NextBlocks(cs[driver], b);
    ProposedBlocks(n, b);
    var n' := Proposed(n);
    if doc == 0 {
      assert OthersHonest(n', b);
    } else {
      var stop := FirstAnswer(cs, driver, doc, false, 0);
      forall i | 0 <= i < |cs| && i != driver ensures Honest(n'.children[i], Max(b, doc)) {
        ProbedHonest(cs, driver, doc, stop, i, b);
      }
      var blocked := BlockedBy(n, doc);
      if blocked {
        assert OthersHonest(n', Max(b, doc));
      } else {
        forall i | 0 <= i < |cs| && i != driver ensures Honest(n'.children[i], b) {
          if i <= stop { NegationFreeHonest(n'.children[i], b); }
        }
        assert OthersHonest(n', b);
      }
    }
    SteadyAgain(n');
  }

  lemma WhereHonest(n: Node) returns (b: nat)
    requires Valid(n) && n.And? && SteadyState(n)
    ensures OthersHonest(n, b)
  {
    b :| OthersHonest(n, b);
  }

  lemma SteadyAgain(n: Node)
    requires Valid(n) && n.And? && 0 <= n.driver && SteadyState(n.children[n.driver]) && exists b: nat :: OthersHonest(n, b)
    ensures SteadyState(n)
  {
  }

  /** Either the round has left a block at its candidate, or only parts without negation were asked. */
  lemma BlockedBy(n: Node, doc: nat) returns (yes: bool)
    requires Valid(n) && n.And? && 0 <= n.driver && Steady(PlanOf(n)) && 0 < doc == NextDoc(n.children[n.driver]).1
    ensures yes ==> Blocks(Proposed(n), doc)
    ensures !yes ==> forall i | 0 <= i < |n.children| && i != n.driver && i <= FirstAnswer(n.children, n.driver, doc, false, 0) ::
                       NegationFree(PlanOf(n.children[i]))
  {
    hide NextDoc, Probe, Size, FirstAnswer, Blocking, NegationFree;
    var cs, driver := n.children, n.driver;
    var parts, stop := PlanOf(n).parts, FirstAnswer(cs, driver, doc, false, 0);
    yes := false;
    if Blocking(parts[driver]) {
      NextBlocks(cs[driver], 0);
      assert Blocks(Proposed(n).children[driver], doc);
      yes := true;
    } else if k :| 0 <= k < |cs| && k != driver && k <= stop && !NegationFree(parts[k]) {
      assert GuardedAt(parts, driver, k);
      var j :| 0 <= j < k && j != driver && NegationFree(parts[j]) && Blocking(parts[j]);
      YesBlocks(cs[j], doc);
      assert Blocks(Proposed(n).children[j], doc);
      yes := true;
    }
  }

  // ---------------------------------------------------------------- driving

  /** next_doc has answered up to `cur`, and will answer only matches. */
  ghost predicate DriveRight(n: Node, cur: nat)
    requires Valid(n)
  {
    match n
    case Leaf(negated, _) => !negated
    case And(cs, driver) =>
      && 0 <= driver && DriveRight(cs[driver], cur)
      && forall i | 0 <= i < |cs| && i != driver :: Honest(cs[i], cur)
    case Or(cs, current, _) =>
      forall i | 0 <= i < |cs| && current[i] != 0 :: Matches(PlanOf(cs[i]), current[i]) && DriveRight(cs[i], current[i])
  }

  lemma {:induction false} NextRight(n: Node, cur: nat)
    requires Valid(n) && Climbs(n, cur) && DriveRight(n, cur)
    ensures var (n', r) := NextDoc(n); r != 0 ==> Matches(PlanOf(n), r) && DriveRight(n', r)
    decreases PlanOf(n), 1, 0
  {
    match n
    case Leaf(_, ss) =>
      if PhraseWalk.NextDoc(ss).1 != 0 {
        NextStandsThere(ss);
        LeafMeaning(ss, PhraseWalk.NextDoc(ss).1);
      }
    case And(_, _) => LeapRight(n, cur);
    case Or(cs, _, _) =>
      hide DriveRight, Climbs, Matches;
      var (cs', docs) := AdvanceStanding(n);
      forall i | 0 <= i < |cs| && docs[i] != 0 ensures Matches(PlanOf(cs'[i]), docs[i]) && DriveRight(cs'[i], docs[i]) {
        ChildRight(n, cur, i);
      }
      OrRight(cs', docs);
      assert Plans(cs') == Plans(cs);
  }

  lemma {:induction false} ChildRight(n: Node, cur: nat, i: nat)
    requires Valid(n) && n.Or? && Climbs(n, cur) && DriveRight(n, cur) && i < |n.children|
    ensures var (c, doc) := AdvanceChild(n, i); doc != 0 ==> Matches(PlanOf(c), doc) && DriveRight(c, doc)
    decreases PlanOf(n), 0, 0
  {
    if Stands(n, i) { NextRight(n.children[i], n.current[i]); }
  }

  lemma OrRight(cs: seq<Node>, docs: seq<nat>)
    requires AllValid(cs) && |docs| == |cs|
    requires forall i | 0 <= i < |cs| && docs[i] != 0 :: Matches(PlanOf(cs[i]), docs[i]) && DriveRight(cs[i], docs[i])
    ensures var r := MinDoc(docs);
            var n := Or(cs, docs, r);
            Valid(n) && (r != 0 ==> Matches(PlanOf(n), r) && DriveRight(n, r))
  {
    var r := MinDoc(docs);
    if r != 0 {
      var i :| 0 <= i < |docs| && docs[i] == r;
      assert Matches(PlanOf(Or(cs, docs, r)).parts[i], r);
    }
  }

  lemma {:induction false} LeapRight(n: Node, cur: nat)
    requires Valid(n) && n.And? && Climbs(n, cur) && DriveRight(n, cur)
    ensures var (n', r) := Leap(n); r != 0 ==> Matches(PlanOf(n), r) && DriveRight(n', r)
    decreases PlanOf(n), 0, Size(n)
  {
    hide FirstAnswer, DriveRight, Climbs, Matches, Proposed, NextDoc, Probe, Size;
    RightDriver(n, cur);
    var doc := NextDoc(n.children[n.driver]).1;
    NextRight(n.children[n.driver], cur);
    NextClimbs(n.children[n.driver], cur);
    if doc != 0 {
      ProposedRight(n, cur);
      if !Accepted(n, doc) { LeapRight(Proposed(n), doc); }
    }
  }

  lemma RightDriver(n: Node, cur: nat)
    requires Valid(n) && n.And? && Climbs(n, cur) && DriveRight(n, cur)
    ensures 0 <= n.driver < |n.children| && AllValid(n.children)
    ensures Climbs(n.children[n.driver], cur) && DriveRight(n.children[n.driver], cur)
  {
  }

  /** One round of the leapfrog. */
  lemma ProposedRight(n: Node, cur: nat)
    requires Valid(n) && n.And? && DriveRight(n, cur) && 0 <= n.driver
    requires var (d, r) := NextDoc(n.children[n.driver]);
             cur < r && Matches(PlanOf(n.children[n.driver]), r) && DriveRight(d, r) && Climbs(d, r)
    ensures var r := NextDoc(n.children[n.driver]).1;
            && Climbs(Proposed(n), r) && DriveRight(Proposed(n), r)
            && (Accepted(n, r) ==> Matches(PlanOf(n), r))
  {
    hide FirstAnswer, NextDoc, Probe, Size, Honest;
    var cs, driver := n.children, n.driver;
    var r := NextDoc(cs[driver]).1;
    var stop := FirstAnswer(cs, driver, r, false, 0);
    forall i | 0 <= i < |cs| && i != driver
      ensures Honest(Proposed(n).children[i], r) && (Probe(cs[i], r).1 ==> Matches(PlanOf(cs[i]), r))
    {
      ProbedHonest(cs, driver, r, stop, i, cur);
      ProbeHonest(cs[i], cur, r);
    }
    if stop == |cs| { AllPartsMatch(n, r); }
  }

  // ---------------------------------------------------------------- exact nodes

  /** From lo on every probe is answered as the set semantics says. */
  ghost predicate Exact(n: Node, lo: nat)
    requires Valid(n)
  {
    Honest(n, lo) && forall x | lo <= x && 0 < x && Matches(PlanOf(n), x) :: Keeps(n, x)
  }

  /**
    The probe theorem: whatever was probed before, the answer at d is right if d is
    not below lo, and the node stays exact from max(lo, d).
  */
  lemma ProbeExact(n: Node, lo: nat, d: nat)
    requires Valid(n) && 0 < d && Exact(n, lo)
    ensures Exact(Probe(n, d).0, Max(lo, d))
    ensures lo <= d ==> (Probe(n, d).1 <==> Matches(PlanOf(n), d))
  {
    hide Honest, Keeps, Probe, Matches, PlanOf;
    ProbeHonest(n, lo, d);
    forall x | Max(lo, d) <= x && Matches(PlanOf(n), x) ensures Keeps(Probe(n, d).0, x) && (x == d ==> Probe(n, d).1) {
      ProbeKeeps(n, x, d);
    }
  }

  /** Driven up to `cur`: what comes is right, and no match after cur is lost. */
  ghost predicate Driven(n: Node, cur: nat)
    requires Valid(n)
  {
    Climbs(n, cur) && DriveRight(n, cur) && forall x | cur < x && Matches(PlanOf(n), x) :: Ahead(n, x)
  }

  /**
    The next_doc theorem: from a node driven up to `cur`, next_doc answers the least
    match after cur, or 0 when there is none, and leaves the node driven up to its answer.
  */
  lemma NextExact(n: Node, cur: nat)
    requires Valid(n) && Driven(n, cur)
    ensures var (n', r) := NextDoc(n); NextIs(PlanOf(n), cur, r) && (r != 0 ==> Driven(n', r))
  {
    hide Climbs, DriveRight, Ahead, NextDoc, Matches, PlanOf;
    NextClimbs(n, cur);
    NextRight(n, cur);
    var (n', r) := NextDoc(n);
    forall x | cur < x && Matches(PlanOf(n), x) ensures 0 < r <= x && (r < x ==> Ahead(n', x)) { NextKeeps(n, x); }
  }

  // ---------------------------------------------------------------- the built tree

  /** A built tree is honest about every document; if it is calm, it is so after it has been driven once. */
  lemma {:induction false} BuiltHonest(a: Q.Ast, index: Index)
    requires ValidIndex(index) && ProbeSafe(PlanOf(Build(a, index)))
    ensures Honest(Build(a, index), 0)
    decreases a, 0
  {
    hide NextDoc;
    var n := Build(a, index);
    match a
    case AstTerm(t) => FreshLeafReady(index, WordsOf(t));
    case AstAnd(cs) =>
      forall i | 0 <= i < |cs| ensures Honest(n.children[i], 0) {
        assert ProbeSafe(PlanOf(n).parts[i]);
        BuiltHonest(cs[i], index);
      }
      assert HonestFrom(n, 0, 0);
    case AstOr(cs) =>
      forall i | 0 <= i < |cs| ensures Honest(n.children[i], 0) {
        assert Calm(PlanOf(n).parts[i]);
        PrimedHonest(cs[i], index);
      }
  }

  lemma {:induction false} BuiltSteady(a: Q.Ast, index: Index)
    requires ValidIndex(index) && Steady(PlanOf(Build(a, index)))
    ensures SteadyState(Build(a, index))
    decreases a, 0
  {
    hide NextDoc, Honest;
    var n := Build(a, index);
    match a
    case AstTerm(t) =>
    case AstAnd(cs) =>
      assert Steady(PlanOf(n).parts[n.driver]);
      BuiltSteady(cs[n.driver], index);
      forall i | 0 <= i < |cs| && i != n.driver ensures Honest(n.children[i], 0) {
        assert ProbeSafe(PlanOf(n).parts[i]);
        BuiltHonest(cs[i], index);
      }
      assert OthersHonest(n, 0);
    case AstOr(cs) =>
      forall i | 0 <= i < |cs| ensures SteadyState(n.children[i]) {
        assert Steady(PlanOf(n).parts[i]);
        BuiltSteady(cs[i], index);
        NextSteady(Build(cs[i], index));
      }
  }

  /** Taking the first document of a calm node, as OrOp::add_child does, leaves it honest about every document. */
  lemma {:induction false} PrimedHonest(a: Q.Ast, index: Index)
    requires ValidIndex(index) && Calm(PlanOf(Build(a, index)))
    ensures Honest(NextDoc(Build(a, index)).0, 0)
    decreases a, 1
  {
    hide NextDoc, Honest;
    var n := Build(a, index);
    match a
    case AstTerm(t) => PrimedLeafHonest(index, WordsOf(t), t.negated);
    case AstAnd(cs) =>
      if n.driver < 0 {
        BuiltHonest(a, index);
        UnmovedAnd(n);
      } else {
        BuiltSteady(a, index);
        NextSteady(n);
        SteadyHonest(NextDoc(n).0);
      }
    case AstOr(cs) =>
      BuiltHonest(a, index);
      UnmovedOr(n);
  }

  lemma PrimedLeafHonest(index: Index, words: seq<Text>, negated: bool)
    requires ValidIndex(index)
    ensures Honest(NextDoc(Leaf(negated, OpenAll(index, words))).0, 0)
  {
    hide PhraseWalk.NextDoc, PhraseWalk.Ready, PhraseWalk.HitAt, Ascending;
    var ss := OpenAll(index, words);
    FreshLeafReady(index, words);
    PhraseWalk.NextExact(ss, 0);
    var (tt, r) := PhraseWalk.NextDoc(ss);
    var at := if r == 0 then PhraseWalk.EndOf(tt, 0) else r;
    assert Words(tt) == Words(ss);
    forall d | 0 <= d < at ensures !PhraseWalk.Found(tt, d) {
      LeafMeaning(ss, d);
      LeafMeaning(tt, d);
      if d == 0 { NothingInZero(ss); }
    }
    ReadyEarlier(tt, at);
  }

  /** Documents are numbered from 1. */
  lemma NothingInZero(ss: PhraseWalk.Streams)
    requires PhraseWalk.ValidStreams(ss)
    ensures !PhraseWalk.Found(ss, 0)
  {
    forall pos: nat ensures !PhraseWalk.HitAt(ss, 0, pos) {
      assert ss != [] ==> Post(0, pos + 0) !in ss[0].posts;
    }
  }

  /** A leaf that was driven to `at`, with nothing to find before, may be probed from the start. */
  lemma ReadyEarlier(ss: PhraseWalk.Streams, at: nat)
    requires PhraseWalk.ValidStreams(ss) && PhraseWalk.Ready(ss, Post(at, 0))
    requires forall d | 0 <= d < at :: !PhraseWalk.Found(ss, d)
    ensures PhraseWalk.Ready(ss, Post(0, 0))
  {
    hide Ascending, PhraseWalk.HitAt, PhraseWalk.AllUnpassed;
    forall doc: nat, pos: nat | PhraseWalk.HitAt(ss, doc, pos) ensures PhraseWalk.AllUnpassed(ss, doc, pos) {
      assert PhraseWalk.Found(ss, doc);
    }
  }

  /** next_doc on an OR that has not answered yet moves no child. */
  lemma UnmovedOr(n: Node)
    requires Valid(n) && n.Or? && n.pendingAdvance == 0 && Honest(n, 0)
    ensures Honest(NextDoc(n).0, 0)
  {
    OrNextIs(n);
    assert AdvanceStanding(n).0 == n.children;
  }

  lemma {:induction false} BuiltRight(a: Q.Ast, index: Index)
    requires ValidIndex(index) && DriveSafe(PlanOf(Build(a, index)))
    ensures DriveRight(Build(a, index), 0)
    decreases a
  {
    hide NextDoc, Honest, Matches, Climbs;
    var n := Build(a, index);
    match a
    case AstTerm(t) =>
    case AstAnd(cs) =>
      assert DriveSafe(PlanOf(n).parts[n.driver]);
      BuiltRight(cs[n.driver], index);
      forall i | 0 <= i < |cs| && i != n.driver ensures Honest(n.children[i], 0) {
        assert ProbeSafe(PlanOf(n).parts[i]);
        BuiltHonest(cs[i], index);
      }
    case AstOr(cs) =>
      forall i | 0 <= i < |cs| && n.current[i] != 0
        ensures Matches(PlanOf(n.children[i]), n.current[i]) && DriveRight(n.children[i], n.current[i])
      {
        assert DriveSafe(PlanOf(n).parts[i]);
        BuiltRight(cs[i], index);
        BuiltClimbs(cs[i], index);
        NextRight(Build(cs[i], index), 0);
      }
  }

  lemma {:induction false} RunRight(n: Node, cur: nat)
    requires Valid(n) && Climbs(n, cur) && DriveRight(n, cur)
    ensures forall d | d in Run(n) :: Matches(PlanOf(n), d)
    decreases Size(n)
  {
    hide Climbs, DriveRight, NextDoc, Matches;
    NextClimbs(n, cur);
    NextRight(n, cur);
    var (n', r) := NextDoc(n);
    if r != 0 { RunRight(n', r); }
  }

  lemma {:induction false} DriveSafeIsDriveable(p: Plan)
    requires DriveSafe(p)
    ensures Driveable(p)
  {
    match p
    case PLeaf(_, _) =>
    case PAnd(parts, driver) => DriveSafeIsDriveable(parts[driver]);
    case POr(parts) => forall i | 0 <= i < |parts| { DriveSafeIsDriveable(parts[i]); }
  }

  /**
    The executor theorem.  For every index and every query whose tree may be driven,
    running it lists, in ascending order and once each, exactly the documents the
    query asks for, whichever drivers the document counts pick.
  */
  lemma ExecutionExact(a: Q.Ast, index: Index)
    requires ValidIndex(index) && DriveSafe(PlanOf(Build(a, index)))
    ensures Increasing(Run(Build(a, index)))
    ensures forall doc: nat :: doc in Run(Build(a, index)) <==> Holds(a, index, doc)
  {
    hide DriveSafe, Climbs, DriveRight, Matches, Run, Build, Holds, Driveable, Q.Driveable, PlanOf, Possible;
    var n := Build(a, index);
    DriveSafeIsDriveable(PlanOf(n));
    BuildFlags(a, index);
    EveryRunBounded(a, index);
    BuiltRight(a, index);
    BuiltClimbs(a, index);
    RunRight(n, 0);
    BuildMeaning(a, index);
  }

  // ---------------------------------------------------------------- safety read off the query alone

  predicate BlockingQuery(a: Q.Ast) {
    match a
    case AstTerm(t) => !t.negated
    case AstAnd(cs) => exists i | 0 <= i < |cs| :: BlockingQuery(cs[i])
    case AstOr(_) => false
  }

  predicate GuardedQuery(cs: seq<Q.Ast>, driver: int) {
    forall k | 0 <= k < |cs| && k != driver :: Q.NegationFree(cs[k]) || GuardedQueryAt(cs, driver, k)
  }

  predicate GuardedQueryAt(cs: seq<Q.Ast>, driver: int, k: nat)
    requires k <= |cs|
  {
    exists j | 0 <= j < k && j != driver :: Q.NegationFree(cs[j]) && BlockingQuery(cs[j])
  }

  /** Whichever child comes to drive. */
  predicate SteadyQuery(a: Q.Ast)
    decreases a, 0
  {
    match a
    case AstTerm(t) => !t.negated
    case AstAnd(cs) =>
      && (exists i | 0 <= i < |cs| :: Q.Driveable(cs[i]))
      && forall i | 0 <= i < |cs| && Q.Driveable(cs[i]) ::
           && SteadyQuery(cs[i])
           && (forall k | 0 <= k < |cs| && k != i :: ProbeSafeQuery(cs[k]))
           && (BlockingQuery(cs[i]) || GuardedQuery(cs, i))
    case AstOr(cs) => forall i | 0 <= i < |cs| :: SteadyQuery(cs[i])
  }

  predicate CalmQuery(a: Q.Ast)
    decreases a, 1
  {
    match a
    case AstTerm(_) => true
    case AstAnd(cs) =>
      if forall i | 0 <= i < |cs| :: !Q.Driveable(cs[i]) then forall i | 0 <= i < |cs| :: ProbeSafeQuery(cs[i])
      else SteadyQuery(a)
    case AstOr(cs) => forall i | 0 <= i < |cs| :: CalmQuery(cs[i])
  }

  predicate ProbeSafeQuery(a: Q.Ast)
    decreases a, 0
  {
    match a
    case AstTerm(_) => true
    case AstAnd(cs) => forall i | 0 <= i < |cs| :: ProbeSafeQuery(cs[i])
    case AstOr(cs) => forall i | 0 <= i < |cs| :: CalmQuery(cs[i])
  }

  /** Every child that may come to drive is safe to drive, every child that may come to be probed is safe to probe. */
  predicate DriveSafeQuery(a: Q.Ast) {
    match a
    case AstTerm(t) => !t.negated
    case AstAnd(cs) =>
      && (exists i | 0 <= i < |cs| :: Q.Driveable(cs[i]))
      && forall i | 0 <= i < |cs| && Q.Driveable(cs[i]) ::
           DriveSafeQuery(cs[i]) && forall k | 0 <= k < |cs| && k != i :: ProbeSafeQuery(cs[k])
    case AstOr(cs) => |cs| > 0 && forall i | 0 <= i < |cs| :: DriveSafeQuery(cs[i])
  }

  lemma {:induction false} BlockingForAnyIndex(a: Q.Ast, index: Index)
    requires ValidIndex(index)
    ensures Blocking(PlanOf(Build(a, index))) <==> BlockingQuery(a)
    decreases a
  {
    hide Build, PlanOf, ValidIndex;
    match a
    case AstTerm(t) => BlockingLeaf(t, index);
    case AstAnd(cs) =>
      BuiltAnd(cs, index);
      forall i | 0 <= i < |cs| { BlockingForAnyIndex(cs[i], index); }
    case AstOr(cs) => BuiltOr(cs, index);
  }

  lemma BlockingLeaf(t: Q.TermData, index: Index)
    requires ValidIndex(index)
    ensures Blocking(PlanOf(Build(Q.AstTerm(t), index))) <==> !t.negated
    ensures PlanOf(Build(Q.AstTerm(t), index)).PLeaf? && PlanOf(Build(Q.AstTerm(t), index)).negated == t.negated
  {
  }

  /** The class of the query is the class of its tree. */
  lemma {:induction false} SteadyForAnyIndex(a: Q.Ast, index: Index)
    requires ValidIndex(index)
    ensures SteadyQuery(a) ==> Steady(PlanOf(Build(a, index)))
    ensures ProbeSafeQuery(a) ==> ProbeSafe(PlanOf(Build(a, index)))
    ensures CalmQuery(a) ==> Calm(PlanOf(Build(a, index)))
    decreases a
  {
    hide Build, PlanOf, ValidIndex, Steady, Calm, ProbeSafe, SteadyQuery, CalmQuery, ProbeSafeQuery;
    match a
    case AstTerm(t) => SteadyLeaf(t, index);
    case AstAnd(cs) =>
      forall i | 0 <= i < |cs| { SteadyForAnyIndex(cs[i], index); }
      SteadyAnd(cs, index);
    case AstOr(cs) =>
      forall i | 0 <= i < |cs| { SteadyForAnyIndex(cs[i], index); }
      SteadyOr(cs, index);
  }

  lemma SteadyLeaf(t: Q.TermData, index: Index)
    requires ValidIndex(index)
    ensures SameClass(Q.AstTerm(t), index)
  {
    hide Build, PlanOf;
    BlockingLeaf(t, index);
  }

  ghost predicate SameClass(a: Q.Ast, index: Index)
    requires ValidIndex(index)
  {
    var p := PlanOf(Build(a, index));
    && (SteadyQuery(a) ==> Steady(p)) && (ProbeSafeQuery(a) ==> ProbeSafe(p)) && (CalmQuery(a) ==> Calm(p))
  }

  lemma SteadyOr(cs: seq<Q.Ast>, index: Index)
    requires ValidIndex(index) && forall i | 0 <= i < |cs| :: SameClass(cs[i], index)
    ensures SameClass(Q.AstOr(cs), index)
  {
    hide Build, PlanOf, ValidIndex;
    BuiltOr(cs, index);
  }

  lemma SteadyAnd(cs: seq<Q.Ast>, index: Index)
    requires ValidIndex(index) && forall i | 0 <= i < |cs| :: SameClass(cs[i], index)
    ensures SameClass(Q.AstAnd(cs), index)
  {
    hide Build, PlanOf, ValidIndex, Driveable, Q.Driveable, Blocking, BlockingQuery, Guarded, GuardedQuery;
    BuiltAnd(cs, index);
    var p := PlanOf(Build(Q.AstAnd(cs), index));
    forall i | 0 <= i < |cs|
      ensures Driveable(p.parts[i]) <==> Q.Driveable(cs[i])
      ensures Blocking(p.parts[i]) <==> BlockingQuery(cs[i])
    {
      BuildFlags(cs[i], index);
      BlockingForAnyIndex(cs[i], index);
    }
    if SteadyQuery(Q.AstAnd(cs)) {
      GuardedForAnyIndex(cs, p.parts, p.driver, index);
      assert Steady(p);
    }
  }

  lemma GuardedForAnyIndex(cs: seq<Q.Ast>, parts: seq<Plan>, driver: int, index: Index)
    requires ValidIndex(index) && |parts| == |cs|
    requires forall i | 0 <= i < |cs| :: parts[i] == PlanOf(Build(cs[i], index))
    ensures GuardedQuery(cs, driver) ==> Guarded(parts, driver)
  {
    hide Build, PlanOf, ValidIndex, NegationFree, Q.NegationFree, Blocking, BlockingQuery;
    forall i | 0 <= i < |cs|
      ensures NegationFree(parts[i]) <==> Q.NegationFree(cs[i])
      ensures Blocking(parts[i]) <==> BlockingQuery(cs[i])
    {
      BuildFlags(cs[i], index);
      BlockingForAnyIndex(cs[i], index);
    }
    forall k | 0 <= k < |parts| && k != driver && GuardedQueryAt(cs, driver, k) ensures GuardedAt(parts, driver, k) {
      var j :| 0 <= j < k && j != driver && Q.NegationFree(cs[j]) && BlockingQuery(cs[j]);
      assert NegationFree(parts[j]) && Blocking(parts[j]);
    }
  }

  lemma {:induction false} SafeForAnyIndex(a: Q.Ast, index: Index)
    requires ValidIndex(index) && DriveSafeQuery(a)
    ensures DriveSafe(PlanOf(Build(a, index)))
    decreases a
  {
    hide Build, PlanOf, ValidIndex, ProbeSafe, ProbeSafeQuery, Driveable, Q.Driveable;
    match a
    case AstTerm(t) => BlockingLeaf(t, index);
    case AstAnd(cs) =>
      BuiltAnd(cs, index);
      var driver := PlanOf(Build(a, index)).driver;
      forall i | 0 <= i < |cs|
        ensures Driveable(PlanOf(Build(cs[i], index))) <==> Q.Driveable(cs[i])
        ensures SameClass(cs[i], index)
      {
        BuildFlags(cs[i], index);
        SteadyForAnyIndex(cs[i], index);
      }
      SafeForAnyIndex(cs[driver], index);
    case AstOr(cs) =>
      BuiltOr(cs, index);
      forall i | 0 <= i < |cs| { SafeForAnyIndex(cs[i], index); }
  }

  lemma {:induction false} DriveSafeQueryIsDriveable(a: Q.Ast)
    requires DriveSafeQuery(a)
    ensures Q.Driveable(a)
  {
    match a
    case AstTerm(_) =>
    case AstAnd(_) =>
    case AstOr(cs) => forall i | 0 <= i < |cs| { DriveSafeQueryIsDriveable(cs[i]); }
  }

  /** The same theorem with its condition read off the query: it holds for every index. */
  lemma QueryAnsweredExactly(a: Q.Ast, index: Index)
    requires ValidIndex(index) && DriveSafeQuery(a)
    ensures Increasing(Run(Build(a, index)))
    ensures forall doc: nat :: doc in Run(Build(a, index)) <==> Holds(a, index, doc)
  {
    hide Run, Build, Holds, DriveSafe, DriveSafeQuery;
    SafeForAnyIndex(a, index);
    ExecutionExact(a, index);
  }
}
