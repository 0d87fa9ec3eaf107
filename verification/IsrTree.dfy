/**
  The executor tree of index_chunk/query_isr.h as a value: leaves hold word
  streams, inner nodes hold children and their own cursors.  Every operation
  returns the moved tree with its answer.  The class QueryIsr moves in the same
  way; what the tree answers is proved in IsrExact.
*/
module IsrTree {
  import opened Postings
  import PhraseWalk

  datatype Node =
    | Leaf(negated: bool, streams: PhraseWalk.Streams)
    | And(children: seq<Node>, driver: int)
    | Or(children: seq<Node>, current: seq<nat>, pendingAdvance: nat)

  /** The part of a node that never changes once it is built. */
  datatype Plan =
    | PLeaf(negated: bool, words: seq<seq<Post>>)
    | PAnd(parts: seq<Plan>, driver: int)
    | POr(parts: seq<Plan>)

  function PlanOf(n: Node): Plan {
    match n
    case Leaf(negated, ss) => PLeaf(negated, Words(ss))
    case And(cs, driver) => PAnd(Plans(cs), driver)
    case Or(cs, _, _) => POr(Plans(cs))
  }

  function Plans(cs: seq<Node>): (r: seq<Plan>)
    ensures |r| == |cs| && forall i | 0 <= i < |cs| :: r[i] == PlanOf(cs[i])
  {
    seq(|cs|, i requires 0 <= i < |cs| => PlanOf(cs[i]))
  }

  function Words(ss: PhraseWalk.Streams): (r: seq<seq<Post>>)
    ensures |r| == |ss| && forall i | 0 <= i < |ss| :: r[i] == ss[i].posts
  {
    seq(|ss|, i requires 0 <= i < |ss| => ss[i].posts)
  }

  ghost predicate Valid(n: Node) {
    match n
    case Leaf(_, ss) => PhraseWalk.ValidStreams(ss)
    case And(cs, driver) =>
      && (forall i | 0 <= i < |cs| :: Valid(cs[i]))
      && -1 <= driver < |cs|
    case Or(cs, current, pending) =>
      && (forall i | 0 <= i < |cs| :: Valid(cs[i]))
      && |current| == |cs| && (pending != 0 ==> pending in current)
  }

  ghost predicate AllValid(cs: seq<Node>) {
    forall i | 0 <= i < |cs| :: Valid(cs[i])
  }

  // ---------------------------------------------------------------- probe

  /** probe: is `doc` in the match set?  May move cursors. */
  function Probe(n: Node, doc: nat): (r: (Node, bool))
    requires Valid(n) && 0 < doc
    ensures Valid(r.0) && PlanOf(r.0) == PlanOf(n)
    decreases n
  {
    match n
    case Leaf(negated, ss) =>
      var (tt, found) := PhraseWalk.Probe(ss, doc);
      assert Words(tt) == Words(ss);
      (Leaf(negated, tt), found != negated)
    case And(cs, driver) =>
      var stop := FirstAnswer(cs, -1, doc, false, 0);
      var cs' := ProbeUpTo(cs, -1, doc, stop);
      assert Plans(cs') == Plans(cs);
      (And(cs', driver), stop == |cs|)
    case Or(cs, current, pending) =>
      var stop := FirstAnswer(cs, -1, doc, true, 0);
      var cs' := ProbeUpTo(cs, -1, doc, stop);
      assert Plans(cs') == Plans(cs);
      (Or(cs', current, pending), stop < |cs|)
  }

  /** The first child from i on, other than `skip`, that answers `answer`; |cs| if none does. */
  function FirstAnswer(cs: seq<Node>, skip: int, doc: nat, answer: bool, i: nat): (r: nat)
    requires AllValid(cs) && 0 < doc && i <= |cs|
    ensures i <= r <= |cs|
    ensures forall j | i <= j < r && j != skip :: Probe(cs[j], doc).1 != answer
    ensures r < |cs| ==> r != skip && Probe(cs[r], doc).1 == answer
    decreases cs, |cs| - i
  {
    if i == |cs| then i
    else
      var yes := i != skip && Probe(cs[i], doc).1 == answer;
      if yes then i else FirstAnswer(cs, skip, doc, answer, i + 1)
  }

  /** Children 0..stop have been probed (but `skip`), the rest not. */
  function ProbeUpTo(cs: seq<Node>, skip: int, doc: nat, stop: nat): (r: seq<Node>)
    requires AllValid(cs) && 0 < doc
    ensures |r| == |cs|
    ensures forall j | 0 <= j < |cs| :: r[j] == if j <= stop && j != skip then Probe(cs[j], doc).0 else cs[j]
    ensures AllValid(r) && forall j | 0 <= j < |cs| :: PlanOf(r[j]) == PlanOf(cs[j])
    decreases cs, 0
  {
    seq(|cs|, j requires 0 <= j < |cs| => if j <= stop && j != skip then Probe(cs[j], doc).0 else cs[j])
  }

  // ---------------------------------------------------------------- next_doc

  /** Bounds how often next_doc can still answer a document. */
  function Size(n: Node): nat
    requires Valid(n)
    decreases n
  {
    match n
    case Leaf(_, ss) => if |ss| == 0 then 0 else ss[0].Remaining()
    case And(cs, driver) => if driver < 0 then 0 else Size(cs[driver])
    case Or(cs, current, pending) =>
      Total(cs, current, |cs|) + (if pending == 0 then 1 else 0)
  }

  function Total(cs: seq<Node>, current: seq<nat>, n: nat): nat
    requires AllValid(cs) && |current| == |cs| && n <= |cs|
    decreases cs, n
  {
    if n == 0 then 0
    else Total(cs, current, n - 1) + Size(cs[n - 1]) + (if current[n - 1] != 0 then 1 else 0)
  }

  lemma {:induction false} TotalAtMost(cs: seq<Node>, current: seq<nat>, ds: seq<Node>, docs: seq<nat>, n: nat, k: nat)
    requires AllValid(cs) && |current| == |cs| && AllValid(ds) && |docs| == |ds| == |cs| && n <= |cs|
    requires forall i | 0 <= i < n ::
               Size(ds[i]) + (if docs[i] != 0 then 1 else 0) <= Size(cs[i]) + (if current[i] != 0 then 1 else 0)
    requires k < n ==> Size(ds[k]) + (if docs[k] != 0 then 1 else 0) < Size(cs[k]) + (if current[k] != 0 then 1 else 0)
    ensures Total(ds, docs, n) + (if k < n then 1 else 0) <= Total(cs, current, n)
    decreases n
  {
    if n == 0 {
    } else {
      TotalAtMost(cs, current, ds, docs, n - 1, k);
    }
  }

  /** next_doc: the next document of the match set, 0 when there is none. */
  function NextDoc(n: Node): (r: (Node, nat))
    requires Valid(n)
    ensures Valid(r.0) && PlanOf(r.0) == PlanOf(n)
    ensures Size(r.0) + (if r.1 != 0 then 1 else 0) <= Size(n)
    decreases PlanOf(n), 1, 0
  {
    match n
    case Leaf(negated, ss) =>
      var (tt, doc) := PhraseWalk.NextDoc(ss);
      assert Words(tt) == Words(ss);
      (Leaf(negated, tt), doc)
    case And(_, driver) => if driver < 0 then (n, 0) else Leap(n)
    case Or(cs, current, pending) =>
      var (cs', current') := AdvanceStanding(n);
      assert Plans(cs') == Plans(cs);
      var doc := MinDoc(current');
      (Or(cs', current', doc), doc)
  }

  /** The loop of AndOp::next_doc: the driver proposes, the others are probed. */
  function Leap(n: Node): (r: (Node, nat))
    requires Valid(n) && n.And? && 0 <= n.driver
    ensures Valid(r.0) && PlanOf(r.0) == PlanOf(n)
    ensures Size(r.0) + (if r.1 != 0 then 1 else 0) <= Size(n)
    decreases PlanOf(n), 0, Size(n), 1
  {
    var doc := NextDoc(n.children[n.driver]).1;
    if doc == 0 then (Proposed(n), 0)
    else if Accepted(n, doc) then (Proposed(n), doc)
    else Leap(Proposed(n))
  }

  /** Every child but the driver says yes to the driver's candidate. */
  predicate Accepted(n: Node, doc: nat)
    requires Valid(n) && n.And? && 0 < doc
    decreases PlanOf(n), 0, 0
  {
    FirstAnswer(n.children, n.driver, doc, false, 0) == |n.children|
  }

  /** The tree after the driver has proposed `doc` and the others have been probed. */
  function Proposed(n: Node): (r: Node)
    requires Valid(n) && n.And? && 0 <= n.driver
    ensures Valid(r) && PlanOf(r) == PlanOf(n) && r.And? && r.driver == n.driver
    ensures Size(r) + (if NextDoc(n.children[n.driver]).1 != 0 then 1 else 0) <= Size(n)
    decreases PlanOf(n), 0, Size(n), 0
  {
    var (d, doc) := NextDoc(n.children[n.driver]);
    var cs := if doc == 0 then n.children
              else ProbeUpTo(n.children, n.driver, doc, FirstAnswer(n.children, n.driver, doc, false, 0));
    assert Plans(cs[n.driver := d]) == Plans(n.children);
    And(cs[n.driver := d], n.driver)
  }

  /** The lazy advance of OrOp::next_doc: only children that stood at the document last returned move. */
  function AdvanceStanding(n: Node): (r: (seq<Node>, seq<nat>))
    requires Valid(n) && n.Or?
    ensures |r.0| == |n.children| == |r.1| && AllValid(r.0)
    ensures forall i | 0 <= i < |r.0| :: (r.0[i], r.1[i]) == AdvanceChild(n, i)
    ensures forall i | 0 <= i < |r.0| :: PlanOf(r.0[i]) == PlanOf(n.children[i])
    ensures Total(r.0, r.1, |r.0|) + (if n.pendingAdvance != 0 then 1 else 0)
            <= Total(n.children, n.current, |n.children|)
    decreases PlanOf(n), 0, 1
  {
    var cs := seq(|n.children|, i requires 0 <= i < |n.children| => AdvanceChild(n, i).0);
    var docs := seq(|n.children|, i requires 0 <= i < |n.children| => AdvanceChild(n, i).1);
    var k := if n.pendingAdvance == 0 then |cs| else IndexOf(n.current, n.pendingAdvance);
    TotalAtMost(n.children, n.current, cs, docs, |cs|, k);
    (cs, docs)
  }

  function AdvanceChild(n: Node, i: nat): (r: (Node, nat))
    requires Valid(n) && n.Or? && i < |n.children|
    ensures Valid(r.0) && PlanOf(r.0) == PlanOf(n.children[i])
    ensures Size(r.0) + (if r.1 != 0 then 1 else 0) + (if Stands(n, i) then 1 else 0)
            <= Size(n.children[i]) + (if n.current[i] != 0 then 1 else 0)
    decreases PlanOf(n), 0, 0
  {
    if Stands(n, i) then NextDoc(n.children[i]) else (n.children[i], n.current[i])
  }

  predicate Stands(n: Node, i: nat)
    requires n.Or? && i < |n.current|
  {
    n.pendingAdvance != 0 && n.current[i] == n.pendingAdvance
  }

  function IndexOf(docs: seq<nat>, doc: nat): (k: nat)
    requires doc in docs
    ensures k < |docs| && docs[k] == doc
  {
    if docs[0] == doc then 0 else 1 + IndexOf(docs[1..], doc)
  }

  /** The least document that is not 0; 0 if there is none. */
  function MinDoc(docs: seq<nat>): (m: nat)
    ensures m == 0 ==> forall i | 0 <= i < |docs| :: docs[i] == 0
    ensures m != 0 ==> m in docs && forall i | 0 <= i < |docs| && docs[i] != 0 :: m <= docs[i]
  {
    if |docs| == 0 then 0
    else
      var last := |docs| - 1;
      var m := MinDoc(docs[..last]);
      assert forall i | 0 <= i < last :: docs[i] == docs[..last][i];
      if docs[last] == 0 then m else if m == 0 || docs[last] < m then docs[last] else m
  }

  // ---------------------------------------------------------------- steps of the loops

  /** One more child of the probing loop. */
  lemma ProbeStep(cs: seq<Node>, skip: int, doc: nat, answer: bool, k: nat)
    requires AllValid(cs) && 0 < doc && k < |cs|
    ensures var before := if k == 0 then cs else ProbeUpTo(cs, skip, doc, k - 1);
            && before[k] == cs[k]
            && ProbeUpTo(cs, skip, doc, k) == if k == skip then before else before[k := Probe(cs[k], doc).0]
    ensures FirstAnswer(cs, skip, doc, answer, k) ==
            if k != skip && Probe(cs[k], doc).1 == answer then k else FirstAnswer(cs, skip, doc, answer, k + 1)
  {
    hide Probe, Valid;
  }

  lemma ProbeEnd(cs: seq<Node>, skip: int, doc: nat)
    requires AllValid(cs) && 0 < doc
    ensures ProbeUpTo(cs, skip, doc, |cs|) == if |cs| == 0 then cs else ProbeUpTo(cs, skip, doc, |cs| - 1)
  {
    hide Probe, Valid;
  }

  lemma {:induction false} SkippedDoesNotAnswer(cs: seq<Node>, ds: seq<Node>, skip: int, doc: nat, answer: bool, i: nat)
    requires AllValid(cs) && AllValid(ds) && |cs| == |ds| && 0 < doc && i <= |cs|
    requires forall j | 0 <= j < |cs| && j != skip :: cs[j] == ds[j]
    ensures FirstAnswer(cs, skip, doc, answer, i) == FirstAnswer(ds, skip, doc, answer, i)
    decreases |cs| - i
  {
    hide Probe, Valid;
    if i < |cs| { SkippedDoesNotAnswer(cs, ds, skip, doc, answer, i + 1); }
  }

  /** The driver is skipped, so it does not matter that it has already moved. */
  lemma DriverIsSkipped(n: Node, doc: nat)
    requires Valid(n) && n.And? && 0 <= n.driver && 0 < doc && doc == NextDoc(n.children[n.driver]).1
    ensures var cs := n.children[n.driver := NextDoc(n.children[n.driver]).0];
            && AllValid(cs)
            && (FirstAnswer(cs, n.driver, doc, false, 0) == |cs| <==> Accepted(n, doc))
            && And(ProbeUpTo(cs, n.driver, doc, FirstAnswer(cs, n.driver, doc, false, 0)), n.driver) == Proposed(n)
  {
    var d := NextDoc(n.children[n.driver]).0;
    var cs := n.children[n.driver := d];
    assert AllValid(cs);
    SkippedDoesNotAnswer(cs, n.children, n.driver, doc, false, 0);
    hide Probe, Valid, NextDoc, FirstAnswer, PlanOf, Size;
    var stop := FirstAnswer(cs, n.driver, doc, false, 0);
    assert ProbeUpTo(cs, n.driver, doc, stop) == ProbeUpTo(n.children, n.driver, doc, stop)[n.driver := d];
  }

  lemma OrNextIs(n: Node)
    requires Valid(n) && n.Or?
    ensures var (cs, docs) := AdvanceStanding(n);
            NextDoc(n) == (Or(cs, docs, MinDoc(docs)), MinDoc(docs))
  {
    hide AdvanceStanding;
  }

  /** The OR after its first k children have been looked at by the lazy advance. */
  function StandingUpTo(n: Node, k: nat): (r: (seq<Node>, seq<nat>))
    requires Valid(n) && n.Or? && k <= |n.children|
    ensures |r.0| == |r.1| == |n.children|
    ensures forall i | 0 <= i < |r.0| ::
              (r.0[i], r.1[i]) == if i < k then AdvanceChild(n, i) else (n.children[i], n.current[i])
  {
    (seq(|n.children|, i requires 0 <= i < |n.children| => if i < k then AdvanceChild(n, i).0 else n.children[i]),
     seq(|n.children|, i requires 0 <= i < |n.children| => if i < k then AdvanceChild(n, i).1 else n.current[i]))
  }

  lemma StandingStep(n: Node, k: nat)
    requires Valid(n) && n.Or? && k < |n.children|
    ensures var (cs, docs) := StandingUpTo(n, k);
            && cs[k] == n.children[k] && docs[k] == n.current[k]
            && StandingUpTo(n, k + 1) == (cs[k := AdvanceChild(n, k).0], docs[k := AdvanceChild(n, k).1])
  {
    hide AdvanceChild, Valid;
    var (cs, docs) := StandingUpTo(n, k);
    assert StandingUpTo(n, k + 1).0 == cs[k := AdvanceChild(n, k).0];
    assert StandingUpTo(n, k + 1).1 == docs[k := AdvanceChild(n, k).1];
  }

  lemma ChildValid(n: Node, i: nat)
    requires Valid(n) && n.Or? && i < |n.children|
    ensures Valid(n.children[i]) && AdvanceChild(n, i) == if Stands(n, i) then NextDoc(n.children[i]) else (n.children[i], n.current[i])
  {
    hide NextDoc;
  }

  lemma StandingEnds(n: Node)
    requires Valid(n) && n.Or?
    ensures StandingUpTo(n, 0) == (n.children, n.current)
    ensures StandingUpTo(n, |n.children|) == AdvanceStanding(n)
  {
    hide AdvanceChild;
    assert StandingUpTo(n, 0).0 == n.children && StandingUpTo(n, 0).1 == n.current;
    var all := StandingUpTo(n, |n.children|);
    forall i | 0 <= i < |n.children| ensures (AdvanceStanding(n).0[i], AdvanceStanding(n).1[i]) == (all.0[i], all.1[i]) {
    }
    assert all.0 == AdvanceStanding(n).0 && all.1 == AdvanceStanding(n).1;
  }

  lemma ValidAnd(cs: seq<Node>, driver: int)
    requires AllValid(cs) && -1 <= driver < |cs|
    ensures Valid(And(cs, driver))
  {
  }

  lemma ValidOr(cs: seq<Node>, current: seq<nat>)
    requires AllValid(cs) && |current| == |cs|
    ensures Valid(Or(cs, current, 0))
  {
  }
}
