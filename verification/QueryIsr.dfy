/**
  The executor nodes of index_chunk/query_isr.h as objects: TermISR, PhraseISR,
  AndOp and OrOp, dispatched on `kind`.  Every method is proved to move the tree
  exactly as the functions of IsrTree, so the theorems of IsrExact and IsrBuild
  are about these objects.
*/
module QueryIsrNodes {
  import opened Bytes
  import opened StreamReader
  import B = IsrBuild
  import R = PhraseReaders
  import T = IsrTree

  datatype Kind = TermKind | PhraseKind | AndKind | OrKind

  // ---------------------------------------------------------------- driveability of the children

  /** Some child is driveable, or some child is not. */
  ghost predicate AnyPlan(kids: seq<T.Node>, wanted: bool) {
    exists i | 0 <= i < |kids| :: B.Driveable(T.PlanOf(kids[i])) == wanted
  }

  lemma AndPlan(kids: seq<T.Node>, driver: int)
    ensures B.Driveable(T.PlanOf(T.And(kids, driver))) <==> AnyPlan(kids, true)
  {
    var parts := T.Plans(kids);
    assert T.PlanOf(T.And(kids, driver)) == T.PAnd(parts, driver);
    assert forall i | 0 <= i < |kids| :: parts[i] == T.PlanOf(kids[i]);
  }

  lemma OrPlan(kids: seq<T.Node>, current: seq<nat>, pending: nat)
    ensures B.Driveable(T.PlanOf(T.Or(kids, current, pending))) <==> |kids| > 0 && !AnyPlan(kids, false)
  {
    var parts := T.Plans(kids);
    assert T.PlanOf(T.Or(kids, current, pending)) == T.POr(parts);
    assert forall i | 0 <= i < |kids| :: parts[i] == T.PlanOf(kids[i]);
  }

  lemma LeastOfNone(kids: seq<T.Node>)
    ensures B.MinEstimate(kids, 0) == (false, 0)
  {
  }

  lemma LeastOfOneMore(kids: seq<T.Node>, i: nat)
    requires i < |kids|
    ensures var (any, least) := B.MinEstimate(kids, i);
            var e := B.Estimate(kids[i]);
            B.MinEstimate(kids, i + 1) ==
              if !B.Driveable(T.PlanOf(kids[i])) then (any, least) else if !any || e < least then (true, e) else (any, least)
  {
    hide T.PlanOf, B.Driveable, B.Estimate;
  }

  lemma SumOfNone(kids: seq<T.Node>)
    ensures B.SumEstimate(kids, 0) == 0
  {
  }

  lemma SumOfOneMore(kids: seq<T.Node>, i: nat)
    requires i < |kids|
    ensures var sum := B.SumEstimate(kids, i) + B.Estimate(kids[i]);
            B.SumEstimate(kids, i + 1) == if sum >= UINT32_MAX then UINT32_MAX else sum
  {
    hide B.Estimate;
  }

  class QueryIsr {
    const kind: Kind
    const negated: bool
    const streams: seq<IndexStreamReader>
    var children: seq<QueryIsr>
    var driver: int
    var driverScore: nat
    var currentDocs: seq<nat>
    var pendingAdvance: nat

    ghost var Repr: set<object>

    predicate IsLeaf() {
      kind == TermKind || kind == PhraseKind
    }

    /** The objects form a tree: nothing is shared, and every part is well formed. */
    ghost predicate Shape()
      reads this, Repr
      decreases Repr
    {
      && this in Repr
      && (forall i | 0 <= i < |streams| :: streams[i] in Repr)
      && R.ValidReaders(streams)
      && (forall i | 0 <= i < |children| ::
            && children[i] in Repr && children[i].Repr < Repr && this !in children[i].Repr
            && children[i].Shape())
      && (forall i, j | 0 <= i < j < |children| :: children[i].Repr !! children[j].Repr)
      && (IsLeaf() ==> children == [])
      && (!IsLeaf() ==> streams == [])
      && (kind == TermKind ==> |streams| == 1)
    }

    /** The tree value this object stands for. */
    ghost function Node(): T.Node
      requires Shape()
      reads this, Repr
      decreases Repr, 1
    {
      if IsLeaf() then T.Leaf(negated, R.Cursors(streams))
      else if kind == AndKind then T.And(Kids(), driver)
      else T.Or(Kids(), currentDocs, pendingAdvance)
    }

    ghost function Kids(): (cs: seq<T.Node>)
      requires Shape()
      reads this, Repr
      ensures |cs| == |children| && forall i | 0 <= i < |cs| :: cs[i] == children[i].Node()
      decreases Repr, 0
    {
      seq(|children|, i requires 0 <= i < |children| && Shape() reads this, Repr => children[i].Node())
    }

    lemma ShapeFacts()
      requires Shape()
      ensures this in Repr
      ensures forall i | 0 <= i < |children| :: children[i].Repr <= Repr - {this} && children[i].Shape()
    {
    }

    lemma NodeIsOp()
      requires Shape()
      ensures kind == AndKind ==> Node() == T.And(Kids(), driver)
      ensures kind == OrKind ==> Node() == T.Or(Kids(), currentDocs, pendingAdvance)
    {
    }

    ghost predicate Valid()
      reads this, Repr
    {
      Shape() && T.Valid(Node())
    }

    lemma ValidParts()
      requires Valid()
      ensures Shape() && T.Valid(Node()) && this in Repr
    {
    }

    // -------------------------------------------------------------- construction

    /** make_term, make_phrase */
    constructor Leaf(kind: Kind, negated: bool, streams: seq<IndexStreamReader>)
      requires kind == TermKind || kind == PhraseKind
      requires kind == TermKind ==> |streams| == 1
      requires R.ValidReaders(streams)
      ensures Valid() && Repr == {this} + (set s: IndexStreamReader | s in streams) && Node() == T.Leaf(negated, R.Cursors(streams))
      ensures this.kind == kind && this.negated == negated && this.streams == streams
    {
      this.kind, this.negated, this.streams := kind, negated, streams;
      children, driver, driverScore, currentDocs, pendingAdvance := [], -1, UINT32_MAX, [], 0;
      Repr := {this} + (set s: IndexStreamReader | s in streams);
    }

    /** make_and, make_or */
    constructor Op(kind: Kind)
      requires kind == AndKind || kind == OrKind
      ensures Valid() && Repr == {this} && this.kind == kind
      ensures Node() == if kind == AndKind then T.And([], -1) else T.Or([], [], 0)
      ensures driver == -1 && children == [] && Kids() == [] && currentDocs == [] && pendingAdvance == 0
    {
      this.kind, this.negated, this.streams := kind, false, [];
      children, driver, driverScore, currentDocs, pendingAdvance := [], -1, UINT32_MAX, [], 0;
      Repr := {this};
    }

    /** is_driveable */
    method IsDriveable() returns (b: bool)
      requires Shape()
      ensures b == B.Driveable(T.PlanOf(Node()))
      decreases Repr, 1
    {
      hide Shape, R.ValidReaders, T.PlanOf, B.Driveable, AnyPlan;
      match kind
      case TermKind =>
        LeafIsPositive();
        b := !negated;
      case PhraseKind =>
        LeafIsPositive();
        b := !negated;
      case AndKind =>
        AndPlan(Kids(), driver);
        b := AnyDriveable(true);
      case OrKind =>
        OrPlan(Kids(), currentDocs, pendingAdvance);
        if |children| == 0 { return false; }
        b := AnyDriveable(false);
        b := !b;
    }

    lemma LeafIsPositive()
      requires Shape() && IsLeaf()
      ensures B.Driveable(T.PlanOf(Node())) <==> !negated
    {
    }

    /** Looks for a child that is driveable (for AND) or is not (for OR). */
    method AnyDriveable(wanted: bool) returns (found: bool)
      requires Shape()
      ensures found <==> AnyPlan(Kids(), wanted)
      decreases Repr, 0
    {
      hide R.ValidReaders, T.PlanOf, B.Driveable, Shape;
      ShapeFacts();
      ghost var kids := Kids();
      for i := 0 to |children|
        invariant forall j | 0 <= j < i :: B.Driveable(T.PlanOf(kids[j])) != wanted
      {
        var d := children[i].IsDriveable();
        assert kids[i] == children[i].Node();
        if d == wanted { return true; }
      }
      found := false;
    }

    /** estimated_n_docs */
    method EstimatedNDocs() returns (n: nat)
      requires Shape()
      ensures n == B.Estimate(Node())
      decreases Repr, 1
    {
      match kind
      case TermKind => n := streams[0].nDocs;
      case PhraseKind => n := LeastNDocs();
      case AndKind => n := LeastEstimate();
      case OrKind => n := SumOfEstimates();
    }

    method LeastNDocs() returns (n: nat)
      requires R.ValidReaders(streams)
      ensures n == B.MinDocs(R.Cursors(streams))
    {
      if |streams| == 0 { return 0; }
      n := streams[0].nDocs;
      ghost var ss := R.Cursors(streams);
      for i := 1 to |streams|
        invariant n == B.MinDocs(ss[..i])
      {
        assert ss[..i + 1][..i] == ss[..i];
        if streams[i].nDocs < n { n := streams[i].nDocs; }
      }
      assert ss[..|ss|] == ss;
    }

    method LeastEstimate() returns (n: nat)
      requires Shape()
      ensures n == B.MinEstimate(Kids(), |Kids()|).1
      decreases Repr, 0
    {
      hide R.ValidReaders, T.PlanOf, B.Driveable, B.Estimate, B.MinEstimate, Shape;
      ShapeFacts();
      ghost var kids := Kids();
      var any := false;
      n := 0;
      LeastOfNone(kids);
      for i := 0 to |children|
        invariant (any, n) == B.MinEstimate(kids, i)
      {
        LeastOfOneMore(kids, i);
        var d := children[i].IsDriveable();
        if d {
          var e := children[i].EstimatedNDocs();
          if !any || e < n { any, n := true, e; }
        }
      }
    }

    method SumOfEstimates() returns (n: nat)
      requires Shape()
      ensures n == B.SumEstimate(Kids(), |Kids()|)
      decreases Repr, 0
    {
      hide R.ValidReaders, B.Estimate, B.SumEstimate, Shape;
      ShapeFacts();
      ghost var kids := Kids();
      n := 0;
      SumOfNone(kids);
      for i := 0 to |children|
        invariant n == B.SumEstimate(kids, i)
      {
        SumOfOneMore(kids, i);
        var e := children[i].EstimatedNDocs();
        n := n + e;
        if n >= UINT32_MAX { n := UINT32_MAX; }
      }
    }

    // -------------------------------------------------------------- probe

    /** probe: is `doc` in the match set? */
    method Probe(doc: nat) returns (yes: bool)
      requires Valid() && 0 < doc
      modifies Repr
      ensures Valid() && Repr == old(Repr) && (Node(), yes) == T.Probe(old(Node()), doc)
      decreases Repr, 1
    {
      match kind
      case TermKind =>
        var found := R.TermProbe(streams, doc);
        return found != negated;
      case PhraseKind =>
        var found := R.PhraseProbe(streams, doc);
        return found != negated;
      case AndKind =>
        var stop := ProbeChildren(-1, doc, false);
        return stop == |children|;
      case OrKind =>
        var stop := ProbeChildren(-1, doc, true);
        return stop < |children|;
    }

    /** The probing loop: children in order but `skip`, up to the first that answers `answer`. */
    method ProbeChildren(skip: int, doc: nat, answer: bool) returns (stop: nat)
      requires Shape() && T.AllValid(Kids()) && 0 < doc && !IsLeaf()
      modifies Repr - {this}
      ensures Shape() && Repr == old(Repr)
      ensures stop == T.FirstAnswer(old(Kids()), skip, doc, answer, 0)
      ensures Kids() == T.ProbeUpTo(old(Kids()), skip, doc, stop)
      decreases Repr, 0, 1
    {
      hide T.Probe, T.Valid, T.FirstAnswer, T.ProbeUpTo, R.ValidReaders, Shape, Node;
      ghost var kids := Kids();
      stop := 0;
      while stop < |children|
        invariant stop <= |children|
        invariant Shape() && Repr == old(Repr)
        invariant T.FirstAnswer(kids, skip, doc, answer, stop) == T.FirstAnswer(kids, skip, doc, answer, 0)
        invariant Kids() == if stop == 0 then kids else T.ProbeUpTo(kids, skip, doc, stop - 1)
      {
        T.ProbeStep(kids, skip, doc, answer, stop);
        ShapeFacts();
        if stop != skip {
          var yes := ProbeChild(stop, doc);
          if yes == answer { return; }
        }
        stop := stop + 1;
      }
      T.ProbeEnd(kids, skip, doc);
    }

    // -------------------------------------------------------------- next_doc

    /** next_doc: the next document of the match set, 0 when there is none. */
    method NextDoc() returns (doc: nat)
      requires Valid()
      modifies Repr
      ensures Valid() && Repr == old(Repr) && (Node(), doc) == T.NextDoc(old(Node()))
      decreases Repr, 1
    {
      match kind
      case TermKind =>
        doc := R.TermNextDoc(streams);
      case PhraseKind =>
        doc := R.PhraseNextDoc(streams);
      case AndKind =>
        if driver < 0 { return 0; }
        doc := AndNextDoc();
      case OrKind =>
        doc := OrNextDoc();
    }

    /** AndOp::next_doc: the driver proposes, the others are probed. */
    method AndNextDoc() returns (doc: nat)
      requires Valid() && kind == AndKind && 0 <= driver
      modifies Repr - {this}
      ensures Valid() && Repr == old(Repr)
      ensures (Node(), doc) == T.Leap(old(Node()))
      decreases Repr, 0, 1
    {
      hide T.Probe, T.NextDoc, T.FirstAnswer, T.ProbeUpTo, T.Accepted, R.ValidReaders, T.Size, T.PlanOf, Shape;
      ghost var start := Node();
      while true
        invariant Valid() && Repr == old(Repr)
        invariant T.Leap(Node()) == T.Leap(start)
        decreases T.Size(Node())
      {
        ghost var n := Node();
        ShapeFacts();
        doc := AdvanceChild(driver);
        if doc == 0 {
          assert Node() == T.Proposed(n);
          return 0;
        }
        T.DriverIsSkipped(n, doc);
        var stop := ProbeChildren(driver, doc, false);
        assert Node() == T.Proposed(n);
        if stop == |children| { return doc; }
      }
    }

    /** Moving one child moves no other. */
    method AdvanceChild(i: nat) returns (doc: nat)
      requires Shape() && !IsLeaf() && i < |children| && T.Valid(children[i].Node())
      modifies children[i].Repr
      ensures Shape() && Repr == old(Repr)
      ensures var (c, d) := T.NextDoc(old(Kids())[i]); Kids() == old(Kids())[i := c] && doc == d
      decreases Repr, 0, 0
    {
      hide T.NextDoc, T.Valid, R.ValidReaders;
      doc := children[i].NextDoc();
      ChildMoved(i);
    }

    /** OrOp::next_doc: children that stood at the document last returned move on, then the least stands. */
    method OrNextDoc() returns (minDoc: nat)
      requires Valid() && kind == OrKind
      modifies Repr
      ensures Valid() && Repr == old(Repr) && (Node(), minDoc) == T.NextDoc(old(Node()))
      decreases Repr, 0, 3
    {
      hide T.AdvanceStanding, T.NextDoc, R.ValidReaders, T.Valid, Shape, Node, T.MinDoc;
      StandingFacts();
      T.OrNextIs(Node());
      var docs := AdvanceStanding();
      minDoc := MinDoc(docs);
      ShapeFacts();
      Stand(docs, minDoc);
    }

    method Stand(docs: seq<nat>, minDoc: nat)
      requires Shape() && kind == OrKind
      modifies this
      ensures Shape() && Repr == old(Repr) && Node() == T.Or(old(Kids()), docs, minDoc)
    {
      currentDocs := docs;
      pendingAdvance := minDoc;
      OwnFieldsMoved();
    }

    static method MinDoc(docs: seq<nat>) returns (m: nat)
      ensures m == T.MinDoc(docs)
    {
      m := 0;
      for i := 0 to |docs|
        invariant m == T.MinDoc(docs[..i])
      {
        assert docs[..i + 1][..i] == docs[..i];
        if docs[i] != 0 && (m == 0 || docs[i] < m) { m := docs[i]; }
      }
      assert docs[..|docs|] == docs;
    }

    /** The lazy advance. */
    method AdvanceStanding() returns (docs: seq<nat>)
      requires Valid() && kind == OrKind
      modifies Repr - {this}
      ensures Shape() && Repr == old(Repr)
      ensures (Kids(), docs) == T.AdvanceStanding(old(Node()))
      decreases Repr, 0, 2
    {
      hide T.NextDoc, T.Valid, R.ValidReaders, Shape, Node, T.AdvanceStanding, T.StandingUpTo, T.AdvanceChild;
      ghost var n := Node();
      StandingFacts();
      docs := currentDocs;
      for i := 0 to |currentDocs|
        invariant Shape() && Repr == old(Repr) && (Kids(), docs) == T.StandingUpTo(n, i)
      {
        docs := StandOne(docs, i, n);
      }
    }

    lemma StandingFacts()
      requires Valid() && kind == OrKind
      ensures var n := Node();
              && this in Repr && n.Or? && T.Valid(n) && |n.children| == |currentDocs| == |children|
              && n.current == currentDocs && n.pendingAdvance == pendingAdvance
              && T.StandingUpTo(n, 0) == (Kids(), currentDocs)
              && T.StandingUpTo(n, |currentDocs|) == T.AdvanceStanding(n)
    {
      hide T.AdvanceStanding, T.StandingUpTo, R.ValidReaders, T.NextDoc;
      T.StandingEnds(Node());
    }

    /** One round of the lazy advance. */
    method StandOne(before: seq<nat>, i: nat, ghost n: T.Node) returns (docs: seq<nat>)
      requires Shape() && kind == OrKind && n.Or? && T.Valid(n)
      requires |n.children| == |n.current| == |children| && i < |children| && n.current == currentDocs && n.pendingAdvance == pendingAdvance
      requires (Kids(), before) == T.StandingUpTo(n, i)
      modifies Repr - {this}
      ensures Shape() && Repr == old(Repr) && (Kids(), docs) == T.StandingUpTo(n, i + 1)
      decreases Repr, 0, 1
    {
      hide T.NextDoc, T.Valid, R.ValidReaders, Shape, Node, T.StandingUpTo;
      T.StandingStep(n, i);
      T.ChildValid(n, i);
      ShapeFacts();
      if pendingAdvance != 0 && currentDocs[i] == pendingAdvance {
        var d := AdvanceChild(i);
        docs := before[i := d];
      } else {
        docs := before;
        assert Kids()[i := n.children[i]] == Kids() && docs[i := n.current[i]] == docs;
      }
    }

    /** Changing this node's own fields moves no child. */
    twostate lemma OwnFieldsMoved()
      requires old(Shape()) && Repr == old(Repr) && children == old(children)
      requires forall o | o in Repr && o != this :: unchanged(o)
      ensures Shape() && Kids() == old(Kids()) && R.Cursors(streams) == old(R.Cursors(streams))
    {
      hide R.ValidReaders;
      forall j | 0 <= j < |children|
        ensures children[j].Repr == old(children[j].Repr) && children[j].Shape()
        ensures children[j].Node() == old(children[j].Node())
      {
      }
    }

    /** Moving one child moves no other. */
    method ProbeChild(i: nat, doc: nat) returns (yes: bool)
      requires Shape() && !IsLeaf() && 0 < doc && i < |children| && T.Valid(children[i].Node())
      modifies children[i].Repr
      ensures Shape() && Repr == old(Repr)
      ensures var (c, a) := T.Probe(old(Kids())[i], doc); Kids() == old(Kids())[i := c] && yes == a
      decreases Repr, 0, 0
    {
      hide T.Probe, T.Valid, R.ValidReaders;
      yes := children[i].Probe(doc);
      ChildMoved(i);
    }

    /** The frame of a child's move. */
    twostate lemma ChildMoved(i: nat)
      requires old(Shape()) && !IsLeaf() && i < |children| && unchanged(this)
      requires forall o | o in Repr && o !in old(children[i].Repr) :: unchanged(o)
      requires children[i].Shape() && children[i].Repr == old(children[i].Repr)
      ensures Shape() && Kids() == old(Kids())[i := children[i].Node()]
    {
      hide R.ValidReaders;
      forall j | 0 <= j < |children| && j != i
        ensures children[j].Repr == old(children[j].Repr) && children[j].Shape()
        ensures children[j].Node() == old(children[j].Node())
      {
      }
    }

    // -------------------------------------------------------------- building

    /** AndOp::add_child: the rarest driveable child so far drives. */
    method AddAndChild(c: QueryIsr)
      requires Valid() && kind == AndKind && c.Valid() && c.Repr !! Repr
      requires driver == B.PickDriver(Kids(), |children|)
      requires driver >= 0 ==> driverScore == B.Estimate(Kids()[driver])
      modifies this
      ensures Valid() && Repr == old(Repr) + old(c.Repr)
      ensures children == old(children) + [c] && Kids() == old(Kids()) + [old(c.Node())]
      ensures driver == B.PickDriver(Kids(), |children|)
      ensures driver >= 0 ==> driverScore == B.Estimate(Kids()[driver])
    {
      hide R.ValidReaders, T.Valid, B.Driveable, B.Estimate, B.PickDriver, T.PlanOf, Shape, Node;
      var s := c.EstimatedNDocs();
      var d := c.IsDriveable();
      var newDriver, newScore := driver, driverScore;
      if d && (driver == -1 || s < driverScore) {
        newDriver, newScore := |children|, s;
      }
      AndParts();
      DriverOfMore(Kids(), c.Node(), newDriver, newScore);
      AttachAnd(c, newDriver, newScore);
    }

    method AttachAnd(c: QueryIsr, newDriver: int, newScore: nat)
      requires Shape() && kind == AndKind && c.Shape() && c.Repr !! Repr
      modifies this
      ensures Shape() && Repr == old(Repr) + old(c.Repr)
      ensures children == old(children) + [c] && Kids() == old(Kids()) + [old(c.Node())]
      ensures driver == newDriver && driverScore == newScore && Node() == T.And(Kids(), newDriver)
    {
      AppendChild(c);
      SetDriver(newDriver, newScore);
    }

    method SetDriver(newDriver: int, newScore: nat)
      requires Shape()
      modifies `driver, `driverScore
      ensures Shape() && Kids() == old(Kids()) && driver == newDriver && driverScore == newScore
    {
      driver, driverScore := newDriver, newScore;
      OwnFieldsMoved();
    }

    lemma AndParts()
      requires Valid() && !IsLeaf()
      ensures this in Repr && T.AllValid(Kids()) && (kind == AndKind ==> -1 <= driver < |children|)
      ensures kind == OrKind ==> |currentDocs| == |children|
    {
    }

    /** The choice add_child makes for its new child keeps the driver the one PickDriver picks. */
    static lemma DriverOfMore(kids: seq<T.Node>, c: T.Node, driver: int, score: nat)
      requires T.AllValid(kids) && T.Valid(c)
      requires var d := B.PickDriver(kids, |kids|);
               if B.Driveable(T.PlanOf(c)) && (d == -1 || B.Estimate(c) < B.Estimate(kids[d]))
               then driver == |kids| && score == B.Estimate(c)
               else driver == d && (d >= 0 ==> score == B.Estimate(kids[d]))
      ensures var all := kids + [c];
              && driver == B.PickDriver(all, |all|)
              && (driver >= 0 ==> score == B.Estimate(all[driver]))
              && T.Valid(T.And(all, driver))
    {
      hide B.Driveable, B.Estimate, T.PlanOf, T.Valid, B.PickDriver;
      DriverOfPrefix(kids, c, |kids|);
      var all := kids + [c];
      assert all[|kids|] == c;
      PickOneMore(all, |kids|);
      assert B.PickDriver(kids, |kids|) >= 0 ==> all[B.PickDriver(kids, |kids|)] == kids[B.PickDriver(kids, |kids|)];
      T.ValidAnd(all, driver);
    }

    static lemma PickOneMore(all: seq<T.Node>, k: nat)
      requires k < |all|
      ensures var d := B.PickDriver(all, k);
              B.PickDriver(all, k + 1) ==
              if B.Driveable(T.PlanOf(all[k])) && (d == -1 || B.Estimate(all[k]) < B.Estimate(all[d])) then k else d
    {
      hide B.Driveable, B.Estimate, T.PlanOf;
    }

    static lemma {:induction false} DriverOfPrefix(kids: seq<T.Node>, c: T.Node, k: nat)
      requires k <= |kids|
      ensures B.PickDriver(kids + [c], k) == B.PickDriver(kids, k)
    {
      hide B.Driveable, B.Estimate, T.PlanOf, B.PickDriver;
      if k > 0 {
        DriverOfPrefix(kids, c, k - 1);
        PickOneMore(kids, k - 1);
        PickOneMore(kids + [c], k - 1);
      } else {
        PickNone(kids);
        PickNone(kids + [c]);
      }
    }

    static lemma PickNone(all: seq<T.Node>)
      ensures B.PickDriver(all, 0) == -1
    {
    }

    method AppendChild(c: QueryIsr)
      requires Shape() && !IsLeaf() && c.Shape() && c.Repr !! Repr
      modifies `children, `Repr
      ensures Shape() && Repr == old(Repr) + old(c.Repr)
      ensures children == old(children) + [c] && Kids() == old(Kids()) + [old(c.Node())]
    {
      children := children + [c];
      Repr := Repr + c.Repr;
    }

    /** OrOp::add_child: the child's first document is taken at once. */
    method AddOrChild(c: QueryIsr)
      requires Valid() && kind == OrKind && pendingAdvance == 0 && c.Valid() && c.Repr !! Repr
      modifies this, c.Repr
      ensures Valid() && Repr == old(Repr) + old(c.Repr) && pendingAdvance == 0
      ensures children == old(children) + [c]
      ensures var (n, doc) := T.NextDoc(old(c.Node()));
              Kids() == old(Kids()) + [n] && currentDocs == old(currentDocs) + [doc]
    {
      hide R.ValidReaders, T.Valid, T.NextDoc, Shape;
      AndParts();
      ShapeFacts();
      var doc := c.NextDoc();
      AppendChild(c);
      SetCurrent(currentDocs + [doc]);
      T.ValidOr(Kids(), currentDocs);
    }

    method SetCurrent(docs: seq<nat>)
      requires Shape()
      modifies `currentDocs
      ensures Shape() && Kids() == old(Kids()) && currentDocs == docs
    {
      currentDocs := docs;
      OwnFieldsMoved();
    }
  }
}
