/**
  Building the executor tree for a query and running it (build_isr_tree, add_child
  and the driving loop), and the theorem about whole runs.
*/
module IsrBuild {
  import opened Bytes
  import opened Postings
  import PhraseWalk
  import opened IsrTree
  import opened IsrMeaning
  import Q = QueryAst

  // ---------------------------------------------------------------- index

  datatype PostingList = PostingList(posts: seq<Post>, nDocs: nat)

  /** What LoadedIndex::lookup finds: the posting list of each dictionary word. */
  type Index = map<Text, PostingList>

  ghost predicate ValidIndex(index: Index) {
    forall w | w in index :: Ascending(index[w].posts)
  }

  function ListOf(index: Index, w: Text): PostingList {
    if w in index then index[w] else PostingList([], 0)
  }

  function Open(index: Index, w: Text): (c: Cursor)
    ensures ValidIndex(index) ==> c.Valid()
  {
    Fresh(ListOf(index, w).posts, ListOf(index, w).nDocs)
  }

  /** Words of a phrase: maximal runs without a space. */
  function SplitOnSpaces(s: Text): seq<Text>
    decreases |s|
  {
    var start := SkipSpaces(s, 0);
    if start >= |s| then []
    else
      var end := WordEnd(s, start);
      [s[start..end]] + SplitOnSpaces(s[end..])
  }

  function SkipSpaces(s: Text, i: nat): (r: nat)
    requires i <= |s|
    ensures i <= r <= |s| && (r < |s| ==> s[r] != SPACE) && forall j | i <= j < r :: s[j] == SPACE
    decreases |s| - i
  {
    if i < |s| && s[i] == SPACE then SkipSpaces(s, i + 1) else i
  }

  function WordEnd(s: Text, i: nat): (r: nat)
    requires i < |s| && s[i] != SPACE
    ensures i < r <= |s| && (r < |s| ==> s[r] == SPACE) && forall j | i <= j < r :: s[j] != SPACE
    decreases |s| - i
  {
    if i + 1 < |s| && s[i + 1] != SPACE then WordEnd(s, i + 1) else i + 1
  }

  lemma SplitFirst(u: Text, a: nat, b: nat)
    requires a < b <= |u|
    requires forall j | 0 <= j < a :: u[j] == SPACE
    requires forall j | a <= j < b :: u[j] != SPACE
    requires b < |u| ==> u[b] == SPACE
    ensures SplitOnSpaces(u) == [u[a..b]] + SplitOnSpaces(u[b..])
  {
    hide SkipSpaces, WordEnd;
    var r := SkipSpaces(u, 0);
    assert u[a] != SPACE && r <= a;
    assert r == a;
    assert WordEnd(u, a) == b;
  }

  /** The word that starts at `start`, found in the suffix from `i`, and what follows it. */
  lemma SplitStep(s: Text, i: nat, start: nat, end: nat)
    requires i <= start < end <= |s|
    requires forall j | i <= j < start :: s[j] == SPACE
    requires forall j | start <= j < end :: s[j] != SPACE
    requires end < |s| ==> s[end] == SPACE
    ensures SplitOnSpaces(s[i..]) == [s[start..end]] + SplitOnSpaces(s[end..])
  {
    hide SplitOnSpaces;
    var u := s[i..];
    SplitFirst(u, start - i, end - i);
    assert u[start - i..end - i] == s[start..end];
    assert u[end - i..] == s[end..];
  }

  lemma OnlySpaces(s: Text, i: nat)
    requires i <= |s| && forall j | i <= j < |s| :: s[j] == SPACE
    ensures SplitOnSpaces(s[i..]) == []
  {
    var u := s[i..];
    assert forall j | 0 <= j < |u| :: u[j] == s[i + j];
  }

  /** Words with the spaces before each of them. */
  function Spread(gaps: seq<Text>, ws: seq<Text>): Text
    requires |gaps| == |ws|
  {
    if ws == [] then [] else gaps[0] + ws[0] + Spread(gaps[1..], ws[1..])
  }

  /** Not empty, and without a space (32). */
  predicate AreWords(ws: seq<Text>) {
    forall i | 0 <= i < |ws| :: ws[i] != [] && 32 !in ws[i]
  }

  predicate Blank(s: Text) {
    forall i | 0 <= i < |s| :: s[i] == 32
  }

  /** Spaces only, and none missing between two words. */
  predicate AreGaps(gaps: seq<Text>) {
    forall i | 0 <= i < |gaps| :: Blank(gaps[i]) && (i > 0 ==> gaps[i] != [])
  }

  /** Whatever spaces stand around and between words, splitting gives the words back. */
  lemma {:induction false} SplitSpread(gaps: seq<Text>, ws: seq<Text>, tail: Text)
    requires |gaps| == |ws| && AreGaps(gaps) && AreWords(ws) && Blank(tail)
    ensures SplitOnSpaces(Spread(gaps, ws) + tail) == ws
    decreases |ws|
  {
    hide SplitOnSpaces, Spread;
    SpreadStep(gaps, ws, tail);
    if ws == [] {
      assert tail[0..] == tail;
      OnlySpaces(tail, 0);
    } else {
      var rest := Spread(gaps[1..], ws[1..]) + tail;
      SplitSpread(gaps[1..], ws[1..], tail);
      SpreadStep(gaps[1..], ws[1..], tail);
      FirstWord(gaps[0], ws[0], rest);
      assert ws == [ws[0]] + ws[1..];
    }
  }

  /** The text of the words, one word at a time; what follows a word begins with a space, if it is there at all. */
  lemma SpreadStep(gaps: seq<Text>, ws: seq<Text>, tail: Text)
    requires |gaps| == |ws| && Blank(tail)
    ensures ws == [] ==> Spread(gaps, ws) + tail == tail
    ensures ws != [] ==> Spread(gaps, ws) + tail == gaps[0] + ws[0] + (Spread(gaps[1..], ws[1..]) + tail)
    ensures ws != [] && gaps[0] != [] && Blank(gaps[0]) ==> (Spread(gaps, ws) + tail)[0] == 32
  {
  }

  lemma FirstWord(gap: Text, w: Text, rest: Text)
    requires Blank(gap) && w != [] && 32 !in w && (rest != [] ==> rest[0] == 32)
    ensures SplitOnSpaces(gap + w + rest) == [w] + SplitOnSpaces(rest)
  {
    hide SplitOnSpaces;
    var u := gap + w + rest;
    var a, b := |gap|, |gap| + |w|;
    forall j | a <= j < b ensures u[j] != SPACE { assert u[j] == w[j - a] && w[j - a] in w; }
    SplitFirst(u, a, b);
    assert u[a..b] == w && u[b..] == rest;
  }

  // ---------------------------------------------------------------- meaning

  function WordsOf(t: Q.TermData): seq<Text> {
    if t.isPhrase then SplitOnSpaces(t.val) else [t.val]
  }

  /** A leaf asks for its word, and a phrase for all its words in order, however they are spaced. */
  lemma WordsAre(gaps: seq<Text>, ws: seq<Text>, tail: Text, w: Text, negated: bool, id: nat)
    requires |gaps| == |ws| && AreGaps(gaps) && AreWords(ws) && Blank(tail)
    ensures WordsOf(Q.TermData(Spread(gaps, ws) + tail, negated, true, id)) == ws
    ensures WordsOf(Q.TermData(w, negated, false, id)) == [w]
  {
    SplitSpread(gaps, ws, tail);
  }

  /** The words stand one after the other from `pos` on in `doc`. */
  ghost predicate StandAt(index: Index, words: seq<Text>, doc: nat, pos: nat) {
    |words| > 0 && forall i | 0 <= i < |words| :: Post(doc, pos + i) in ListOf(index, words[i]).posts
  }

  /** The set semantics of a query: which documents it asks for. */
  ghost predicate Holds(a: Q.Ast, index: Index, doc: nat) {
    match a
    case AstTerm(t) => (exists pos: nat :: StandAt(index, WordsOf(t), doc, pos)) != t.negated
    case AstAnd(cs) => forall i | 0 <= i < |cs| :: Holds(cs[i], index, doc)
    case AstOr(cs) => exists i | 0 <= i < |cs| :: Holds(cs[i], index, doc)
  }

  // ---------------------------------------------------------------- building

  predicate Driveable(p: Plan) {
    match p
    case PLeaf(negated, _) => !negated
    case PAnd(parts, _) => exists i | 0 <= i < |parts| :: Driveable(parts[i])
    case POr(parts) => |parts| > 0 && forall i | 0 <= i < |parts| :: Driveable(parts[i])
  }

  /** estimated_n_docs: the header's document count, minimum over an AND, capped sum over an OR. */
  function Estimate(n: Node): nat {
    match n
    case Leaf(_, ss) => MinDocs(ss)
    case And(cs, _) => MinEstimate(cs, |cs|).1
    case Or(cs, _, _) => SumEstimate(cs, |cs|)
  }

  function MinDocs(ss: PhraseWalk.Streams): nat {
    if |ss| == 0 then 0
    else if |ss| == 1 then ss[0].nDocs
    else
      var m := MinDocs(ss[..|ss| - 1]);
      if ss[|ss| - 1].nDocs < m then ss[|ss| - 1].nDocs else m
  }

  function MinEstimate(cs: seq<Node>, k: nat): (bool, nat)
    requires k <= |cs|
    decreases cs, k
  {
    if k == 0 then (false, 0)
    else
      var (any, best) := MinEstimate(cs, k - 1);
      if !Driveable(PlanOf(cs[k - 1])) then (any, best)
      else
        var e := Estimate(cs[k - 1]);
        if !any || e < best then (true, e) else (any, best)
  }

  function SumEstimate(cs: seq<Node>, k: nat): nat
    requires k <= |cs|
    decreases cs, k
  {
    if k == 0 then 0
    else
      var sum := SumEstimate(cs, k - 1) + Estimate(cs[k - 1]);
      if sum >= UINT32_MAX then UINT32_MAX else sum
  }

  /** AndOp::add_child, child after child: the rarest driveable child drives, the first of equals. */
  function PickDriver(cs: seq<Node>, k: nat): (r: int)
    requires k <= |cs|
    ensures -1 <= r < k
    ensures r == -1 <==> forall i | 0 <= i < k :: !Driveable(PlanOf(cs[i]))
    ensures r >= 0 ==> Driveable(PlanOf(cs[r]))
    ensures r >= 0 ==> forall i | 0 <= i < k && Driveable(PlanOf(cs[i])) :: Estimate(cs[r]) <= Estimate(cs[i])
  {
    if k == 0 then -1
    else
      var d := PickDriver(cs, k - 1);
      if Driveable(PlanOf(cs[k - 1])) && (d == -1 || Estimate(cs[k - 1]) < Estimate(cs[d])) then k - 1 else d
  }

  /** A leaf's estimate is the least document count of its words. */
  lemma {:induction false} MinDocsIs(ss: PhraseWalk.Streams)
    ensures ss == [] ==> MinDocs(ss) == 0
    ensures ss != [] ==> (exists i | 0 <= i < |ss| :: ss[i].nDocs == MinDocs(ss)) && forall i | 0 <= i < |ss| :: MinDocs(ss) <= ss[i].nDocs
  {
    if |ss| > 1 {
      var before := ss[..|ss| - 1];
      MinDocsIs(before);
      var i :| 0 <= i < |before| && before[i].nDocs == MinDocs(before);
      assert ss[i] == before[i] && ss[|ss| - 1].nDocs >= MinDocs(ss);
      assert forall j | 0 <= j < |before| :: before[j] == ss[j];
    } else if |ss| == 1 {
      assert ss[0].nDocs == MinDocs(ss);
    }
  }

  /** An AND's that of its rarest driveable child; 0 when there is none. */
  lemma {:induction false} MinEstimateIs(cs: seq<Node>, k: nat)
    requires k <= |cs|
    ensures MinEstimate(cs, k).0 <==> exists i | 0 <= i < k :: Driveable(PlanOf(cs[i]))
    ensures !MinEstimate(cs, k).0 ==> MinEstimate(cs, k).1 == 0
    ensures MinEstimate(cs, k).0 ==>
              && (exists i | 0 <= i < k :: Driveable(PlanOf(cs[i])) && Estimate(cs[i]) == MinEstimate(cs, k).1)
              && forall i | 0 <= i < k && Driveable(PlanOf(cs[i])) :: MinEstimate(cs, k).1 <= Estimate(cs[i])
    decreases k
  {
    hide PlanOf, Driveable, Estimate;
    if k > 0 { MinEstimateIs(cs, k - 1); }
  }

  function Sum(ns: seq<nat>): nat {
    if ns == [] then 0 else Sum(ns[..|ns| - 1]) + ns[|ns| - 1]
  }

  /** An OR's the sum over its children, cut off at 32 bits. */
  lemma {:induction false} SumEstimateIs(cs: seq<Node>, k: nat)
    requires k <= |cs|
    ensures var sum := Sum(seq(k, i requires 0 <= i < k => Estimate(cs[i])));
            SumEstimate(cs, k) == if sum >= 0xFFFF_FFFF then 0xFFFF_FFFF else sum
    decreases k
  {
    hide Estimate;
    if k > 0 {
      SumEstimateIs(cs, k - 1);
      var all := seq(k, i requires 0 <= i < k => Estimate(cs[i]));
      assert all[..k - 1] == seq(k - 1, i requires 0 <= i < k - 1 => Estimate(cs[i]));
    }
  }

  function OpenAll(index: Index, words: seq<Text>): (ss: PhraseWalk.Streams)
    ensures |ss| == |words| && forall i | 0 <= i < |ss| :: ss[i] == Open(index, words[i])
  {
    seq(|words|, i requires 0 <= i < |words| => Open(index, words[i]))
  }

  /** build_isr_tree: OrOp::add_child takes each child's first document as it is added. */
  function Build(a: Q.Ast, index: Index): (n: Node)
    requires ValidIndex(index)
    ensures Valid(n)
    decreases a
  {
    match a
    case AstTerm(t) => Leaf(t.negated, OpenAll(index, WordsOf(t)))
    case AstAnd(cs) =>
      var kids := BuildAll(cs, index);
      And(kids, PickDriver(kids, |kids|))
    case AstOr(cs) =>
      var kids := BuildAll(cs, index);
      Or(seq(|kids|, i requires 0 <= i < |kids| => NextDoc(kids[i]).0),
         seq(|kids|, i requires 0 <= i < |kids| => NextDoc(kids[i]).1), 0)
  }

  function BuildAll(cs: seq<Q.Ast>, index: Index): (r: seq<Node>)
    requires ValidIndex(index)
    ensures |r| == |cs| && AllValid(r) && forall i | 0 <= i < |cs| :: r[i] == Build(cs[i], index)
    decreases cs, 0
  {
    seq(|cs|, i requires 0 <= i < |cs| => Build(cs[i], index))
  }

  lemma BuildTermMeaning(t: Q.TermData, index: Index)
    requires ValidIndex(index)
    ensures forall doc :: Matches(PlanOf(Build(Q.AstTerm(t), index)), doc) <==> Holds(Q.AstTerm(t), index, doc)
  {
    var p := PlanOf(Build(Q.AstTerm(t), index));
    forall doc, pos: nat ensures PhraseAt(p.words, doc, pos) <==> StandAt(index, WordsOf(t), doc, pos) {
    }
  }

  lemma BuiltAnd(cs: seq<Q.Ast>, index: Index)
    requires ValidIndex(index)
    ensures var p := PlanOf(Build(Q.AstAnd(cs), index));
            && p.PAnd? && |p.parts| == |cs| && -1 <= p.driver < |cs|
            && (forall i | 0 <= i < |cs| :: p.parts[i] == PlanOf(Build(cs[i], index)))
            && (p.driver == -1 <==> forall i | 0 <= i < |cs| :: !Driveable(p.parts[i]))
            && (p.driver >= 0 ==> Driveable(p.parts[p.driver]))
  {
    hide NextDoc, Valid, ValidIndex;
  }

  lemma BuiltOr(cs: seq<Q.Ast>, index: Index)
    requires ValidIndex(index)
    ensures var p := PlanOf(Build(Q.AstOr(cs), index));
            && p.POr? && |p.parts| == |cs|
            && forall i | 0 <= i < |cs| :: p.parts[i] == PlanOf(Build(cs[i], index))
  {
    hide NextDoc, Valid, ValidIndex;
  }

  lemma BuiltAndNodes(cs: seq<Q.Ast>, index: Index)
    requires ValidIndex(index)
    ensures var n := Build(Q.AstAnd(cs), index);
            n.And? && |n.children| == |cs| && forall i | 0 <= i < |cs| :: n.children[i] == Build(cs[i], index)
  {
    hide NextDoc, Valid, ValidIndex;
  }

  lemma BuiltOrNodes(cs: seq<Q.Ast>, index: Index)
    requires ValidIndex(index)
    ensures var n := Build(Q.AstOr(cs), index);
            && n.Or? && |n.children| == |n.current| == |cs| && n.pendingAdvance == 0
            && forall i | 0 <= i < |cs| :: (n.children[i], n.current[i]) == NextDoc(Build(cs[i], index))
  {
    hide NextDoc, Valid, ValidIndex;
  }

  /** Building a query keeps its meaning. */
  lemma {:induction false} BuildMeaning(a: Q.Ast, index: Index)
    requires ValidIndex(index)
    ensures forall doc :: Matches(PlanOf(Build(a, index)), doc) <==> Holds(a, index, doc)
    decreases a
  {
    hide Build, PlanOf, ValidIndex, PhraseIn;
    match a
    case AstTerm(t) =>
      BuildTermMeaning(t, index);
    case AstAnd(cs) =>
      BuiltAnd(cs, index);
      forall i | 0 <= i < |cs| { BuildMeaning(cs[i], index); }
    case AstOr(cs) =>
      BuiltOr(cs, index);
      forall i | 0 <= i < |cs| { BuildMeaning(cs[i], index); }
  }

  lemma LeafFlags(t: Q.TermData, index: Index)
    requires ValidIndex(index)
    ensures Driveable(PlanOf(Build(Q.AstTerm(t), index))) <==> !t.negated
    ensures IsrMeaning.NegationFree(PlanOf(Build(Q.AstTerm(t), index))) <==> !t.negated
  {
  }

  /** The built tree is driveable, or free of negation, when the query is. */
  lemma {:induction false} BuildFlags(a: Q.Ast, index: Index)
    requires ValidIndex(index)
    ensures Driveable(PlanOf(Build(a, index))) <==> Q.Driveable(a)
    ensures IsrMeaning.NegationFree(PlanOf(Build(a, index))) <==> Q.NegationFree(a)
    decreases a
  {
    hide Build, PlanOf, ValidIndex;
    match a
    case AstTerm(t) => LeafFlags(t, index);
    case AstAnd(cs) =>
      BuiltAnd(cs, index);
      forall i | 0 <= i < |cs| { BuildFlags(cs[i], index); }
    case AstOr(cs) =>
      BuiltOr(cs, index);
      forall i | 0 <= i < |cs| { BuildFlags(cs[i], index); }
  }

  /** The driver of every AND is one of its driveable children, if there are any. */
  predicate WellDriven(p: Plan) {
    match p
    case PLeaf(_, _) => true
    case PAnd(parts, driver) =>
      && (forall i | 0 <= i < |parts| :: WellDriven(parts[i]))
      && (if driver == -1 then !Driveable(p) else 0 <= driver < |parts| && Driveable(parts[driver]))
    case POr(parts) => forall i | 0 <= i < |parts| :: WellDriven(parts[i])
  }

  lemma {:induction false} BuildWellDriven(a: Q.Ast, index: Index)
    requires ValidIndex(index)
    ensures WellDriven(PlanOf(Build(a, index)))
    decreases a
  {
    match a
    case AstTerm(_) =>
    case AstAnd(cs) =>
      hide Build, PlanOf, ValidIndex;
      BuiltAnd(cs, index);
      forall i | 0 <= i < |cs| { BuildWellDriven(cs[i], index); }
    case AstOr(cs) =>
      hide Build, PlanOf, ValidIndex;
      BuiltOr(cs, index);
      forall i | 0 <= i < |cs| { BuildWellDriven(cs[i], index); }
  }

  lemma FreshLeafReady(index: Index, words: seq<Text>)
    requires ValidIndex(index)
    ensures var ss := OpenAll(index, words);
            PhraseWalk.Driven(ss, 0) && forall lo :: PhraseWalk.Ready(ss, Post(lo, 0))
  {
    hide Ascending, PhraseWalk.HitAt;
  }

  lemma UnmovedAnd(n: Node)
    requires Valid(n) && n.And? && n.driver < 0
    ensures NextDoc(n).0 == n
  {
  }

  // ---------------------------------------------------------------- whole runs

  /** The loop of chunk_manager::query: next_doc until it answers 0. */
  function Run(n: Node): seq<nat>
    requires Valid(n)
    decreases Size(n)
  {
    var (n', doc) := NextDoc(n);
    if doc == 0 then [] else [doc] + Run(n')
  }

  ghost predicate Increasing(docs: seq<nat>) {
    forall i, j | 0 <= i < j < |docs| :: docs[i] < docs[j]
  }
}
