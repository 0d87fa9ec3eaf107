/**
  parse_query_tree (query/expressions.h), from the text of a query to its trie, and what
  the trie answers compared with what the query means.
*/
module QueryCompiler {
  import opened Bytes
  import opened QueryAst
  import opened QueryMeaning
  import opened QueryDnf
  import opened QueryParser
  import opened QueryPathSort
  import opened QueryTokens
  import opened QueryTrie

  /** The root is null when the query has no token. */
  datatype ParseResult = ParseResult(arena: QueryArena?, uniqueTerms: seq<Term>)

  predicate HasText(t: TermData) {
    t.val != []
  }

  /** The trie holds the sorted paths of the query, and every node is numbered. */
  ghost predicate Compiled(nodes: seq<QueryNode>, labels: Labels, dict: seq<Term>, a: Ast, sorted: seq<Path>) {
    && SortedPaths(sorted, Dnf(a))
    && Prefixes(labels, sorted)
    && Linked(nodes, labels)
    && Ready(nodes, labels, dict)
  }

  /** The check of the front end: does some path have no positive term? */
  method FindOnlyNegated(paths: seq<Path>) returns (found: bool)
    ensures found <==> !AllPositive(paths)
  {
    for p := 0 to |paths|
      invariant forall q | 0 <= q < p :: HasPositive(paths[q])
    {
      var hasPositive := false;
      for t := 0 to |paths[p]|
        invariant hasPositive ==> HasPositive(paths[p])
        invariant !hasPositive ==> forall u | 0 <= u < t :: paths[p][u].negated
      {
        if !paths[p][t].negated { hasPositive := true; }
      }
      if !hasPositive { return true; }
    }
    found := false;
  }

  /** parse_query_tree */
  method ParseQueryTree(query: Text) returns (r: Result<ParseResult>, ghost sorted: seq<Path>)
    ensures Lex(query) == [] ==> r == Ok(ParseResult(null, []))
    ensures Lex(query) != [] && r.Ok? ==> exists ss :: Spells(ss, Lex(query))
    ensures forall ss | Spells(ss, Lex(query)) ::
              var a := AstOfExpr(ss, 0);
              && (!Driveable(a) <==> r == Err(OnlyNegated))
              && (Driveable(a) ==> SortedPaths(sorted, Dnf(a))
                                   && (r.Err? <==> |PrefixSet(sorted)| > 128) && (r.Err? ==> r == Err(ArenaFull))
                                   && (Terms(Dnf(a)) < 128 ==> r.Ok?))
              && (r.Ok? ==> r.value.arena != null && r.value.arena.Valid()
                            && Compiled(r.value.arena.nodes, r.value.arena.labels, r.value.uniqueTerms, a, sorted))
  {
    hide Lex, Spells, AstOfExpr, Dnf, AllPositive, Compiled, Driveable, SortedPaths, Prefixes, PrefixSet, Proper,
      QueryTrie.Distinct;
    sorted := [];
    var tokens := Tokenize(query);
    if |tokens| == 0 {
      SpellsSomething();
      return Ok(ParseResult(null, [])), [];
    }
    var parsed := ParseAst(tokens);
    if parsed.Err? { return Err(parsed.error), []; }
    var ast := parsed.value;
    ParsedIsProper(tokens, ast);
    DriveableIffPositive(ast);
    var paths := GetDnf(ast);
    var rejected := FindOnlyNegated(paths);
    if rejected { return Err(OnlyNegated), []; }
    r, sorted := CompilePaths(paths, ast);
  }

  lemma ParsedIsProper(tokens: seq<Token>, a: Ast)
    requires forall ss | Spells(ss, tokens) :: Ok(a) == Ok(AstOfExpr(ss, 0))
    requires exists ss :: Spells(ss, tokens)
    ensures Proper(a)
  {
    hide AstOfExpr, Proper, Spells;
    var ss :| Spells(ss, tokens);
    ParsedMeaning(tokens, ss, t => true);
  }

  /** Sorting the paths, building the trie, numbering its words. */
  method CompilePaths(paths: seq<Path>, ghost a: Ast) returns (r: Result<ParseResult>, ghost sorted: seq<Path>)
    requires paths == Dnf(a) && Proper(a)
    ensures SortedPaths(sorted, Dnf(a))
    ensures r.Err? <==> |PrefixSet(sorted)| > 128
    ensures r.Err? ==> r == Err(ArenaFull)
    ensures Terms(Dnf(a)) < 128 ==> r.Ok?
    ensures r.Ok? ==> r.value.arena != null && r.value.arena.Valid()
                      && Compiled(r.value.arena.nodes, r.value.arena.labels, r.value.uniqueTerms, a, sorted)
  {
    hide Dnf, SortedPaths, Prefixes, PrefixSet, Linked, NumberedBelow, SameTree, Ready;
    var inOrder := SortPaths(paths);
    sorted := inOrder;
    if Terms(paths) < 128 { FewTermsFit(paths, inOrder); }
    var arena := new QueryArena();
    var added := arena.AddPaths(inOrder);
    if added.Err? { return Err(ArenaFull), sorted; }
    ghost var before := arena.nodes;
    RootLabel(arena.nodes, arena.labels);
    var dict := AssignWordIds(arena, 0, []);
    TrieReady(before, arena.nodes, arena.labels, dict);
    r := Ok(ParseResult(arena, dict));
  }

  /** A query whose paths have fewer than 128 terms in all is never refused for want of nodes. */
  lemma FewTermsFit(paths: seq<Path>, sorted: seq<Path>)
    requires SortedPaths(sorted, paths) && Terms(paths) < 128
    ensures |PrefixSet(sorted)| <= 128
  {
    hide PrefixSet, Sorted;
    FewPrefixes(sorted);
    forall p | 0 <= p < |paths| ensures |sorted[p]| == |paths[p]| { SameTerms(sorted[p], paths[p]); }
    SameLengths(sorted, paths);
  }

  lemma {:induction false} SameLengths(a: seq<Path>, b: seq<Path>)
    requires |a| == |b| && forall p | 0 <= p < |a| :: |a[p]| == |b[p]|
    ensures Terms(a) == Terms(b)
    decreases |a|
  {
    if a != [] { SameLengths(a[..|a| - 1], b[..|b| - 1]); }
  }

  lemma TrieReady(before: seq<QueryNode>, nodes: seq<QueryNode>, labels: Labels, dict: seq<Term>)
    requires Linked(nodes, labels) && |before| == |nodes| && NumberedBelow(before, nodes, labels, 0, dict)
    ensures Ready(nodes, labels, dict)
  {
    forall i | 0 <= i < |nodes| ensures Below(labels, 0, i) {}
  }

  lemma SortedHasText(a: Ast, sorted: seq<Path>, p: nat, k: nat)
    requires SortedPaths(sorted, Dnf(a)) && EveryLeaf(a, HasText) && p < |sorted| && k < |sorted[p]|
    ensures sorted[p][k].val != []
  {
    hide Dnf, Sorted;
    DnfTerms(a, HasText);
    SameTerms(sorted[p], Dnf(a)[p]);
    assert sorted[p][k] in sorted[p];
    assert HasText(sorted[p][k]);
  }

  // ---------------------------------------------------------------- what the compiled query answers

  /** Every path of a proper tree has a term. */
  lemma PathsAreNotEmpty(a: Ast)
    requires Proper(a) && Driveable(a)
    ensures forall p | 0 <= p < |Dnf(a)| :: Dnf(a)[p] != []
  {
    hide Dnf;
    DriveableIffPositive(a);
    forall p | 0 <= p < |Dnf(a)| ensures Dnf(a)[p] != [] {
      assert HasPositive(Dnf(a)[p]);
    }
  }

  /**
    The answer of the compiled query, for every assignment of found terms.  It is true
    exactly when the walk passes some path that no other path extends; an empty phrase at
    the end of a path stops the walk and elsewhere lets it through.  When every leaf has
    a text, a path that is passed is one that is satisfied.  So the trie is never true
    unless the query is, and it is true whenever the query is, provided that no sorted
    path is a proper prefix of another.
  */
  lemma CompiledAnswers(nodes: seq<QueryNode>, labels: Labels, dict: seq<Term>, a: Ast, sorted: seq<Path>, found: Found)
    requires Compiled(nodes, labels, dict, a, sorted) && Proper(a) && Driveable(a)
    ensures Evaluable(nodes, FoundVector(dict, found))
    ensures Evaluate(nodes, 0, FoundVector(dict, found)) <==>
            exists p :: 0 <= p < |sorted| && Unextended(sorted, p) && Passes(sorted[p], found)
    ensures EveryLeaf(a, HasText) ==>
              && (forall p | 0 <= p < |sorted| :: Passes(sorted[p], found) <==> PathTrue(sorted[p], found))
              && (Evaluate(nodes, 0, FoundVector(dict, found)) ==> True(a, found))
              && ((forall p | 0 <= p < |sorted| :: Unextended(sorted, p)) ==>
                    (Evaluate(nodes, 0, FoundVector(dict, found)) <==> True(a, found)))
  {
    hide Linked, Ready, Prefixes, Evaluable, Evaluate, Unextended, Passes, PathTrue, Dnf, Sorted;
    EvaluatesUnextended(nodes, labels, dict, sorted, found);
    if EveryLeaf(a, HasText) {
      AllPassesAreTrue(a, sorted, found);
      SortedMeaning(sorted, Dnf(a), found);
      DnfMeaning(a, found);
    }
  }

  lemma AllPassesAreTrue(a: Ast, sorted: seq<Path>, found: Found)
    requires SortedPaths(sorted, Dnf(a)) && Proper(a) && Driveable(a) && EveryLeaf(a, HasText)
    ensures forall p | 0 <= p < |sorted| :: Passes(sorted[p], found) <==> PathTrue(sorted[p], found)
  {
    hide Dnf, Sorted, Passes, PathTrue;
    PathsAreNotEmpty(a);
    forall p | 0 <= p < |sorted| ensures Passes(sorted[p], found) <==> PathTrue(sorted[p], found) {
      SameTerms(sorted[p], Dnf(a)[p]);
      forall k: nat | k < |sorted[p]| ensures sorted[p][k].val != [] { SortedHasText(a, sorted, p, k); }
      PassesIsTrue(sorted[p], found);
    }
  }

  /** Whatever satisfies a path that another path extends also satisfies one that none extends. */
  ghost predicate Replaceable(sorted: seq<Path>, p: nat)
    requires p < |sorted|
  {
    forall found: Found | PathTrue(sorted[p], found) ::
      exists q :: 0 <= q < |sorted| && Unextended(sorted, q) && PathTrue(sorted[q], found)
  }

  ghost predicate Agrees(nodes: seq<QueryNode>, dict: seq<Term>, a: Ast, found: Found)
    requires nodes != []
  {
    Evaluable(nodes, FoundVector(dict, found)) && (Evaluate(nodes, 0, FoundVector(dict, found)) <==> True(a, found))
  }

  /**
    Exactly when compiling loses nothing: trie and query agree on every assignment if and
    only if each path that another one extends can be replaced.
  */
  lemma CompiledExactly(nodes: seq<QueryNode>, labels: Labels, dict: seq<Term>, a: Ast, sorted: seq<Path>)
    requires Compiled(nodes, labels, dict, a, sorted) && Proper(a) && Driveable(a) && EveryLeaf(a, HasText)
    ensures nodes != []
    ensures (forall found :: Agrees(nodes, dict, a, found)) <==> forall p | 0 <= p < |sorted| && !Unextended(sorted, p) :: Replaceable(sorted, p)
  {
    hide Compiled, Evaluable, Evaluate, PathTrue, True, Unextended, Proper, Driveable;
    TrieNotEmpty(nodes, labels, dict, a, sorted);
    forall found
      ensures Agrees(nodes, dict, a, found) <==>
              forall p | 0 <= p < |sorted| && PathTrue(sorted[p], found) ::
                exists q :: 0 <= q < |sorted| && Unextended(sorted, q) && PathTrue(sorted[q], found)
    {
      CompiledAnswers(nodes, labels, dict, a, sorted, found);
      QueryIsPaths(nodes, labels, dict, a, sorted, found);
    }
    if forall found :: Agrees(nodes, dict, a, found) {
      forall p, found: Found | 0 <= p < |sorted| && PathTrue(sorted[p], found)
        ensures exists q :: 0 <= q < |sorted| && Unextended(sorted, q) && PathTrue(sorted[q], found)
      {
        assert Agrees(nodes, dict, a, found);
      }
    }
  }

  lemma TrieNotEmpty(nodes: seq<QueryNode>, labels: Labels, dict: seq<Term>, a: Ast, sorted: seq<Path>)
    requires Compiled(nodes, labels, dict, a, sorted)
    ensures nodes != []
  {
  }

  lemma QueryIsPaths(nodes: seq<QueryNode>, labels: Labels, dict: seq<Term>, a: Ast, sorted: seq<Path>, found: Found)
    requires Compiled(nodes, labels, dict, a, sorted)
    ensures True(a, found) <==> exists p :: 0 <= p < |sorted| && PathTrue(sorted[p], found)
  {
    hide Linked, Ready, Prefixes, PathTrue, Dnf, Sorted;
    SortedMeaning(sorted, Dnf(a), found);
    DnfMeaning(a, found);
  }

  predicate Plain(t: TermData) {
    !t.negated
  }

  /** Every term of path q is a term of path p. */
  predicate Within(q: Path, p: Path) {
    forall t | t in q :: HasTermOf(p, TermOf(t))
  }

  predicate HasTermOf(p: Path, term: Term) {
    exists u | u in p :: TermOf(u) == term
  }

  /** Without negated terms a path can be replaced exactly when it has all terms of one that none extends. */
  lemma ReplaceableIff(sorted: seq<Path>, p: nat)
    requires p < |sorted| && forall q, t | 0 <= q < |sorted| && t in sorted[q] :: Plain(t)
    ensures Replaceable(sorted, p) <==> exists q :: 0 <= q < |sorted| && Unextended(sorted, q) && Within(sorted[q], sorted[p])
  {
    hide Unextended, HasTermOf;
    if Replaceable(sorted, p) {
      var own: Found := (term: Term) => HasTermOf(sorted[p], term);
      OwnTerms(sorted[p], sorted[p], own);
      var q :| 0 <= q < |sorted| && Unextended(sorted, q) && PathTrue(sorted[q], own);
      OwnTerms(sorted[q], sorted[p], own);
    }
    if q :| 0 <= q < |sorted| && Unextended(sorted, q) && Within(sorted[q], sorted[p]) {
      forall found: Found | PathTrue(sorted[p], found) ensures PathTrue(sorted[q], found) {
        WithinIsTrue(sorted[q], sorted[p], found);
      }
    }
  }

  /** When just the terms of p are found, a path without negation is true exactly when its terms are among them. */
  lemma OwnTerms(q: Path, p: Path, own: Found)
    requires (forall t | t in q :: Plain(t)) && forall term :: own(term) <==> HasTermOf(p, term)
    ensures PathTrue(q, own) <==> Within(q, p)
    ensures Within(p, p)
  {
    hide HasTermOf;
    forall t | t in p ensures HasTermOf(p, TermOf(t)) { OwnTerm(p, t); }
    forall t | t in q ensures Sat(t, own) <==> HasTermOf(p, TermOf(t)) {}
  }

  lemma OwnTerm(p: Path, t: TermData)
    requires t in p
    ensures HasTermOf(p, TermOf(t))
  {
  }

  lemma WithinIsTrue(q: Path, p: Path, found: Found)
    requires (forall t | t in q || t in p :: Plain(t)) && Within(q, p) && PathTrue(p, found)
    ensures PathTrue(q, found)
  {
    forall t | t in q ensures Sat(t, found) {
      assert HasTermOf(p, TermOf(t));
      var u :| u in p && TermOf(u) == TermOf(t);
      assert Sat(u, found);
    }
  }

  /**
    The same for a query without a negated term, read off its paths: trie and query agree
    on every assignment if and only if each path that another one extends has all the
    terms of some path that none extends.
  */
  lemma PlainCompiledExactly(nodes: seq<QueryNode>, labels: Labels, dict: seq<Term>, a: Ast, sorted: seq<Path>)
    requires Compiled(nodes, labels, dict, a, sorted) && Proper(a) && Driveable(a) && EveryLeaf(a, HasText) && EveryLeaf(a, Plain)
    ensures nodes != []
    ensures (forall found :: Agrees(nodes, dict, a, found)) <==>
            forall p | 0 <= p < |sorted| && !Unextended(sorted, p) ::
              exists q :: 0 <= q < |sorted| && Unextended(sorted, q) && Within(sorted[q], sorted[p])
  {
    hide Linked, Ready, Prefixes, Evaluable, Evaluate, PathTrue, True, Unextended, Proper, Driveable, Dnf, Sorted,
      Replaceable, Agrees, Within;
    CompiledExactly(nodes, labels, dict, a, sorted);
    DnfTerms(a, Plain);
    forall q, t | 0 <= q < |sorted| && t in sorted[q] ensures Plain(t) {
      SameTerms(sorted[q], Dnf(a)[q]);
    }
    forall p | 0 <= p < |sorted| && !Unextended(sorted, p)
      ensures Replaceable(sorted, p) <==> exists q :: 0 <= q < |sorted| && Unextended(sorted, q) && Within(sorted[q], sorted[p])
    {
      ReplaceableIff(sorted, p);
    }
  }

  // ---------------------------------------------------------------- the shorter path that is lost

  const WORD_A: Text := [97]
  const WORD_B: Text := [98]

  function TermA(id: nat): TermData { TermData(WORD_A, false, false, id) }
  function TermB(id: nat): TermData { TermData(WORD_B, false, false, id) }

  /** The tree of `a | a b`. */
  function ShorterPath(): Ast {
    AstOr([AstTerm(TermA(0)), AstAnd([AstTerm(TermA(1)), AstTerm(TermB(2))])])
  }

  lemma ShorterPathParsed()
    ensures var ss := [Seq([Leaf(Term(WORD_A, false))]), Seq([Leaf(Term(WORD_A, false)), Leaf(Term(WORD_B, false))])];
            Spells(ss, [Word(WORD_A), Pipe, Word(WORD_A), Word(WORD_B)]) && AstOfExpr(ss, 0) == ShorterPath()
  {
    hide YieldSeq, YieldExpr, AstsOfExpr, AstOfSeq, CountSeq, CountExpr;
    var a, b := Leaf(Term(WORD_A, false)), Leaf(Term(WORD_B, false));
    var s1, s2 := Seq([a]), Seq([a, b]);
    OneWord(WORD_A, 0);
    TwoTerms(Term(WORD_A, false), Term(WORD_B, false), 1);
    YieldTwoSeqs(s1, s2);
    TwoAlternatives(s1, s2);
  }

  /** A sequence of one word. */
  lemma OneWord(v: Text, id: nat)
    ensures var fs := [Leaf(Term(v, false))];
            && FormedSeq(fs) && YieldSeq(fs) == [Word(v)] && CountSeq(fs) == 1
            && AstOfSeq(fs, id) == AstTerm(TermData(v, false, false, id))
  {
    hide YieldFactor, YieldSeq, AstsOf, AstOf, AstOfSeq, Count, CountSeq;
    var a := Leaf(Term(v, false));
    OneLeaf(Term(v, false));
    assert [a] + [] == [a] && [] + [a] == [a];
    YieldSeqCons(a, []);
    AppendFactor([], a, id);
    AstOfSeqIs([a], id);
  }

  /** A sequence of two terms. */
  lemma TwoTerms(s: Term, t: Term, id: nat)
    ensures var fs := [Leaf(s), Leaf(t)];
            && FormedSeq(fs) && YieldSeq(fs) == [TokenOf(s), TokenOf(t)]
            && AstOfSeq(fs, id) == AstAnd([AstTerm(TermData(s.val, false, s.isPhrase, id)), AstTerm(TermData(t.val, false, t.isPhrase, id + 1))])
  {
    hide YieldFactor, YieldSeq, AstsOf, AstOf, AstOfSeq, Count, CountSeq;
    var a, b := Leaf(s), Leaf(t);
    OneLeaf(s);
    OneLeaf(t);
    assert [b] + [] == [b] && [a] + [b] == [a, b] && [] + [a] == [a];
    YieldSeqCons(b, []);
    YieldSeqCons(a, [b]);
    AppendFactor([], a, id);
    AppendFactor([a], b, id);
    AstOfSeqIs([a, b], id);
  }

  function TokenOf(t: Term): Token {
    if t.isPhrase then Phrase(t.val) else Word(t.val)
  }

  lemma YieldTwoSeqs(s1: Seq, s2: Seq)
    ensures YieldExpr([s1, s2]) == YieldSeq(s1.factors) + ([Pipe] + YieldSeq(s2.factors))
  {
    hide YieldExpr, YieldSeq;
    assert [s1] + [s2] == [s1, s2] && [s2] + [] == [s2];
    YieldExprCons(s2, []);
    YieldExprCons(s1, [s2]);
    assert YieldSeq(s2.factors) + [] == YieldSeq(s2.factors);
  }

  lemma TwoAlternatives(s1: Seq, s2: Seq)
    requires FormedSeq(s1.factors) && FormedSeq(s2.factors)
    ensures AstOfExpr([s1, s2], 0) == AstOr([AstOfSeq(s1.factors, 0), AstOfSeq(s2.factors, CountSeq(s1.factors))])
  {
    hide FormedSeq, AstsOfExpr, AstOfSeq, CountSeq, CountExpr;
    assert [s1] + [s2] == [s1, s2] && [] + [s1] == [s1];
    OneLeaf(Term([], false));
    AppendSeq([], s1, 0);
    AppendSeq([s1], s2, 0);
    AstOfExprIs([s1, s2], 0);
  }

  lemma OneLeaf(t: Term)
    ensures YieldFactor(Leaf(t)) == [if t.isPhrase then Phrase(t.val) else Word(t.val)] && YieldSeq([]) == []
    ensures Count(Leaf(t)) == 1 && CountSeq([]) == 0 && CountExpr([]) == 0
    ensures forall id :: AstOf(Leaf(t), id) == AstTerm(TermData(t.val, false, t.isPhrase, id))
    ensures forall id :: AstsOf([], id) == [] && AstsOfExpr([], id) == []
  {
  }

  lemma AstOfExprIs(ss: seq<Seq>, id: nat)
    requires FormedExpr(ss) && |ss| > 1
    ensures AstOfExpr(ss, id) == AstOr(AstsOfExpr(ss, id))
  {
  }

  lemma CrossOne(x: Path, y: Path)
    ensures Cross([x], [y]) == [x + y]
  {
    assert [x][..0] == [];
    assert Cross([x][..0], [y]) == [];
    assert Extend(x, [y]) == [x + y];
  }

  lemma ShorterPathDnf()
    ensures Dnf(ShorterPath()) == [[TermA(0)], [TermA(1), TermB(2)]]
  {
    hide Cross;
    var cs := ShorterPath().children;
    var ds := cs[1].children;
    CrossOne([], [TermA(1)]);
    CrossOne([TermA(1)], [TermB(2)]);
    assert [] + [TermA(1)] == [TermA(1)] && [TermA(1)] + [TermB(2)] == [TermA(1), TermB(2)];
    assert DnfAnd(ds, 0) == [[]];
    assert DnfAnd(ds, 1) == [[TermA(1)]];
    assert DnfAnd(ds, 2) == [[TermA(1), TermB(2)]];
    assert DnfOr(cs, 1) == [[TermA(0)]];
  }

  lemma FlatMore(ps: seq<Path>, p: Path)
    ensures Flat(ps + [p]) == Flat(ps) + p
  {
    assert (ps + [p])[..|ps|] == ps;
  }

  lemma ShorterPathCounts()
    ensures var all := Flat([[TermA(0)], [TermA(1), TermB(2)]]);
            Occurrences(all, TermA(1)) == 2 && Occurrences(all, TermB(2)) == 1
  {
    hide Flat, Occurrences;
    var none: seq<Path> := [];
    var x, y := [TermA(0)], [TermA(1), TermB(2)];
    assert none + [x] == [x] && [x] + [y] == [x, y];
    FlatMore(none, x);
    FlatMore([x], y);
    NoneToCount();
    assert Flat([x, y]) == [] + [TermA(0)] + [TermA(1)] + [TermB(2)];
    OneOccurrenceMore([], TermA(0), TermA(1));
    OneOccurrenceMore([], TermA(0), TermB(2));
    OneOccurrenceMore([] + [TermA(0)], TermA(1), TermA(1));
    OneOccurrenceMore([] + [TermA(0)], TermA(1), TermB(2));
    OneOccurrenceMore([] + [TermA(0)] + [TermA(1)], TermB(2), TermA(1));
    OneOccurrenceMore([] + [TermA(0)] + [TermA(1)], TermB(2), TermB(2));
  }

  lemma NoneToCount()
    ensures Flat([]) == [] && forall t :: Occurrences([], t) == 0
  {
  }

  /** In `a | a b` a document with a alone satisfies the query, but the trie says no: path a ends inside path a b. */
  lemma ShorterPathLost(nodes: seq<QueryNode>, labels: Labels, dict: seq<Term>, sorted: seq<Path>)
    requires Compiled(nodes, labels, dict, ShorterPath(), sorted)
    ensures var found := (t: Term) => t == Term(WORD_A, false);
            && True(ShorterPath(), found)
            && Evaluable(nodes, FoundVector(dict, found)) && !Evaluate(nodes, 0, FoundVector(dict, found))
  {
    hide Compiled, Evaluable, Evaluate, Unextended, Dnf, SortedPaths;
    var a, found := ShorterPath(), (t: Term) => t == Term(WORD_A, false);
    ShorterPathDnf();
    ShorterPathSorted(nodes, labels, dict, sorted);
    ShorterPathOrder(sorted);
    CompiledAnswers(nodes, labels, dict, a, sorted, found);
    ShorterPathExtended();
    assert TermB(2) in sorted[1] && !Sat(TermB(2), found);
    assert True(a.children[0], found);
  }

  lemma ShorterPathSorted(nodes: seq<QueryNode>, labels: Labels, dict: seq<Term>, sorted: seq<Path>)
    requires Compiled(nodes, labels, dict, ShorterPath(), sorted)
    ensures SortedPaths(sorted, Dnf(ShorterPath()))
    ensures Proper(ShorterPath()) && Driveable(ShorterPath()) && EveryLeaf(ShorterPath(), HasText)
  {
    hide Linked, Ready, Prefixes, Dnf, SortedPaths;
    var cs := ShorterPath().children;
    assert EveryLeaf(cs[0], HasText) && EveryLeaf(cs[1].children[0], HasText) && EveryLeaf(cs[1].children[1], HasText);
    assert Proper(cs[0]) && Proper(cs[1].children[0]) && Proper(cs[1].children[1]);
    assert Driveable(cs[0]) && Driveable(cs[1].children[0]);
    assert EveryLeaf(cs[1], HasText) && Proper(cs[1]) && Driveable(cs[1]);
  }

  lemma ShorterPathExtended()
    ensures !Unextended([[TermA(0)], [TermA(1), TermB(2)]], 0)
  {
    var ps := [[TermA(0)], [TermA(1), TermB(2)]];
    assert Keys(ps[0]) == Keys(ps[1])[..1];
    assert Begins(Keys(ps[0]), Keys(ps[1]));
  }

  lemma ShorterPathOrder(sorted: seq<Path>)
    requires SortedPaths(sorted, [[TermA(0)], [TermA(1), TermB(2)]])
    ensures sorted == [[TermA(0)], [TermA(1), TermB(2)]]
  {
    var ps := [[TermA(0)], [TermA(1), TermB(2)]];
    ShorterPathCounts();
    SameTerms(sorted[0], ps[0]);
    SameTerms(sorted[1], ps[1]);
    assert sorted[0][0] in sorted[0] && sorted[1][0] in sorted[1] && sorted[1][1] in sorted[1];
    assert TermB(2) in ps[1] && TermA(1) in ps[1];
    assert OutOfOrder(Flat(ps), TermB(2), TermA(1));
    assert sorted[0] == [TermA(0)];
    assert sorted[1] == [TermA(1), TermB(2)];
  }

  // ---------------------------------------------------------------- the empty phrase that stops the walk

  function NoText(id: nat): TermData { TermData([], false, true, id) }

  /** The tree of `a ""`. */
  function WithEmptyPhrase(): Ast {
    AstAnd([AstTerm(TermA(0)), AstTerm(NoText(1))])
  }

  lemma EmptyPhraseParsed()
    ensures var ss := [Seq([Leaf(Term(WORD_A, false)), Leaf(Term([], true))])];
            Spells(ss, [Word(WORD_A), Phrase([])]) && AstOfExpr(ss, 0) == WithEmptyPhrase()
  {
    hide YieldSeq, YieldExpr, AstsOfExpr, AstOfSeq, CountSeq, CountExpr;
    var fs := [Leaf(Term(WORD_A, false)), Leaf(Term([], true))];
    TwoTerms(Term(WORD_A, false), Term([], true), 0);
    YieldOne(fs);
    OneAlternative(Seq(fs));
  }

  lemma OneAlternative(s: Seq)
    requires FormedSeq(s.factors)
    ensures AstOfExpr([s], 0) == AstOfSeq(s.factors, 0)
  {
    hide FormedSeq, AstsOfExpr, AstOfSeq, CountSeq, CountExpr;
    assert [] + [s] == [s];
    OneLeaf(Term([], false));
    AppendSeq([], s, 0);
    OneExprIs([s], 0);
  }

  lemma OneExprIs(ss: seq<Seq>, id: nat)
    requires FormedExpr(ss) && |ss| == 1
    ensures AstOfExpr(ss, id) == AstsOfExpr(ss, id)[0]
  {
  }

  /** For `a ""` the trie says no whatever is found, though the query is true where a and the empty phrase are. */
  lemma EmptyPhraseLost(nodes: seq<QueryNode>, labels: Labels, dict: seq<Term>, sorted: seq<Path>, found: Found)
    requires Compiled(nodes, labels, dict, WithEmptyPhrase(), sorted)
    ensures Evaluable(nodes, FoundVector(dict, found)) && !Evaluate(nodes, 0, FoundVector(dict, found))
    ensures True(WithEmptyPhrase(), found) <==> found(Term(WORD_A, false)) && found(Term([], true))
  {
    hide Linked, Ready, Prefixes, Evaluable, Evaluate, Unextended, Dnf, SortedPaths;
    var cs := WithEmptyPhrase().children;
    assert True(cs[0], found) <==> found(Term(WORD_A, false));
    assert True(cs[1], found) <==> found(Term([], true));
    assert Proper(cs[0]) && Proper(cs[1]) && Driveable(cs[0]);
    EmptyPhraseDnf();
    EmptyPhraseOrder(sorted);
    CompiledAnswers(nodes, labels, dict, WithEmptyPhrase(), sorted, found);
  }

  lemma EmptyPhraseDnf()
    ensures Dnf(WithEmptyPhrase()) == [[TermA(0), NoText(1)]]
  {
    hide Cross;
    var cs := WithEmptyPhrase().children;
    CrossOne([], [TermA(0)]);
    CrossOne([TermA(0)], [NoText(1)]);
    assert [] + [TermA(0)] == [TermA(0)] && [TermA(0)] + [NoText(1)] == [TermA(0), NoText(1)];
    assert DnfAnd(cs, 0) == [[]];
    assert DnfAnd(cs, 1) == [[TermA(0)]];
  }

  lemma EmptyPhraseOrder(sorted: seq<Path>)
    requires SortedPaths(sorted, [[TermA(0), NoText(1)]])
    ensures sorted == [[TermA(0), NoText(1)]]
  {
    var ps := [[TermA(0), NoText(1)]];
    EmptyPhraseCounts();
    SameTerms(sorted[0], ps[0]);
    assert sorted[0][0] in sorted[0] && sorted[0][1] in sorted[0];
    assert TermA(0) in ps[0] && NoText(1) in ps[0];
    assert OutOfOrder(Flat(ps), NoText(1), TermA(0));
    assert sorted[0] == [TermA(0), NoText(1)];
  }

  lemma EmptyPhraseCounts()
    ensures var all := Flat([[TermA(0), NoText(1)]]); Occurrences(all, TermA(0)) == 1 && Occurrences(all, NoText(1)) == 1
  {
    hide Flat, Occurrences;
    var none: seq<Path> := [];
    var x := [TermA(0), NoText(1)];
    assert none + [x] == [x];
    FlatMore(none, x);
    NoneToCount();
    assert Flat([x]) == [] + [TermA(0)] + [NoText(1)];
    OneOccurrenceMore([], TermA(0), TermA(0));
    OneOccurrenceMore([], TermA(0), NoText(1));
    OneOccurrenceMore([] + [TermA(0)], NoText(1), TermA(0));
    OneOccurrenceMore([] + [TermA(0)], NoText(1), NoText(1));
  }
}
