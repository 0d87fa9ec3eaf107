/**
  From the text of a query to the documents of a chunk: tokenizer, parser, executor
  (query/expressions.h, index_chunk/query_isr.h), and the empty phrase.
*/
module QuerySearch {
  import opened Bytes
  import opened Postings
  import opened QueryAst
  import opened QueryMeaning
  import opened QueryDnf
  import opened QueryParser
  import opened QueryTokens
  import opened QueryCompiler
  import B = IsrBuild
  import Bounds = IsrBounds
  import X = IsrExact

  /** Which terms a document of an index has: a word anywhere, a phrase word after word. */
  ghost function HasTerm(index: B.Index, doc: nat): Found {
    (t: Term) => exists pos: nat :: B.StandAt(index, B.WordsOf(TermData(t.val, false, t.isPhrase, 0)), doc, pos)
  }

  /** From `pos` on the words are posted in places that follow each other. */
  ghost predicate PostedFrom(index: B.Index, ws: seq<Text>, doc: nat, pos: nat) {
    forall i | 0 <= i < |ws| :: Post(doc, pos + i) in B.ListOf(index, ws[i]).posts
  }

  /** A document of an index has a phrase when its words, however spaced, are posted one after the other. */
  lemma PhraseIsHad(index: B.Index, doc: nat, gaps: seq<Text>, ws: seq<Text>, tail: Text)
    requires |gaps| == |ws| && B.AreGaps(gaps) && B.AreWords(ws) && B.Blank(tail)
    ensures HasTerm(index, doc)(Term(B.Spread(gaps, ws) + tail, true)) <==>
            |ws| > 0 && exists pos :: PostedFrom(index, ws, doc, pos)
  {
    hide B.WordsOf, B.Spread, B.AreGaps, B.AreWords, B.StandAt, PostedFrom;
    B.WordsAre(gaps, ws, tail, [], false, 0);
    forall pos: nat ensures B.StandAt(index, ws, doc, pos) <==> |ws| > 0 && PostedFrom(index, ws, doc, pos) {
      StandAtIs(index, ws, doc, pos);
    }
  }

  lemma StandAtIs(index: B.Index, ws: seq<Text>, doc: nat, pos: nat)
    ensures B.StandAt(index, ws, doc, pos) <==> |ws| > 0 && PostedFrom(index, ws, doc, pos)
  {
  }

  /** And a word when it is posted anywhere. */
  lemma WordIsHad(index: B.Index, doc: nat, w: Text)
    ensures HasTerm(index, doc)(Term(w, false)) <==> exists pos: nat :: Post(doc, pos) in B.ListOf(index, w).posts
  {
    hide B.WordsOf;
    B.WordsAre([], [], [], w, false, 0);
    if pos: nat :| Post(doc, pos) in B.ListOf(index, w).posts { assert B.StandAt(index, [w], doc, pos); }
    if pos: nat :| B.StandAt(index, [w], doc, pos) { assert Post(doc, pos + 0) in B.ListOf(index, [w][0]).posts; }
  }

  /** The executor's set semantics is the meaning of the tree. */
  lemma {:induction false} HoldsIsTrue(a: Ast, index: B.Index, doc: nat)
    ensures B.Holds(a, index, doc) <==> True(a, HasTerm(index, doc))
  {
    match a
    case AstTerm(t) =>
      assert B.WordsOf(TermData(t.val, false, t.isPhrase, 0)) == B.WordsOf(t);
    case AstAnd(cs) => forall i | 0 <= i < |cs| { HoldsIsTrue(cs[i], index, doc); }
    case AstOr(cs) => forall i | 0 <= i < |cs| { HoldsIsTrue(cs[i], index, doc); }
  }

  /**
    The whole way.  When the tokens of a text are those of a grammar tree, and the query
    is safe to drive, the chunk lists exactly the documents in which the grammar says the
    query is true, in ascending order, whatever the index.
  */
  lemma TextIsAnswered(query: Text, ss: seq<Seq>, index: B.Index)
    requires Spells(ss, Lex(query)) && B.ValidIndex(index)
    requires X.DriveSafeQuery(AstOfExpr(ss, 0))
    ensures var run := B.Run(B.Build(AstOfExpr(ss, 0), index));
            B.Increasing(run) && forall doc: nat :: doc in run <==> MeansExpr(ss, HasTerm(index, doc))
  {
    hide B.Run, B.Build, B.Holds, B.ValidIndex, X.DriveSafeQuery, AstOfExpr, MeansExpr, Lex;
    var a := AstOfExpr(ss, 0);
    X.QueryAnsweredExactly(a, index);
    forall doc: nat ensures doc in B.Run(B.Build(a, index)) <==> MeansExpr(ss, HasTerm(index, doc)) {
      HoldsIsTrue(a, index, doc);
      ParsedMeaning(Lex(query), ss, HasTerm(index, doc));
    }
  }

  /** For any query that can be driven, safe or not, no document in which it is true is lost. */
  lemma TextLosesNothing(query: Text, ss: seq<Seq>, index: B.Index)
    requires Spells(ss, Lex(query)) && B.ValidIndex(index) && Driveable(AstOfExpr(ss, 0))
    ensures var run := B.Run(B.Build(AstOfExpr(ss, 0), index));
            B.Increasing(run) && forall doc: nat | MeansExpr(ss, HasTerm(index, doc)) :: doc in run
  {
    hide B.Run, B.Build, B.Holds, B.ValidIndex, AstOfExpr, MeansExpr, Lex, Driveable;
    var a := AstOfExpr(ss, 0);
    Bounds.EveryRunBounded(a, index);
    forall doc: nat | MeansExpr(ss, HasTerm(index, doc)) ensures doc in B.Run(B.Build(a, index)) {
      HoldsIsTrue(a, index, doc);
      ParsedMeaning(Lex(query), ss, HasTerm(index, doc));
    }
  }

  // ---------------------------------------------------------------- the empty phrase

  predicate TokenHasText(t: Token) {
    t.Word? || t.Phrase? ==> t.val != []
  }

  lemma {:induction false} NegateKeepsText(a: Ast)
    requires EveryLeaf(a, HasText)
    ensures EveryLeaf(Negate(a), HasText)
  {
    match a
    case AstTerm(_) =>
    case AstAnd(cs) => forall i | 0 <= i < |cs| { NegateKeepsText(cs[i]); }
    case AstOr(cs) => forall i | 0 <= i < |cs| { NegateKeepsText(cs[i]); }
  }

  lemma {:induction false} FactorText(f: Factor, id: nat)
    requires Formed(f) && forall t | t in YieldFactor(f) :: TokenHasText(t)
    ensures EveryLeaf(AstOf(f, id), HasText)
    decreases f, 1
  {
    YieldFactorStep(f);
    match f
    case Leaf(t) =>
      assert YieldFactor(f)[0] in YieldFactor(f);
    case Not(g) =>
      FactorText(g, id);
      NegateKeepsText(AstOf(g, id));
    case Group(e) =>
      ExprText(e.seqs, id);
  }

  lemma {:induction false} FactorsText(fs: seq<Factor>, id: nat)
    requires forall i | 0 <= i < |fs| :: Formed(fs[i])
    requires forall i, t | 0 <= i < |fs| && t in YieldFactor(fs[i]) :: TokenHasText(t)
    ensures forall i | 0 <= i < |fs| :: EveryLeaf(AstsOf(fs, id)[i], HasText)
    decreases fs, 0
  {
    if fs != [] {
      var last := |fs| - 1;
      FactorsText(fs[..last], id);
      FactorText(fs[last], id + CountSeq(fs[..last]));
      forall i | 0 <= i < last ensures AstsOf(fs, id)[i] == AstsOf(fs[..last], id)[i] {}
    }
  }

  lemma {:induction false} YieldOfFactors(fs: seq<Factor>, i: nat, t: Token)
    requires i < |fs| && t in YieldFactor(fs[i])
    ensures t in YieldSeq(fs)
  {
    assert fs == [fs[0]] + fs[1..];
    YieldSeqCons(fs[0], fs[1..]);
    if i > 0 { YieldOfFactors(fs[1..], i - 1, t); }
  }

  lemma {:induction false} YieldOfSeqs(ss: seq<Seq>, i: nat, t: Token)
    requires i < |ss| && t in YieldSeq(ss[i].factors)
    ensures t in YieldExpr(ss)
  {
    hide YieldExpr, YieldSeq;
    assert ss == [ss[0]] + ss[1..];
    YieldExprCons(ss[0], ss[1..]);
    if i > 0 { YieldOfSeqs(ss[1..], i - 1, t); }
  }

  lemma {:induction false} ExprText(ss: seq<Seq>, id: nat)
    requires FormedExpr(ss) && forall t | t in YieldExpr(ss) :: TokenHasText(t)
    ensures EveryLeaf(AstOfExpr(ss, id), HasText)
    decreases ss, 1
  {
    forall i, t | 0 <= i < |ss| && t in YieldSeq(ss[i].factors) ensures TokenHasText(t) { YieldOfSeqs(ss, i, t); }
    SeqsText(ss, id);
  }

  lemma {:induction false} SeqText(fs: seq<Factor>, id: nat)
    requires FormedSeq(fs) && forall t | t in YieldSeq(fs) :: TokenHasText(t)
    ensures EveryLeaf(AstOfSeq(fs, id), HasText)
    decreases fs, 1
  {
    forall i, t | 0 <= i < |fs| && t in YieldFactor(fs[i]) ensures TokenHasText(t) { YieldOfFactors(fs, i, t); }
    FactorsText(fs, id);
  }

  lemma {:induction false} SeqsText(ss: seq<Seq>, id: nat)
    requires forall i | 0 <= i < |ss| :: FormedSeq(ss[i].factors)
    requires forall i, t | 0 <= i < |ss| && t in YieldSeq(ss[i].factors) :: TokenHasText(t)
    ensures forall i | 0 <= i < |ss| :: EveryLeaf(AstsOfExpr(ss, id)[i], HasText)
    decreases ss, 0
  {
    if ss != [] {
      var last := |ss| - 1;
      SeqsText(ss[..last], id);
      SeqText(ss[last].factors, id + CountExpr(ss[..last]));
      forall i | 0 <= i < last ensures AstsOfExpr(ss, id)[i] == AstsOfExpr(ss[..last], id)[i] {}
    }
  }

  /** A text without an empty phrase gives every term a text, which the word ids need. */
  lemma NoEmptyPhrase(query: Text, ss: seq<Seq>)
    requires Spells(ss, Lex(query)) && Phrase([]) !in Lex(query)
    ensures EveryLeaf(AstOfExpr(ss, 0), HasText)
  {
    hide Lex, YieldExpr, FormedExpr, AstOfExpr;
    LexedIsLexable(query);
    forall t | t in YieldExpr(ss) ensures TokenHasText(t) {
      assert Lexable(t);
    }
    ExprText(ss, 0);
  }
}
