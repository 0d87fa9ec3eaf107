/**
  How the signs of a query combine meanings, on its text: a bar is OR, texts beside each
  other are AND, which binds tighter, a minus sign is NOT, and parentheses group.  As the
  grammar is unambiguous, the tree that each law names is the only one its text has.
*/
module QueryLaws {
  import opened Bytes
  import opened QueryMeaning
  import opened QueryParser
  import opened QueryTokens

  // ---------------------------------------------------------------- reading a text in parts

  /** Every quote is closed. */
  predicate Closed(s: Text) {
    multiset(s)[34] % 2 == 0
  }

  /** Before a byte that ends a word, a text with closed quotes is read as if it stood alone. */
  lemma {:induction false} LexJoins(s: Text, c: byte, rest: Text)
    requires Closed(s) && Breaks(c)
    ensures Lex(s + [c] + rest) == Lex(s) + Lex([c] + rest)
    decreases |s|
  {
    hide Lex, Closed, Breaks, WordText;
    if s == [] {
      SignsStand([]);
      assert s + [c] + rest == [c] + rest;
    } else {
      var front, tokens := FirstToken(s);
      var r := s[|front|..];
      LexJoins(r, c, rest);
      Apart(front, r, [c], rest);
      Reads(s, front, tokens, r, [c] + rest);
    }
  }

  lemma Apart(front: Text, r: Text, c: Text, rest: Text)
    ensures front + r + c + rest == front + (r + c + rest) && r + c + rest == r + (c + rest)
  {
  }

  /** Whatever follows, provided that a word is not run on, `front` gives these tokens. */
  ghost predicate Gives(front: Text, tokens: seq<Token>, r: Text)
  {
    forall more: Text | r == [] ==> more == [] || Breaks(more[0]) :: Lex(front + (r + more)) == tokens + Lex(r + more)
  }

  lemma Reads(s: Text, front: Text, tokens: seq<Token>, r: Text, more: Text)
    requires Gives(front, tokens, r) && s == front + r && more != [] && Breaks(more[0])
    requires Lex(r + more) == Lex(r) + Lex(more)
    ensures Lex(front + (r + more)) == Lex(s) + Lex(more)
  {
    hide Lex, Breaks;
    assert r + [] == r;
    assert Lex(front + (r + [])) == tokens + Lex(r);
  }

  /** The first token of a text, or the space before it. */
  lemma FirstToken(s: Text) returns (front: Text, tokens: seq<Token>)
    requires s != [] && Closed(s)
    ensures 0 < |front| <= |s| && s == front + s[|front|..] && Closed(s[|front|..])
    ensures Gives(front, tokens, s[|front|..])
  {
    hide Lex;
    if s[0] == 34 {
      front, tokens := FirstPhrase(s);
    } else if s[0] == 45 || Breaks(s[0]) {
      front := s[..1];
      tokens := if s[0] == 40 then [LParen] else if s[0] == 41 then [RParen] else if s[0] == 124 then [Pipe]
                else if s[0] == 45 then [Minus] else [];
      assert front == [s[0]] && s == front + s[1..];
      OneQuoteLess(front, s[1..]);
      forall more: Text ensures Lex(front + (s[1..] + more)) == tokens + Lex(s[1..] + more) {
        SignsStand(s[1..] + more);
      }
    } else {
      front, tokens := FirstWord(s);
    }
  }

  lemma OneQuoteLess(a: Text, b: Text)
    ensures multiset(a + b)[34] == multiset(a)[34] + multiset(b)[34]
  {
  }

  lemma FirstPhrase(s: Text) returns (front: Text, tokens: seq<Token>)
    requires s != [] && s[0] == 34 && Closed(s)
    ensures 0 < |front| <= |s| && s == front + s[|front|..] && Closed(s[|front|..])
    ensures Gives(front, tokens, s[|front|..])
  {
    hide Lex, Breaks, Closed;
    PhraseCloses(s);
    var n := QuoteLength(s[1..]);
    var v, r := s[1..][..n], s[n + 2..];
    front, tokens := [34] + v + [34], [Phrase(v)];
    TwoQuotes(v, r);
    assert s == front + r;
    forall more: Text ensures Lex(front + (r + more)) == tokens + Lex(r + more) {
      QuotesEnclose(v, r + more);
    }
  }

  lemma PhraseCloses(s: Text)
    requires s != [] && s[0] == 34 && Closed(s)
    ensures var n := QuoteLength(s[1..]); n + 2 <= |s| && s[n + 1] == 34 && 34 !in s[1..][..n]
  {
    var n := QuoteLength(s[1..]);
    if n == |s| - 1 {
      assert s == [34] + s[1..] && 34 !in s[1..];
      OneQuoteLess([34], s[1..]);
    }
  }

  lemma TwoQuotes(v: Text, r: Text)
    requires 34 !in v
    ensures Closed([34] + v + [34] + r) <==> Closed(r)
  {
    OneQuoteLess([34] + v + [34], r);
    OneQuoteLess([34] + v, [34]);
    OneQuoteLess([34], v);
  }

  lemma FirstWord(s: Text) returns (front: Text, tokens: seq<Token>)
    requires s != [] && s[0] != 45 && !Breaks(s[0]) && Closed(s)
    ensures 0 < |front| <= |s| && s == front + s[|front|..] && Closed(s[|front|..])
    ensures Gives(front, tokens, s[|front|..])
  {
    hide Lex, Closed, WordText;
    var n := WordLength(s);
    WordBegins(s);
    var r := s[n..];
    front, tokens := s[..n], [Word(s[..n])];
    assert s == front + r;
    forall more: Text | r == [] ==> more == [] || Breaks(more[0]) ensures Lex(front + (r + more)) == tokens + Lex(r + more) {
      WordIsWhole(front, r + more);
    }
  }

  lemma WordBegins(s: Text)
    requires s != [] && s[0] != 45 && !Breaks(s[0]) && Closed(s)
    ensures var n := WordLength(s); n > 0 && WordText(s[..n]) && (n < |s| ==> Breaks(s[n])) && Closed(s[n..])
  {
    var n := WordLength(s);
    forall i | 0 <= i < |s| { BreaksEndWords(s[i]); }
    assert s == s[..n] + s[n..] && 34 !in s[..n];
    OneQuoteLess(s[..n], s[n..]);
  }

  // ---------------------------------------------------------------- the laws

  lemma {:induction false} YieldJoins(ss: seq<Seq>, tt: seq<Seq>)
    requires ss != [] && tt != []
    ensures YieldExpr(ss + tt) == YieldExpr(ss) + [Pipe] + YieldExpr(tt)
  {
    hide YieldExpr, YieldSeq;
    var s := ss[0];
    assert ss == [s] + ss[1..] && ss + tt == [s] + (ss[1..] + tt);
    YieldExprCons(s, ss[1..]);
    YieldExprCons(s, ss[1..] + tt);
    if |ss| > 1 {
      YieldJoins(ss[1..], tt);
    } else {
      assert ss[1..] + tt == tt;
    }
  }

  lemma {:induction false} YieldSeqJoins(fs: seq<Factor>, gs: seq<Factor>)
    ensures YieldSeq(fs + gs) == YieldSeq(fs) + YieldSeq(gs)
  {
    if fs == [] {
      assert fs + gs == gs;
    } else {
      assert fs == [fs[0]] + fs[1..] && fs + gs == [fs[0]] + (fs[1..] + gs);
      YieldSeqCons(fs[0], fs[1..] + gs);
      YieldSeqJoins(fs[1..], gs);
    }
  }

  lemma OneSeq(fs: seq<Factor>, found: Found)
    ensures YieldExpr([Seq(fs)]) == YieldSeq(fs) && (FormedExpr([Seq(fs)]) <==> FormedSeq(fs))
    ensures MeansExpr([Seq(fs)], found) <==> MeansSeq(fs, found)
  {
    hide YieldSeq, FormedSeq, MeansSeq;
    assert [Seq(fs)][0].factors == fs;
  }

  lemma OneFactor(f: Factor, found: Found)
    ensures YieldSeq([f]) == YieldFactor(f) && (FormedSeq([f]) <==> Formed(f)) && (MeansSeq([f], found) <==> Means(f, found))
  {
    hide YieldFactor, Formed, Means;
    assert [f][0] == f && [f][1..] == [];
    assert YieldSeq([]) == [];
  }

  /** s|t is read as s or t. */
  lemma BarIsOr(s: Text, t: Text, ss: seq<Seq>, tt: seq<Seq>, found: Found)
    requires Closed(s) && Spells(ss, Lex(s)) && Spells(tt, Lex(t))
    ensures Spells(ss + tt, Lex(s + [124] + t))
    ensures MeansExpr(ss + tt, found) <==> MeansExpr(ss, found) || MeansExpr(tt, found)
  {
    hide Lex, YieldExpr, Closed, FormedSeq, MeansSeq;
    LexJoins(s, 124, t);
    SignsStand(t);
    YieldJoins(ss, tt);
    assert forall i | 0 <= i < |ss| :: (ss + tt)[i] == ss[i];
    assert forall i | 0 <= i < |tt| :: (ss + tt)[|ss| + i] == tt[i];
  }

  /** s t is read as s and t, if neither has a bar outside parentheses. */
  lemma BesideIsAnd(s: Text, t: Text, fs: seq<Factor>, gs: seq<Factor>, found: Found)
    requires Closed(s) && Spells([Seq(fs)], Lex(s)) && Spells([Seq(gs)], Lex(t))
    ensures Spells([Seq(fs + gs)], Lex(s + [32] + t))
    ensures MeansExpr([Seq(fs + gs)], found) <==> MeansExpr([Seq(fs)], found) && MeansExpr([Seq(gs)], found)
  {
    hide Lex, YieldExpr, YieldSeq, FormedExpr, MeansExpr, FormedSeq, MeansSeq, Closed;
    LexJoins(s, 32, t);
    SignsStand(t);
    assert 32 in [9, 10, 13, 32];
    OneSeq(fs, found);
    OneSeq(gs, found);
    OneSeq(fs + gs, found);
    YieldSeqJoins(fs, gs);
    SeqJoins(fs, gs, found);
  }

  lemma SeqJoins(fs: seq<Factor>, gs: seq<Factor>, found: Found)
    ensures FormedSeq(fs) && FormedSeq(gs) ==> FormedSeq(fs + gs)
    ensures MeansSeq(fs + gs, found) <==> MeansSeq(fs, found) && MeansSeq(gs, found)
  {
    hide Formed, Means;
    assert forall i | 0 <= i < |fs| :: (fs + gs)[i] == fs[i];
    assert forall i | 0 <= i < |gs| :: (fs + gs)[|fs| + i] == gs[i];
  }

  /** (s) is read as s, and as one factor. */
  lemma ParenthesesGroup(s: Text, ss: seq<Seq>, found: Found)
    requires Closed(s) && Spells(ss, Lex(s))
    ensures Spells([Seq([Group(Expr(ss))])], Lex([40] + s + [41]))
    ensures MeansExpr([Seq([Group(Expr(ss))])], found) <==> MeansExpr(ss, found)
  {
    hide Lex, YieldExpr, YieldSeq, FormedExpr, MeansExpr, FormedSeq, MeansSeq, Closed;
    LexJoins(s, 41, []);
    SignsStand([]);
    SignsStand(s + [41] + []);
    assert [40] + (s + [41] + []) == [40] + s + [41] && [41] + [] == [41];
    OneSeq([Group(Expr(ss))], found);
    OneFactor(Group(Expr(ss)), found);
  }

  /** -s is read as not s, if s is one factor. */
  lemma MinusIsNot(s: Text, f: Factor, found: Found)
    requires Spells([Seq([f])], Lex(s))
    ensures Spells([Seq([Not(f)])], Lex([45] + s))
    ensures MeansExpr([Seq([Not(f)])], found) <==> !MeansExpr([Seq([f])], found)
  {
    hide Lex, YieldExpr, YieldSeq, FormedExpr, MeansExpr, FormedSeq, MeansSeq;
    SignsStand(s);
    OneSeq([f], found);
    OneFactor(f, found);
    OneSeq([Not(f)], found);
    OneFactor(Not(f), found);
  }

  /** A word or a quoted phrase asks for that term. */
  lemma TermIsAsked(w: Text, phrase: Text, found: Found)
    requires WordText(w) && 34 !in phrase
    ensures Spells([Seq([Leaf(Term(w, false))])], Lex(w)) && Spells([Seq([Leaf(Term(phrase, true))])], Lex([34] + phrase + [34]))
    ensures MeansExpr([Seq([Leaf(Term(w, false))])], found) <==> found(Term(w, false))
    ensures MeansExpr([Seq([Leaf(Term(phrase, true))])], found) <==> found(Term(phrase, true))
  {
    hide Lex, YieldExpr, YieldSeq, FormedExpr, MeansExpr, FormedSeq, MeansSeq, WordText;
    WordIsWhole(w, []);
    QuotesEnclose(phrase, []);
    SignsStand([]);
    assert w + [] == w && [34] + phrase + [34] + [] == [34] + phrase + [34];
    OneSeq([Leaf(Term(w, false))], found);
    OneFactor(Leaf(Term(w, false)), found);
    OneSeq([Leaf(Term(phrase, true))], found);
    OneFactor(Leaf(Term(phrase, true)), found);
  }

  /** A text that is read has one tree, and its abstract syntax has the tree's meaning. */
  lemma OneReading(s: Text, ss: seq<Seq>, other: seq<Seq>, found: Found)
    requires Spells(ss, Lex(s)) && Spells(other, Lex(s))
    ensures ss == other && (True(AstOfExpr(other, 0), found) <==> MeansExpr(ss, found))
  {
    hide Lex, Spells, MeansExpr, AstOfExpr;
    AcceptsExactly(Lex(s));
    ParsedMeaning(Lex(s), ss, found);
  }
}
