/**
  The whole way through one chunk: from the text of a query and the bytes of a chunk file
  to the documents whose own words satisfy the text (index/Index.cpp,
  index_chunk/chunk_manager.h, query/expressions.h).
*/
module ChunkSearch {
  import opened Bytes
  import opened Postings
  import opened QueryAst
  import opened QueryMeaning
  import opened QueryParser
  import opened QueryTokens
  import opened ChunkLayout
  import opened IndexBuilder
  import opened ChunkManager
  import B = IsrBuild
  import C = ChunkIndex
  import P = Positions
  import S = QuerySearch
  import W = WordOrder
  import X = IsrExact
  import ChunkQueries

  /** The words stand one after the other in the document, and all are of the kind that is indexed. */
  ghost predicate StandIn(d: Doc, ws: seq<Text>, pos: nat) {
    && |ws| > 0 && pos + |ws| <= |d.words|
    && forall i | 0 <= i < |ws| :: d.words[pos + i] == ws[i] && Kept(ws[i])
  }

  /** What a document has: a word anywhere, a phrase word after word. */
  ghost function Has(d: Doc): Found {
    (t: Term) => exists pos: nat :: StandIn(d, B.WordsOf(TermData(t.val, false, t.isPhrase, 0)), pos)
  }

  /** A word begins with a letter a to z or a digit. */
  predicate BeginsWell(w: Text) {
    w != [] && (97 <= w[0] <= 122 || 48 <= w[0] <= 57)
  }

  /** From `pos` on the text has these words, each in its place. */
  predicate WordsAt(text: seq<Text>, ws: seq<Text>, pos: nat) {
    pos + |ws| <= |text| && text[pos..pos + |ws|] == ws
  }

  lemma StandInIs(d: Doc, ws: seq<Text>, pos: nat)
    ensures StandIn(d, ws, pos) <==> |ws| > 0 && (forall i | 0 <= i < |ws| :: BeginsWell(ws[i])) && WordsAt(d.words, ws, pos)
  {
    if pos + |ws| <= |d.words| {
      var part := d.words[pos..pos + |ws|];
      assert forall i | 0 <= i < |ws| :: part[i] == d.words[pos + i];
    }
  }

  /** A document has a phrase when its words, however spaced, stand one after the other in it. */
  lemma HasPhrase(d: Doc, gaps: seq<Text>, ws: seq<Text>, tail: Text)
    requires |gaps| == |ws| && B.AreGaps(gaps) && B.AreWords(ws) && B.Blank(tail)
    ensures Has(d)(Term(B.Spread(gaps, ws) + tail, true)) <==>
            |ws| > 0 && (forall i | 0 <= i < |ws| :: BeginsWell(ws[i])) && exists pos :: WordsAt(d.words, ws, pos)
  {
    hide B.WordsOf, B.Spread, B.AreGaps, B.AreWords, StandIn, WordsAt, BeginsWell;
    B.WordsAre(gaps, ws, tail, [], false, 0);
    forall pos: nat { StandInIs(d, ws, pos); }
  }

  /** And a word when it is anywhere in it. */
  lemma HasWord(d: Doc, w: Text)
    ensures Has(d)(Term(w, false)) <==> BeginsWell(w) && w in d.words
  {
    hide B.WordsOf;
    B.WordsAre([], [], [], w, false, 0);
    if pos: nat :| StandIn(d, [w], pos) { assert d.words[pos + 0] == [w][0]; }
    if BeginsWell(w) && w in d.words {
      var pos: nat :| pos < |d.words| && d.words[pos] == w;
      assert StandIn(d, [w], pos);
    }
  }

  /** The documents in which the text is true, by number, in order. */
  ghost function Satisfying(docs: seq<Doc>, ss: seq<Seq>): seq<nat> {
    if docs == [] then []
    else Satisfying(docs[..|docs| - 1], ss) + if MeansExpr(ss, Has(docs[|docs| - 1])) then [|docs|] else []
  }

  lemma {:induction false} SatisfyingExact(docs: seq<Doc>, ss: seq<Seq>)
    ensures B.Increasing(Satisfying(docs, ss))
    ensures forall n: nat :: n in Satisfying(docs, ss) <==> 1 <= n <= |docs| && MeansExpr(ss, Has(docs[n - 1]))
  {
    hide Satisfying, MeansExpr, Has, B.Increasing;
    SatisfyingStep(docs, ss);
    if docs != [] {
      var before := docs[..|docs| - 1];
      SatisfyingExact(before, ss);
      LargestLast(Satisfying(before, ss), |docs|);
      forall n: nat ensures n in Satisfying(docs, ss) <==> 1 <= n <= |docs| && MeansExpr(ss, Has(docs[n - 1])) {
        if 1 <= n < |docs| { assert before[n - 1] == docs[n - 1]; }
      }
    }
  }

  lemma SatisfyingStep(docs: seq<Doc>, ss: seq<Seq>)
    ensures B.Increasing([]) && Satisfying([], ss) == []
    ensures docs != [] ==>
              var n := |docs|;
              Satisfying(docs, ss) == Satisfying(docs[..n - 1], ss) + if MeansExpr(ss, Has(docs[n - 1])) then [n] else []
  {
    hide MeansExpr, Has;
  }

  lemma LargestLast(ns: seq<nat>, n: nat)
    requires B.Increasing(ns) && forall m | m in ns :: m < n
    ensures B.Increasing(ns + [n]) && B.Increasing(ns + [])
  {
    assert ns + [] == ns;
    assert forall i | 0 <= i < |ns| :: ns[i] in ns;
  }

  /** On the index of the documents, standing in a document's lists is standing in its words. */
  lemma StandsInWords(docs: seq<Doc>, words: seq<Text>, ws: seq<Text>, n: nat, pos: nat)
    requires forall w :: w in words <==> Occurs(docs, w) && Kept(w)
    ensures B.StandAt(C.IndexOf(docs, words), ws, n, pos) <==> 1 <= n <= |docs| && 1 <= pos && StandIn(docs[n - 1], ws, pos - 1)
  {
    hide PostsOf, DocCount, Kept;
    var index := C.IndexOf(docs, words);
    forall i | 0 <= i < |ws|
      ensures Post(n, pos + i) in B.ListOf(index, ws[i]).posts <==>
              1 <= n <= |docs| && 1 <= pos + i <= |docs[n - 1].words| && docs[n - 1].words[pos + i - 1] == ws[i] && Kept(ws[i])
    {
      PostsOfExactly(docs, ws[i]);
    }
    if B.StandAt(index, ws, n, pos) {
      assert Post(n, pos + 0) in B.ListOf(index, ws[0]).posts && Post(n, pos + (|ws| - 1)) in B.ListOf(index, ws[|ws| - 1]).posts;
      forall i | 0 <= i < |ws| ensures docs[n - 1].words[pos - 1 + i] == ws[i] && Kept(ws[i]) {
        assert Post(n, pos + i) in B.ListOf(index, ws[i]).posts;
      }
    }
    if 1 <= n <= |docs| && 1 <= pos && StandIn(docs[n - 1], ws, pos - 1) {
      forall i | 0 <= i < |ws| ensures Post(n, pos + i) in B.ListOf(index, ws[i]).posts {
        assert docs[n - 1].words[pos - 1 + i] == ws[i];
      }
    }
  }

  lemma HasTermIs(docs: seq<Doc>, words: seq<Text>, n: nat, t: Term)
    requires forall w :: w in words <==> Occurs(docs, w) && Kept(w)
    ensures S.HasTerm(C.IndexOf(docs, words), n)(t) <==> 1 <= n <= |docs| && Has(docs[n - 1])(t)
  {
    hide B.StandAt, StandIn, C.IndexOf;
    var ws, index := B.WordsOf(TermData(t.val, false, t.isPhrase, 0)), C.IndexOf(docs, words);
    if pos: nat :| B.StandAt(index, ws, n, pos) { StandsInWords(docs, words, ws, n, pos); }
    if 1 <= n <= |docs| && Has(docs[n - 1])(t) {
      var pos: nat :| StandIn(docs[n - 1], ws, pos);
      StandsInWords(docs, words, ws, n, pos + 1);
    }
  }

  /** A tree's meaning depends on what is found, term by term. */
  lemma {:induction false} SameFound(a: Ast, f: Found, g: Found)
    requires forall t :: f(t) == g(t)
    ensures True(a, f) <==> True(a, g)
  {
    match a
    case AstTerm(_) =>
    case AstAnd(cs) => forall i | 0 <= i < |cs| { SameFound(cs[i], f, g); }
    case AstOr(cs) => forall i | 0 <= i < |cs| { SameFound(cs[i], f, g); }
  }

  /** A driveable query is false of a document that has nothing. */
  lemma {:induction false} NothingFound(a: Ast, f: Found)
    requires Driveable(a) && forall t :: !f(t)
    ensures !True(a, f)
  {
    match a
    case AstTerm(_) =>
    case AstAnd(cs) =>
      var i :| 0 <= i < |cs| && Driveable(cs[i]);
      NothingFound(cs[i], f);
    case AstOr(cs) => forall i | 0 <= i < |cs| { NothingFound(cs[i], f); }
  }

  /** The run of a safe text on the documents' index is the documents that satisfy it. */
  lemma RunIsSatisfying(docs: seq<Doc>, words: seq<Text>, query: Text, ss: seq<Seq>)
    requires forall w :: w in words <==> Occurs(docs, w) && Kept(w)
    requires B.ValidIndex(C.IndexOf(docs, words)) && Spells(ss, Lex(query)) && X.DriveSafeQuery(AstOfExpr(ss, 0))
    ensures B.Run(B.Build(AstOfExpr(ss, 0), C.IndexOf(docs, words))) == Satisfying(docs, ss)
  {
    hide C.IndexOf, B.Build, B.Run, AstOfExpr, MeansExpr, Satisfying, X.DriveSafeQuery, B.ValidIndex, Lex, S.HasTerm,
      Has, Driveable;
    var index, a := C.IndexOf(docs, words), AstOfExpr(ss, 0);
    S.TextIsAnswered(query, ss, index);
    SatisfyingExact(docs, ss);
    X.DriveSafeQueryIsDriveable(a);
    forall n: nat ensures n in B.Run(B.Build(a, index)) <==> n in Satisfying(docs, ss) {
      forall t ensures S.HasTerm(index, n)(t) <==> 1 <= n <= |docs| && Has(docs[n - 1])(t) { HasTermIs(docs, words, n, t); }
      ParsedMeaning(Lex(query), ss, S.HasTerm(index, n));
      if 1 <= n <= |docs| {
        ParsedMeaning(Lex(query), ss, Has(docs[n - 1]));
        SameFound(a, S.HasTerm(index, n), Has(docs[n - 1]));
      } else {
        NothingFound(a, S.HasTerm(index, n));
      }
    }
    ChunkQueries.SameDocs(B.Run(B.Build(a, index)), Satisfying(docs, ss));
  }

  /**
    A hit tells the URL of document n and, for each positive word of the query, exactly its
    places in the document and in how many documents of the chunk it occurs.
  */
  ghost predicate Describes(hit: DocInfo, docs: seq<Doc>, n: nat, words: seq<Text>) {
    && 1 <= n <= |docs| && hit.url == docs[n - 1].url && |hit.words| == |words|
    && forall k | 0 <= k < |words| :: Places(hit.words[k], docs[n - 1], words[k]) && hit.words[k].freq == |Holders(docs, words[k])|
  }

  ghost predicate Places(info: NodeInfo, d: Doc, w: Text) {
    && info.word == w && P.Climbing(info.positions)
    && forall p :: p in info.positions <==> BeginsWell(w) && 1 <= p <= |d.words| && d.words[p - 1] == w
  }

  /** The documents with a word, if it is of the kind that is indexed. */
  ghost function Holders(docs: seq<Doc>, w: Text): set<int> {
    set i | 0 <= i < |docs| && BeginsWell(w) && w in docs[i].words
  }

  lemma {:induction false} CountsHolders(docs: seq<Doc>, w: Text)
    ensures |Holders(docs, w)| == if Kept(w) then DocCount(docs, w) else 0
  {
    if docs != [] {
      var last := |docs| - 1;
      CountsHolders(docs[..last], w);
      assert Holders(docs, w) == Holders(docs[..last], w) + if BeginsWell(w) && w in docs[last].words then {last} else {};
    }
  }

  lemma HitDescribes(docs: seq<Doc>, words: seq<Text>, unique: seq<Text>, n: nat)
    requires forall w :: w in words <==> Occurs(docs, w) && Kept(w)
    requires 1 <= n <= |docs|
    ensures Describes(HitOf(Urls(docs), C.IndexOf(docs, words), unique, n), docs, n, unique)
  {
    hide PostsOf, DocCount, P.Locations, P.Climbing, Holders;
    var index := C.IndexOf(docs, words);
    forall k | 0 <= k < |unique|
      ensures Places(InfosOf(index, unique, n)[k], docs[n - 1], unique[k]) && InfosOf(index, unique, n)[k].freq == |Holders(docs, unique[k])|
    {
      CountsHolders(docs, unique[k]);
      if !Occurs(docs, unique[k]) { AbsentWord(docs, unique[k]); }
      var list := B.ListOf(index, unique[k]);
      PostsOfExactly(docs, unique[k]);
      NoPosts();
      P.LocationsExact(list.posts, n);
    }
  }

  lemma NoPosts()
    ensures Ascending([])
  {
  }

  /**
    Loading a chunk and querying it.  For a text whose tokens are a sentence of the grammar
    and whose query is in the safe class, the hits are, in order and up to cap and
    deadline, exactly the documents whose own words satisfy the text.
  */
  method SearchChunk(query: Text, file: seq<byte>, deadline: Deadline, ghost ss: seq<Seq>, ghost docs: seq<Doc>, ghost words: seq<Text>)
    returns (hits: seq<DocInfo>)
    requires Spells(ss, Lex(query)) && X.DriveSafeQuery(AstOfExpr(ss, 0))
    requires ChunkFileWith(file, docs, words)
    requires forall i | 0 <= i < |docs| :: GoodDoc(docs[i]) && NEWLINE !in docs[i].url
    requires W.SignsAgree(words) && C.FileFits(docs, words) && C.Carries(docs, words)
    ensures var found := Satisfying(docs, ss);
            && |hits| == Reported(|found|, deadline)
            && forall i | 0 <= i < |hits| :: i < |found| && Describes(hits[i], docs, found[i], UniqueWords(AstOfExpr(ss, 0)))
    ensures var found := |Satisfying(docs, ss)|;
            && (deadline.Never? && found <= 2000 ==> |hits| == found)
            && (deadline.Never? && found > 2000 ==> |hits| == 2000)
            && (deadline.After? && deadline.checks <= found <= 2000 ==> |hits| == deadline.checks)
  {
    hide C.FileFits, C.Carries, C.Serves, GoodDoc, W.SignsAgree, FormedExpr, YieldExpr, Lex, AstOfExpr,
      X.DriveSafeQuery, Satisfying, UniqueWords, Driveable, B.Run, B.Build, HitOf, Describes, C.IndexOf, Occurs,
      FileBytes, Listing, W.RadixSorted, B.ValidIndex;
    var li := C.LoadIndexed(file, docs, words);
    var tokens := Tokenize(query);
    var parsed := ParseAst(tokens);
    assert parsed == Ok(AstOfExpr(ss, 0));
    hits := Query(parsed.value, li, deadline, C.IndexOf(docs, words));
    X.DriveSafeQueryIsDriveable(parsed.value);
    RunIsSatisfying(docs, words, query, ss);
    SatisfyingExact(docs, ss);
    ghost var found := Satisfying(docs, ss);
    forall i | 0 <= i < |hits|
      ensures i < |found| && Describes(hits[i], docs, found[i], UniqueWords(AstOfExpr(ss, 0)))
    {
      assert found[i] in found;
      HitDescribes(docs, words, UniqueWords(AstOfExpr(ss, 0)), found[i]);
    }
  }
}
