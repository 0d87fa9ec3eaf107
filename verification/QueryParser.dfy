/**
  The recursive-descent parser of query/expressions.h, against its grammar:

    expr   ::= seq ('|' seq)*
    seq    ::= factor factor*
    factor ::= WORD | PHRASE | '-' factor | '(' expr ')'

  The parser accepts exactly the token lists of the grammar, each in one way only,
  and the tree it builds has the grammar's meaning, with '-' as complement.
*/
module QueryParser {
  import opened Bytes
  import opened QueryAst
  import opened QueryMeaning

  datatype Token = Word(val: Text) | Phrase(val: Text) | LParen | RParen | Pipe | Minus

  datatype ParseError =
    | UnexpectedEnd
    | MissingParen
    | UnexpectedToken
    | EmptySequence
    | EmptyQuery
    | TrailingTokens
    | OnlyNegated
    | ArenaFull

  datatype Result<T> = Ok(value: T) | Err(error: ParseError)

  // ---------------------------------------------------------------- the grammar

  datatype Factor = Leaf(term: Term) | Not(arg: Factor) | Group(expr: Expr)
  datatype Seq = Seq(factors: seq<Factor>)
  datatype Expr = Expr(seqs: seq<Seq>)

  /** The tokens a parse tree spells. */
  function YieldFactor(f: Factor): seq<Token>
    decreases f
  {
    match f
    case Leaf(t) => [if t.isPhrase then Phrase(t.val) else Word(t.val)]
    case Not(g) => [Minus] + YieldFactor(g)
    case Group(e) => [LParen] + YieldExpr(e.seqs) + [RParen]
  }

  function YieldSeq(fs: seq<Factor>): seq<Token>
    decreases fs
  {
    if fs == [] then [] else YieldFactor(fs[0]) + YieldSeq(fs[1..])
  }

  function YieldExpr(ss: seq<Seq>): seq<Token>
    decreases ss
  {
    if ss == [] then []
    else if |ss| == 1 then YieldSeq(ss[0].factors)
    else YieldSeq(ss[0].factors) + [Pipe] + YieldExpr(ss[1..])
  }

  /** No sequence and no expression is empty. */
  predicate Formed(f: Factor)
    decreases f
  {
    match f
    case Leaf(_) => true
    case Not(g) => Formed(g)
    case Group(e) => FormedExpr(e.seqs)
  }

  predicate FormedSeq(fs: seq<Factor>)
    decreases fs
  {
    |fs| > 0 && forall i | 0 <= i < |fs| :: Formed(fs[i])
  }

  predicate FormedExpr(ss: seq<Seq>)
    decreases ss
  {
    |ss| > 0 && forall i | 0 <= i < |ss| :: FormedSeq(ss[i].factors)
  }

  /** The meaning of the grammar. */
  predicate Means(f: Factor, found: Found)
    decreases f
  {
    match f
    case Leaf(t) => found(t)
    case Not(g) => !Means(g, found)
    case Group(e) => MeansExpr(e.seqs, found)
  }

  predicate MeansSeq(fs: seq<Factor>, found: Found)
    decreases fs
  {
    forall i | 0 <= i < |fs| :: Means(fs[i], found)
  }

  predicate MeansExpr(ss: seq<Seq>, found: Found)
    decreases ss
  {
    exists i | 0 <= i < |ss| :: MeansSeq(ss[i].factors, found)
  }

  // ---------------------------------------------------------------- recursive descent

  predicate EndsSeq(ts: seq<Token>) {
    ts == [] || ts[0] == Pipe || ts[0] == RParen
  }

  predicate EndsExpr(ts: seq<Token>) {
    ts == [] || ts[0] == RParen
  }

  /** parse_factor: the factor at the front, and what is left. */
  function ParseF(ts: seq<Token>): (r: Result<(Factor, seq<Token>)>)
    ensures r.Ok? ==> |r.value.1| < |ts| && r.value.1 == ts[|ts| - |r.value.1|..]
    decreases |ts|, 0
  {
    if ts == [] then Err(UnexpectedEnd)
    else
      match ts[0]
      case Minus => (
        match ParseF(ts[1..])
        case Ok((f, rest)) => Ok((Not(f), rest))
        case Err(e) => Err(e))
      case LParen => (
        match ParseE(ts[1..])
        case Ok((ss, rest)) =>
          if rest == [] || rest[0] != RParen then Err(MissingParen) else Ok((Group(Expr(ss)), rest[1..]))
        case Err(e) => Err(e))
      case Word(v) => Ok((Leaf(Term(v, false)), ts[1..]))
      case Phrase(v) => Ok((Leaf(Term(v, true)), ts[1..]))
      case _ => Err(UnexpectedToken)
  }

  /** The loop of parse_term_seq. */
  function ParseFs(ts: seq<Token>): (r: Result<(seq<Factor>, seq<Token>)>)
    ensures r.Ok? ==> |r.value.1| <= |ts| && r.value.1 == ts[|ts| - |r.value.1|..]
    decreases |ts|, 1
  {
    if EndsSeq(ts) then Ok(([], ts))
    else
      match ParseF(ts)
      case Ok((f, rest)) => Prepend([f], ParseFs(rest))
      case Err(e) => Err(e)
  }

  /** parse_term_seq */
  function ParseS(ts: seq<Token>): (r: Result<(seq<Factor>, seq<Token>)>)
    ensures r.Ok? ==> |r.value.1| <= |ts| && r.value.1 == ts[|ts| - |r.value.1|..]
    decreases |ts|, 2
  {
    match ParseFs(ts)
    case Ok((fs, rest)) => if fs == [] then Err(EmptySequence) else Ok((fs, rest))
    case Err(e) => Err(e)
  }

  /** parse_expr */
  function ParseE(ts: seq<Token>): (r: Result<(seq<Seq>, seq<Token>)>)
    ensures r.Ok? ==> |r.value.1| <= |ts| && r.value.1 == ts[|ts| - |r.value.1|..]
    decreases |ts|, 3
  {
    match ParseS(ts)
    case Ok((fs, rest)) =>
      if rest != [] && rest[0] == Pipe then Prepend([Seq(fs)], ParseE(rest[1..])) else Ok(([Seq(fs)], rest))
    case Err(e) => Err(e)
  }

  function Prepend<X>(xs: seq<X>, r: Result<(seq<X>, seq<Token>)>): Result<(seq<X>, seq<Token>)> {
    match r
    case Ok((ys, rest)) => Ok((xs + ys, rest))
    case Err(e) => Err(e)
  }

  // ---------------------------------------------------------------- unfolding, one step at a time

  lemma YieldSeqCons(f: Factor, fs: seq<Factor>)
    ensures YieldSeq([f] + fs) == YieldFactor(f) + YieldSeq(fs)
  {
    assert ([f] + fs)[1..] == fs;
  }

  lemma YieldExprCons(s: Seq, ss: seq<Seq>)
    ensures YieldExpr([s] + ss) == YieldSeq(s.factors) + if ss == [] then [] else [Pipe] + YieldExpr(ss)
  {
    assert ([s] + ss)[1..] == ss;
  }

  lemma ParseFsStep(ts: seq<Token>)
    ensures EndsSeq(ts) ==> ParseFs(ts) == Ok(([], ts))
    ensures !EndsSeq(ts) && ParseF(ts).Ok? ==> ParseFs(ts) == Prepend([ParseF(ts).value.0], ParseFs(ParseF(ts).value.1))
    ensures !EndsSeq(ts) && ParseF(ts).Err? ==> ParseFs(ts) == Err(ParseF(ts).error)
  {
  }

  lemma ParseEStep(ts: seq<Token>)
    ensures ParseFs(ts).Err? ==> ParseE(ts) == Err(ParseFs(ts).error)
    ensures ParseFs(ts).Ok? ==>
              var (fs, rest) := ParseFs(ts).value;
              ParseE(ts) == if fs == [] then Err(EmptySequence)
                            else if rest != [] && rest[0] == Pipe then Prepend([Seq(fs)], ParseE(rest[1..]))
                            else Ok(([Seq(fs)], rest))
  {
  }

  /** What a factor of each kind parses to. */
  lemma ParseFStep(ts: seq<Token>)
    requires ts != []
    ensures ts[0].Word? ==> ParseF(ts) == Ok((Leaf(Term(ts[0].val, false)), ts[1..]))
    ensures ts[0].Phrase? ==> ParseF(ts) == Ok((Leaf(Term(ts[0].val, true)), ts[1..]))
    ensures ts[0].Minus? && ParseF(ts[1..]).Ok? ==> ParseF(ts) == Ok((Not(ParseF(ts[1..]).value.0), ParseF(ts[1..]).value.1))
    ensures (ts[0].Minus? && ParseF(ts[1..]).Err?) || (ts[0].LParen? && ParseE(ts[1..]).Err?) || ts[0].RParen? || ts[0].Pipe? ==>
              ParseF(ts).Err?
    ensures ts[0].LParen? && ParseE(ts[1..]).Ok? ==>
              var (ss, rest) := ParseE(ts[1..]).value;
              ParseF(ts) == if rest == [] || rest[0] != RParen then Err(MissingParen) else Ok((Group(Expr(ss)), rest[1..]))
  {
  }

  lemma YieldFactorStep(f: Factor)
    ensures match f
            case Leaf(t) => YieldFactor(f) == [if t.isPhrase then Phrase(t.val) else Word(t.val)]
            case Not(g) => YieldFactor(f) == [Minus] + YieldFactor(g)
            case Group(e) => YieldFactor(f) == [LParen] + YieldExpr(e.seqs) + [RParen]
  {
  }

  lemma FirstOfFactor(f: Factor)
    ensures |YieldFactor(f)| > 0 && YieldFactor(f)[0] != Pipe && YieldFactor(f)[0] != RParen
  {
  }

  // ---------------------------------------------------------------- the parser accepts exactly the grammar

  /** The factor spells the tokens read, and what follows them is left. */
  ghost predicate FactorSpells(f: Factor, ts: seq<Token>, rest: seq<Token>) {
    Formed(f) && ts == YieldFactor(f) + rest
  }

  lemma SpellsNot(f: Factor, ts: seq<Token>, rest: seq<Token>)
    requires ts != [] && ts[0] == Minus && FactorSpells(f, ts[1..], rest)
    ensures FactorSpells(Not(f), ts, rest)
  {
    assert ts == [ts[0]] + ts[1..];
  }

  lemma SpellsGroup(ss: seq<Seq>, ts: seq<Token>, more: seq<Token>)
    requires ts != [] && ts[0] == LParen && FormedExpr(ss) && ts[1..] == YieldExpr(ss) + more
    requires more != [] && more[0] == RParen
    ensures FactorSpells(Group(Expr(ss)), ts, more[1..])
  {
    hide FormedExpr, YieldExpr;
    assert ts == [LParen] + ts[1..];
    assert more == [RParen] + more[1..];
  }

  lemma SpellsLeaf(t: Term, ts: seq<Token>)
    requires ts != [] && ts[0] == if t.isPhrase then Phrase(t.val) else Word(t.val)
    ensures FactorSpells(Leaf(t), ts, ts[1..])
  {
  }

  /** What the parser accepted is spelled by the tree it found. */
  lemma {:induction false} SoundF(ts: seq<Token>)
    requires ParseF(ts).Ok?
    ensures var (f, rest) := ParseF(ts).value; FactorSpells(f, ts, rest)
    decreases |ts|, 0
  {
    hide ParseF, ParseE, YieldExpr, FormedExpr, EndsExpr, FactorSpells;
    NothingParsed();
    ParseFStep(ts);
    if ts[0].Minus? {
      SoundF(ts[1..]);
      var (f, rest) := ParseF(ts[1..]).value;
      SpellsNot(f, ts, rest);
    } else if ts[0].LParen? {
      SoundE(ts[1..]);
      var (ss, more) := ParseE(ts[1..]).value;
      SpellsGroup(ss, ts, more);
    } else {
      SpellsLeaf(ParseF(ts).value.0.term, ts);
    }
  }

  lemma NothingParsed()
    ensures ParseF([]).Err?
  {
  }

  lemma Regrouped(ts: seq<Token>, first: seq<Token>, rest: seq<Token>, more: seq<Token>, rest': seq<Token>)
    requires ts == first + rest && rest == more + rest'
    ensures ts == (first + more) + rest'
  {
  }

  lemma FormedFactors(f: Factor, fs: seq<Factor>)
    requires Formed(f) && forall i | 0 <= i < |fs| :: Formed(fs[i])
    ensures forall i | 0 <= i < |[f] + fs| :: Formed(([f] + fs)[i])
  {
    hide Formed;
  }

  lemma {:induction false} SoundFs(ts: seq<Token>)
    requires ParseFs(ts).Ok?
    ensures var (fs, rest) := ParseFs(ts).value;
            (forall i | 0 <= i < |fs| :: Formed(fs[i])) && ts == YieldSeq(fs) + rest && EndsSeq(rest)
    decreases |ts|, 1
  {
    hide ParseF, ParseFs, YieldFactor, YieldSeq, Formed, EndsSeq;
    ParseFsStep(ts);
    if EndsSeq(ts) {
      EmptyYield(ts);
    } else {
      SoundF(ts);
      var (f, rest) := ParseF(ts).value;
      SoundFs(rest);
      var (fs, rest') := ParseFs(rest).value;
      YieldSeqCons(f, fs);
      Regrouped(ts, YieldFactor(f), rest, YieldSeq(fs), rest');
      FormedFactors(f, fs);
    }
  }

  lemma EmptyYield(ts: seq<Token>)
    ensures YieldSeq([]) + ts == ts
  {
  }

  lemma {:induction false} SoundE(ts: seq<Token>)
    requires ParseE(ts).Ok?
    ensures var (ss, rest) := ParseE(ts).value; FormedExpr(ss) && ts == YieldExpr(ss) + rest && EndsExpr(rest)
    decreases |ts|, 3
  {
    hide ParseE, ParseFs, YieldExpr, YieldSeq, Formed, FormedExpr;
    ParseEStep(ts);
    SoundFs(ts);
    var (fs, rest) := ParseFs(ts).value;
    if rest != [] && rest[0] == Pipe {
      SoundE(rest[1..]);
      var (ss, rest') := ParseE(rest[1..]).value;
      YieldExprCons(Seq(fs), ss);
      NoEmptyExpr(ss);
      Joined(ts, YieldSeq(fs), rest, YieldExpr(ss), rest');
      FormedCons(Seq(fs), ss);
    } else {
      YieldOne(fs);
    }
  }

  lemma NoEmptyExpr(ss: seq<Seq>)
    requires FormedExpr(ss)
    ensures ss != []
  {
  }

  lemma YieldOne(fs: seq<Factor>)
    requires fs != [] && forall i | 0 <= i < |fs| :: Formed(fs[i])
    ensures FormedExpr([Seq(fs)]) && YieldExpr([Seq(fs)]) == YieldSeq(fs)
  {
    hide Formed, YieldSeq;
  }

  lemma Joined(ts: seq<Token>, first: seq<Token>, rest: seq<Token>, more: seq<Token>, rest': seq<Token>)
    requires ts == first + rest && rest != [] && rest[0] == Pipe && rest[1..] == more + rest'
    ensures ts == first + ([Pipe] + more) + rest'
  {
    assert rest == [Pipe] + rest[1..];
  }

  lemma FormedCons(s: Seq, ss: seq<Seq>)
    ensures FormedSeq(s.factors) && (ss == [] || FormedExpr(ss)) ==> FormedExpr([s] + ss)
  {
    hide Formed;
  }

  /** Every tree of the grammar is found again, whatever follows it. */
  lemma {:induction false} CompleteF(f: Factor, rest: seq<Token>)
    requires Formed(f)
    ensures ParseF(YieldFactor(f) + rest) == Ok((f, rest))
    decreases f
  {
    hide ParseF, ParseE, YieldFactor, YieldExpr, FormedExpr;
    var ts := YieldFactor(f) + rest;
    YieldFactorStep(f);
    match f
    case Leaf(t) =>
      ConsTail(ts[0], [], rest);
      ParseFStep(ts);
    case Not(g) =>
      CompleteF(g, rest);
      ConsTail(Minus, YieldFactor(g), rest);
      ParseFStep(ts);
    case Group(e) =>
      CompleteE(e.seqs, [RParen] + rest);
      ParenTail(YieldExpr(e.seqs), rest);
      ParseFStep(ts);
  }

  lemma ConsTail(t: Token, body: seq<Token>, rest: seq<Token>)
    ensures var ts := [t] + body + rest; ts[0] == t && ts[1..] == body + rest
    ensures [t] + [] == [t] && [] + rest == rest
  {
  }

  lemma ParenTail(body: seq<Token>, rest: seq<Token>)
    ensures var ts := [LParen] + body + [RParen] + rest; ts[0] == LParen && ts[1..] == body + ([RParen] + rest)
    ensures ([RParen] + rest)[0] == RParen && ([RParen] + rest)[1..] == rest
  {
  }

  lemma {:induction false} CompleteFs(fs: seq<Factor>, rest: seq<Token>)
    requires forall i | 0 <= i < |fs| :: Formed(fs[i])
    requires EndsSeq(rest)
    ensures ParseFs(YieldSeq(fs) + rest) == Ok((fs, rest))
    decreases fs
  {
    hide ParseF, ParseFs, YieldFactor, YieldSeq, Formed, EndsSeq;
    if fs == [] {
      EmptyYield(rest);
      ParseFsStep(rest);
    } else {
      var first, tail := YieldFactor(fs[0]), YieldSeq(fs[1..]) + rest;
      CompleteF(fs[0], tail);
      CompleteFs(fs[1..], rest);
      assert [fs[0]] + fs[1..] == fs;
      YieldSeqCons(fs[0], fs[1..]);
      Associate(first, YieldSeq(fs[1..]), rest);
      FirstOfFactor(fs[0]);
      GoesOn(first, tail);
      ParseFsStep(first + tail);
    }
  }

  lemma Associate(a: seq<Token>, b: seq<Token>, c: seq<Token>)
    ensures (a + b) + c == a + (b + c)
  {
  }

  lemma GoesOn(first: seq<Token>, tail: seq<Token>)
    requires |first| > 0 && first[0] != Pipe && first[0] != RParen
    ensures !EndsSeq(first + tail)
  {
    assert (first + tail)[0] == first[0];
  }

  lemma {:induction false} CompleteE(ss: seq<Seq>, rest: seq<Token>)
    requires FormedExpr(ss) && EndsExpr(rest)
    ensures ParseE(YieldExpr(ss) + rest) == Ok((ss, rest))
    decreases ss
  {
    hide ParseE, ParseFs, YieldExpr, YieldSeq, Formed;
    var more := if |ss| == 1 then [] else [Pipe] + YieldExpr(ss[1..]);
    assert [Seq(ss[0].factors)] + ss[1..] == ss;
    YieldExprCons(ss[0], ss[1..]);
    assert YieldExpr(ss) + rest == YieldSeq(ss[0].factors) + (more + rest);
    CompleteFs(ss[0].factors, more + rest);
    ParseEStep(YieldExpr(ss) + rest);
    if |ss| == 1 {
      assert more + rest == rest;
      assert ss == [Seq(ss[0].factors)];
    } else {
      CompleteE(ss[1..], rest);
      assert (more + rest)[1..] == YieldExpr(ss[1..]) + rest;
    }
  }

  // ---------------------------------------------------------------- the tree the parser builds

  /** How many leaves, that is, how many term ids are given out. */
  function Count(f: Factor): nat
    decreases f
  {
    match f
    case Leaf(_) => 1
    case Not(g) => Count(g)
    case Group(e) => CountExpr(e.seqs)
  }

  function CountSeq(fs: seq<Factor>): nat
    decreases fs
  {
    if fs == [] then 0 else CountSeq(fs[..|fs| - 1]) + Count(fs[|fs| - 1])
  }

  function CountExpr(ss: seq<Seq>): nat
    decreases ss
  {
    if ss == [] then 0 else CountExpr(ss[..|ss| - 1]) + CountSeq(ss[|ss| - 1].factors)
  }

  /** The tree of a factor whose first leaf gets id `id`: minus signs are pushed to the leaves at once. */
  function AstOf(f: Factor, id: nat): Ast
    requires Formed(f)
    decreases f, 1
  {
    match f
    case Leaf(t) => AstTerm(TermData(t.val, false, t.isPhrase, id))
    case Not(g) => Negate(AstOf(g, id))
    case Group(e) => AstOfExpr(e.seqs, id)
  }

  function AstsOf(fs: seq<Factor>, id: nat): (r: seq<Ast>)
    requires forall i | 0 <= i < |fs| :: Formed(fs[i])
    ensures |r| == |fs|
    decreases fs, 0
  {
    if fs == [] then []
    else
      var last := |fs| - 1;
      AstsOf(fs[..last], id) + [AstOf(fs[last], id + CountSeq(fs[..last]))]
  }

  /** A sequence of one factor is that factor. */
  function AstOfSeq(fs: seq<Factor>, id: nat): Ast
    requires FormedSeq(fs)
    decreases fs, 1
  {
    if |fs| == 1 then AstsOf(fs, id)[0] else AstAnd(AstsOf(fs, id))
  }

  function AstsOfExpr(ss: seq<Seq>, id: nat): (r: seq<Ast>)
    requires forall i | 0 <= i < |ss| :: FormedSeq(ss[i].factors)
    ensures |r| == |ss|
    decreases ss, 0
  {
    if ss == [] then []
    else
      var last := |ss| - 1;
      AstsOfExpr(ss[..last], id) + [AstOfSeq(ss[last].factors, id + CountExpr(ss[..last]))]
  }

  /** An alternative of one sequence is that sequence. */
  function AstOfExpr(ss: seq<Seq>, id: nat): Ast
    requires FormedExpr(ss)
    decreases ss, 1
  {
    if |ss| == 1 then AstsOfExpr(ss, id)[0] else AstOr(AstsOfExpr(ss, id))
  }

  /** The tree means what the grammar means, and no operator has fewer than two children. */
  lemma {:induction false} AstMeaning(f: Factor, id: nat, found: Found)
    requires Formed(f)
    ensures True(AstOf(f, id), found) <==> Means(f, found)
    ensures Proper(AstOf(f, id))
    decreases f, 1
  {
    match f
    case Leaf(t) =>
    case Not(g) =>
      AstMeaning(g, id, found);
      NegateComplements(AstOf(g, id), found);
      NegateProper(AstOf(g, id));
    case Group(e) =>
      AstExprMeaning(e.seqs, id, found);
  }

  lemma {:induction false} AstsMeaning(fs: seq<Factor>, id: nat, found: Found)
    requires forall i | 0 <= i < |fs| :: Formed(fs[i])
    ensures forall i | 0 <= i < |fs| :: True(AstsOf(fs, id)[i], found) <==> Means(fs[i], found)
    ensures forall i | 0 <= i < |fs| :: Proper(AstsOf(fs, id)[i])
    decreases fs, 0
  {
    hide True, Proper, Formed, Means, AstOf, AstsOf, CountSeq;
    if fs != [] {
      var last := |fs| - 1;
      AstsMeaning(fs[..last], id, found);
      AstMeaning(fs[last], id + CountSeq(fs[..last]), found);
      AstsOfStep(fs, id);
    }
  }

  lemma AstsOfStep(fs: seq<Factor>, id: nat)
    requires fs != [] && forall i | 0 <= i < |fs| :: Formed(fs[i])
    ensures var last := |fs| - 1;
            && AstsOf(fs, id)[last] == AstOf(fs[last], id + CountSeq(fs[..last]))
            && forall i | 0 <= i < last :: AstsOf(fs, id)[i] == AstsOf(fs[..last], id)[i]
  {
    hide Formed, AstOf, CountSeq;
  }

  lemma {:induction false} AstSeqMeaning(fs: seq<Factor>, id: nat, found: Found)
    requires FormedSeq(fs)
    ensures True(AstOfSeq(fs, id), found) <==> MeansSeq(fs, found)
    ensures Proper(AstOfSeq(fs, id))
    decreases fs, 1
  {
    AstsMeaning(fs, id, found);
  }

  lemma {:induction false} AstsExprMeaning(ss: seq<Seq>, id: nat, found: Found)
    requires forall i | 0 <= i < |ss| :: FormedSeq(ss[i].factors)
    ensures forall i | 0 <= i < |ss| :: True(AstsOfExpr(ss, id)[i], found) <==> MeansSeq(ss[i].factors, found)
    ensures forall i | 0 <= i < |ss| :: Proper(AstsOfExpr(ss, id)[i])
    decreases ss, 0
  {
    hide True, Proper, FormedSeq, MeansSeq, AstOfSeq, AstsOfExpr, CountExpr;
    if ss != [] {
      var last := |ss| - 1;
      AstsExprMeaning(ss[..last], id, found);
      AstSeqMeaning(ss[last].factors, id + CountExpr(ss[..last]), found);
      AstsOfExprStep(ss, id);
    }
  }

  lemma AstsOfExprStep(ss: seq<Seq>, id: nat)
    requires ss != [] && forall i | 0 <= i < |ss| :: FormedSeq(ss[i].factors)
    ensures var last := |ss| - 1;
            && AstsOfExpr(ss, id)[last] == AstOfSeq(ss[last].factors, id + CountExpr(ss[..last]))
            && forall i | 0 <= i < last :: AstsOfExpr(ss, id)[i] == AstsOfExpr(ss[..last], id)[i]
  {
    hide FormedSeq, AstOfSeq, CountExpr;
  }

  lemma {:induction false} AstExprMeaning(ss: seq<Seq>, id: nat, found: Found)
    requires FormedExpr(ss)
    ensures True(AstOfExpr(ss, id), found) <==> MeansExpr(ss, found)
    ensures Proper(AstOfExpr(ss, id))
    decreases ss, 1
  {
    AstsExprMeaning(ss, id, found);
  }

  // ---------------------------------------------------------------- the parser as it runs

  /** From `tokens[pos..]` the grammar's factor was read, up to `next`; ids run from `id` to `nextId`. */
  ghost predicate FactorRead(tokens: seq<Token>, pos: nat, id: nat, r: Result<Ast>, next: nat, nextId: nat)
    requires pos <= |tokens|
  {
    match ParseF(tokens[pos..])
    case Ok((f, rest)) =>
      Formed(f) && r == Ok(AstOf(f, id)) && next <= |tokens| && rest == tokens[next..] && nextId == id + Count(f)
    case Err(e) => r == Err(e)
  }

  ghost predicate SeqRead(tokens: seq<Token>, pos: nat, id: nat, r: Result<Ast>, next: nat, nextId: nat)
    requires pos <= |tokens|
  {
    match ParseS(tokens[pos..])
    case Ok((fs, rest)) =>
      FormedSeq(fs) && r == Ok(AstOfSeq(fs, id)) && next <= |tokens| && rest == tokens[next..] && nextId == id + CountSeq(fs)
    case Err(e) => r == Err(e)
  }

  ghost predicate ExprRead(tokens: seq<Token>, pos: nat, id: nat, r: Result<Ast>, next: nat, nextId: nat)
    requires pos <= |tokens|
  {
    match ParseE(tokens[pos..])
    case Ok((ss, rest)) =>
      FormedExpr(ss) && r == Ok(AstOfExpr(ss, id)) && next <= |tokens| && rest == tokens[next..] && nextId == id + CountExpr(ss)
    case Err(e) => r == Err(e)
  }

  /** parse_factor */
  method ParseFactor(tokens: seq<Token>, pos: nat, id: nat) returns (r: Result<Ast>, next: nat, nextId: nat)
    requires pos <= |tokens|
    ensures FactorRead(tokens, pos, id, r, next, nextId)
    decreases |tokens| - pos, 0
  {
    hide FactorRead, ExprRead;
    next, nextId := pos, id;
    FactorCases(tokens, pos, id);
    if pos >= |tokens| { return Err(UnexpectedEnd), next, nextId; }
    if tokens[pos] == Minus {
      r, next, nextId := ParseFactor(tokens, pos + 1, id);
      FactorAfterMinus(tokens, pos, id, r, next, nextId);
      if r.Ok? {
        var negated := NegateAst(r.value);
        r := Ok(negated);
      }
      return;
    }
    if tokens[pos] == LParen {
      r, next, nextId := ParseExpr(tokens, pos + 1, id);
      FactorAfterParen(tokens, pos, id, r, next, nextId);
      if r.Err? { return; }
      if next >= |tokens| || tokens[next] != RParen { return Err(MissingParen), next, nextId; }
      next := next + 1;
      return;
    }
    if tokens[pos].Word? || tokens[pos].Phrase? {
      return Ok(AstTerm(TermData(tokens[pos].val, false, tokens[pos].Phrase?, id))), pos + 1, id + 1;
    }
    return Err(UnexpectedToken), next, nextId;
  }

  lemma FactorCases(tokens: seq<Token>, pos: nat, id: nat)
    requires pos <= |tokens|
    ensures pos == |tokens| ==> forall n, m :: FactorRead(tokens, pos, id, Err(UnexpectedEnd), n, m)
    ensures pos < |tokens| && (tokens[pos].Word? || tokens[pos].Phrase?) ==>
              FactorRead(tokens, pos, id, Ok(AstTerm(TermData(tokens[pos].val, false, tokens[pos].Phrase?, id))), pos + 1, id + 1)
    ensures pos < |tokens| && (tokens[pos].Pipe? || tokens[pos].RParen?) ==>
              forall n, m :: FactorRead(tokens, pos, id, Err(UnexpectedToken), n, m)
  {
    var ts := tokens[pos..];
    if pos < |tokens| {
      assert ts[0] == tokens[pos];
      assert ts[1..] == tokens[pos + 1..];
    }
  }

  lemma FactorAfterMinus(tokens: seq<Token>, pos: nat, id: nat, r: Result<Ast>, next: nat, nextId: nat)
    requires pos < |tokens| && tokens[pos] == Minus && FactorRead(tokens, pos + 1, id, r, next, nextId)
    ensures FactorRead(tokens, pos, id, if r.Ok? then Ok(Negate(r.value)) else r, next, nextId)
  {
    var ts := tokens[pos..];
    assert ts[0] == tokens[pos];
    assert ts[1..] == tokens[pos + 1..];
  }

  lemma FactorAfterParen(tokens: seq<Token>, pos: nat, id: nat, r: Result<Ast>, next: nat, nextId: nat)
    requires pos < |tokens| && tokens[pos] == LParen && ExprRead(tokens, pos + 1, id, r, next, nextId)
    ensures r.Err? ==> FactorRead(tokens, pos, id, r, next, nextId)
    ensures r.Ok? && (next >= |tokens| || tokens[next] != RParen) ==> FactorRead(tokens, pos, id, Err(MissingParen), next, nextId)
    ensures r.Ok? && next < |tokens| && tokens[next] == RParen ==> FactorRead(tokens, pos, id, r, next + 1, nextId)
  {
    hide FormedExpr;
    var ts := tokens[pos..];
    assert ts[0] == tokens[pos];
    assert ts[1..] == tokens[pos + 1..];
    if next < |tokens| {
      assert tokens[next..][0] == tokens[next];
      assert tokens[next..][1..] == tokens[next + 1..];
    }
  }

  /** What parse_term_seq's loop has read so far. */
  ghost predicate SeqSoFar(tokens: seq<Token>, pos: nat, id: nat, done: seq<Factor>, factors: seq<Ast>, next: nat, nextId: nat) {
    && pos <= next <= |tokens|
    && (forall i | 0 <= i < |done| :: Formed(done[i]))
    && factors == AstsOf(done, id) && nextId == id + CountSeq(done)
    && ParseFs(tokens[pos..]) == Prepend(done, ParseFs(tokens[next..]))
  }

  /** parse_term_seq */
  method ParseTermSeq(tokens: seq<Token>, pos: nat, id: nat) returns (r: Result<Ast>, next: nat, nextId: nat)
    requires pos <= |tokens|
    ensures SeqRead(tokens, pos, id, r, next, nextId)
    decreases |tokens| - pos, 1
  {
    hide FactorRead, SeqRead, SeqSoFar;
    next, nextId := pos, id;
    var factors: seq<Ast> := [];
    ghost var done: seq<Factor> := [];
    SeqStarts(tokens, pos, id);
    while next < |tokens| && tokens[next] != Pipe && tokens[next] != RParen
      invariant pos <= next <= |tokens| && SeqSoFar(tokens, pos, id, done, factors, next, nextId)
      decreases |tokens| - next
    {
      var f;
      ghost var at, atId := next, nextId;
      f, next, nextId := ParseFactor(tokens, next, nextId);
      OneFactor(tokens, pos, id, done, factors, at, atId, f, next, nextId);
      if f.Err? { return Err(f.error), next, nextId; }
      done := done + [ParseF(tokens[at..]).value.0];
      factors := factors + [f.value];
    }
    SeqEnds(tokens, pos, id, done, factors, next, nextId);
    if |factors| == 0 { return Err(EmptySequence), next, nextId; }
    if |factors| == 1 { return Ok(factors[0]), next, nextId; }
    return Ok(AstAnd(factors)), next, nextId;
  }

  lemma SeqStarts(tokens: seq<Token>, pos: nat, id: nat)
    requires pos <= |tokens|
    ensures SeqSoFar(tokens, pos, id, [], [], pos, id)
  {
    hide ParseFs;
    PrependNothing(ParseFs(tokens[pos..]));
  }

  lemma SeqEnds(tokens: seq<Token>, pos: nat, id: nat, done: seq<Factor>, factors: seq<Ast>, next: nat, nextId: nat)
    requires SeqSoFar(tokens, pos, id, done, factors, next, nextId)
    requires next == |tokens| || tokens[next] == Pipe || tokens[next] == RParen
    ensures SeqRead(tokens, pos, id, if |factors| == 0 then Err(EmptySequence) else Ok(SeqNode(factors)), next, nextId)
  {
    hide Formed, ParseFs, ParseS, AstsOf, AstOfSeq, CountSeq;
    NoMoreFactors(tokens[next..], done);
    ParseSIs(tokens[pos..]);
    if |done| > 0 { AstOfSeqIs(done, id); }
  }

  function SeqNode(factors: seq<Ast>): Ast
    requires |factors| > 0
  {
    if |factors| == 1 then factors[0] else AstAnd(factors)
  }

  lemma NoMoreFactors(ts: seq<Token>, done: seq<Factor>)
    requires EndsSeq(ts)
    ensures Prepend(done, ParseFs(ts)) == Ok((done, ts))
  {
    assert done + [] == done;
  }

  lemma AstOfSeqIs(fs: seq<Factor>, id: nat)
    requires FormedSeq(fs)
    ensures AstOfSeq(fs, id) == SeqNode(AstsOf(fs, id))
  {
  }

  lemma ParseSIs(ts: seq<Token>)
    ensures match ParseFs(ts)
            case Ok((fs, rest)) => ParseS(ts) == if fs == [] then Err(EmptySequence) else Ok((fs, rest))
            case Err(e) => ParseS(ts) == Err(e)
  {
    hide ParseFs;
  }

  lemma PrependNothing<X>(r: Result<(seq<X>, seq<Token>)>)
    ensures Prepend([], r) == r
  {
    if r.Ok? { assert [] + r.value.0 == r.value.0; }
  }

  lemma PrependTwice<X>(xs: seq<X>, ys: seq<X>, r: Result<(seq<X>, seq<Token>)>)
    ensures Prepend(xs, Prepend(ys, r)) == Prepend(xs + ys, r)
  {
    if r.Ok? { assert xs + (ys + r.value.0) == xs + ys + r.value.0; }
  }

  /** One round of parse_term_seq's loop. */
  lemma OneFactor(tokens: seq<Token>, pos: nat, id: nat, done: seq<Factor>, factors: seq<Ast>, at: nat, atId: nat,
      f: Result<Ast>, next: nat, nextId: nat)
    requires SeqSoFar(tokens, pos, id, done, factors, at, atId)
    requires at < |tokens| && tokens[at] != Pipe && tokens[at] != RParen
    requires FactorRead(tokens, at, atId, f, next, nextId)
    ensures f.Err? ==> forall n, m :: SeqRead(tokens, pos, id, Err(f.error), n, m)
    ensures f.Ok? ==>
              && ParseF(tokens[at..]).Ok? && at < next <= |tokens|
              && SeqSoFar(tokens, pos, id, done + [ParseF(tokens[at..]).value.0], factors + [f.value], next, nextId)
  {
    hide ParseF, ParseFs, Formed, AstOf, AstsOf, CountSeq;
    var ts := tokens[at..];
    assert !EndsSeq(ts);
    ParseFsStep(ts);
    ParseSIs(tokens[pos..]);
    if f.Ok? {
      var (g, rest) := ParseF(ts).value;
      PrependTwice(done, [g], ParseFs(rest));
      AppendFactor(done, g, id);
    }
  }

  lemma AppendFactor(done: seq<Factor>, g: Factor, id: nat)
    requires forall i | 0 <= i < |done + [g]| :: Formed((done + [g])[i])
    ensures (forall i | 0 <= i < |done| :: Formed(done[i])) && Formed(g)
    ensures AstsOf(done + [g], id) == AstsOf(done, id) + [AstOf(g, id + CountSeq(done))]
    ensures CountSeq(done + [g]) == CountSeq(done) + Count(g)
  {
    var more := done + [g];
    assert more[..|more| - 1] == done && more[|more| - 1] == g;
    assert forall i | 0 <= i < |done| :: done[i] == more[i];
  }

  /** What parse_expr's loop has read so far. */
  ghost predicate ExprSoFar(tokens: seq<Token>, pos: nat, id: nat, done: seq<Seq>, seqs: seq<Ast>, next: nat, nextId: nat) {
    && pos <= next <= |tokens| && |done| > 0
    && (forall i | 0 <= i < |done| :: FormedSeq(done[i].factors))
    && seqs == AstsOfExpr(done, id) && nextId == id + CountExpr(done)
    && ParseE(tokens[pos..]) == AfterSeq(done, tokens[next..])
  }

  /** parse_expr */
  method ParseExpr(tokens: seq<Token>, pos: nat, id: nat) returns (r: Result<Ast>, next: nat, nextId: nat)
    requires pos <= |tokens|
    ensures ExprRead(tokens, pos, id, r, next, nextId)
    decreases |tokens| - pos, 2
  {
    hide SeqRead, ExprRead, ExprSoFar, ParseS;
    r, next, nextId := ParseTermSeq(tokens, pos, id);
    FirstSeq(tokens, pos, id, r, next, nextId);
    if r.Err? { return; }
    var seqs := [r.value];
    ghost var done := [Seq(ParseS(tokens[pos..]).value.0)];
    while next < |tokens| && tokens[next] == Pipe
      invariant pos <= next <= |tokens| && ExprSoFar(tokens, pos, id, done, seqs, next, nextId)
      decreases |tokens| - next
    {
      ghost var at, atId := next + 1, nextId;
      r, next, nextId := ParseTermSeq(tokens, next + 1, nextId);
      OneSeq(tokens, pos, id, done, seqs, at, atId, r, next, nextId);
      if r.Err? { return; }
      done := done + [Seq(ParseS(tokens[at..]).value.0)];
      seqs := seqs + [r.value];
    }
    ExprEnds(tokens, pos, id, done, seqs, next, nextId);
    if |seqs| == 1 { return Ok(seqs[0]), next, nextId; }
    return Ok(AstOr(seqs)), next, nextId;
  }

  lemma ExprEnds(tokens: seq<Token>, pos: nat, id: nat, done: seq<Seq>, seqs: seq<Ast>, next: nat, nextId: nat)
    requires ExprSoFar(tokens, pos, id, done, seqs, next, nextId)
    requires next == |tokens| || tokens[next] != Pipe
    ensures ExprRead(tokens, pos, id, if |seqs| == 1 then Ok(seqs[0]) else Ok(AstOr(seqs)), next, nextId)
  {
    hide FormedSeq, ParseE;
  }

  /** What parse_expr answers once `done` has been read and `rest` is left. */
  function AfterSeq(done: seq<Seq>, rest: seq<Token>): Result<(seq<Seq>, seq<Token>)> {
    if rest != [] && rest[0] == Pipe then Prepend(done, ParseE(rest[1..])) else Ok((done, rest))
  }

  lemma FirstSeq(tokens: seq<Token>, pos: nat, id: nat, r: Result<Ast>, next: nat, nextId: nat)
    requires pos <= |tokens| && SeqRead(tokens, pos, id, r, next, nextId)
    ensures r.Err? ==> ExprRead(tokens, pos, id, r, next, nextId)
    ensures r.Ok? ==>
              && ParseS(tokens[pos..]).Ok? && pos <= next <= |tokens|
              && ExprSoFar(tokens, pos, id, [Seq(ParseS(tokens[pos..]).value.0)], [r.value], next, nextId)
  {
    hide ParseS, ParseE, FormedSeq, AstOfSeq, CountSeq;
    ParseEIs(tokens[pos..]);
    if r.Ok? { OnlySeq(ParseS(tokens[pos..]).value.0, id); }
  }

  lemma ParseEIs(ts: seq<Token>)
    ensures match ParseS(ts)
            case Ok((fs, rest)) => ParseE(ts) == AfterSeq([Seq(fs)], rest)
            case Err(e) => ParseE(ts) == Err(e)
  {
    hide ParseS;
  }

  lemma OnlySeq(fs: seq<Factor>, id: nat)
    requires FormedSeq(fs)
    ensures AstsOfExpr([Seq(fs)], id) == [AstOfSeq(fs, id)] && CountExpr([Seq(fs)]) == CountSeq(fs)
  {
    assert [Seq(fs)][..0] == [];
  }

  /** One round of parse_expr's loop. */
  lemma OneSeq(tokens: seq<Token>, pos: nat, id: nat, done: seq<Seq>, seqs: seq<Ast>, at: nat, atId: nat,
      r: Result<Ast>, next: nat, nextId: nat)
    requires 0 < at <= |tokens| && tokens[at - 1] == Pipe && ExprSoFar(tokens, pos, id, done, seqs, at - 1, atId)
    requires SeqRead(tokens, at, atId, r, next, nextId)
    ensures r.Err? ==> ExprRead(tokens, pos, id, r, next, nextId)
    ensures r.Ok? ==>
              && ParseS(tokens[at..]).Ok? && at <= next <= |tokens|
              && ExprSoFar(tokens, pos, id, done + [Seq(ParseS(tokens[at..]).value.0)], seqs + [r.value], next, nextId)
  {
    hide ParseS, FormedSeq, AstOfSeq, CountSeq, ParseE, AstsOfExpr, CountExpr, AfterSeq, FormedExpr, AstOfExpr;
    AfterPipe(done, tokens, at);
    if r.Ok? {
      AppendSeq(done, Seq(ParseS(tokens[at..]).value.0), id);
    }
  }

  /** What is left to do once a '|' has been passed. */
  lemma AfterPipe(done: seq<Seq>, tokens: seq<Token>, at: nat)
    requires 0 < at <= |tokens| && tokens[at - 1] == Pipe
    ensures match ParseS(tokens[at..])
            case Ok((fs, rest)) => AfterSeq(done, tokens[at - 1..]) == AfterSeq(done + [Seq(fs)], rest)
            case Err(e) => AfterSeq(done, tokens[at - 1..]) == Err(e)
  {
    hide ParseS, ParseE;
    var ts := tokens[at..];
    assert tokens[at - 1..][1..] == ts;
    ParseEIs(ts);
    if ParseS(ts).Ok? {
      var (fs, rest) := ParseS(ts).value;
      if rest != [] && rest[0] == Pipe { PrependTwice(done, [Seq(fs)], ParseE(rest[1..])); }
    }
  }

  lemma AppendSeq(done: seq<Seq>, s: Seq, id: nat)
    requires forall i | 0 <= i < |done + [s]| :: FormedSeq((done + [s])[i].factors)
    ensures (forall i | 0 <= i < |done| :: FormedSeq(done[i].factors)) && FormedSeq(s.factors)
    ensures AstsOfExpr(done + [s], id) == AstsOfExpr(done, id) + [AstOfSeq(s.factors, id + CountExpr(done))]
    ensures CountExpr(done + [s]) == CountExpr(done) + CountSeq(s.factors)
  {
    hide FormedSeq, AstOfSeq, CountSeq;
    var more := done + [s];
    assert more[..|more| - 1] == done && more[|more| - 1] == s;
    assert forall i | 0 <= i < |done| :: done[i] == more[i];
  }

  // ---------------------------------------------------------------- whole queries

  /** `ss` is a tree of the grammar that spells exactly these tokens. */
  ghost predicate Spells(ss: seq<Seq>, tokens: seq<Token>) {
    FormedExpr(ss) && YieldExpr(ss) == tokens
  }

  /** The recursive descent accepts exactly the grammar, and the grammar is unambiguous. */
  lemma AcceptsExactly(tokens: seq<Token>)
    ensures (ParseE(tokens).Ok? && ParseE(tokens).value.1 == []) <==> exists ss :: Spells(ss, tokens)
    ensures forall ss | Spells(ss, tokens) :: ParseE(tokens) == Ok((ss, []))
  {
    hide ParseE, YieldExpr, FormedExpr;
    if ParseE(tokens).Ok? && ParseE(tokens).value.1 == [] {
      SoundE(tokens);
      var ss := ParseE(tokens).value.0;
      assert YieldExpr(ss) + [] == YieldExpr(ss);
      assert Spells(ss, tokens);
    }
    forall ss | Spells(ss, tokens) ensures ParseE(tokens) == Ok((ss, [])) {
      CompleteE(ss, []);
      assert YieldExpr(ss) + [] == YieldExpr(ss);
    }
  }

  /** parse_query_ast on the tokens of a query. */
  method ParseAst(tokens: seq<Token>) returns (r: Result<Ast>)
    ensures tokens == [] ==> r == Err(EmptyQuery)
    ensures r.Ok? <==> exists ss :: Spells(ss, tokens)
    ensures forall ss | Spells(ss, tokens) :: r == Ok(AstOfExpr(ss, 0))
  {
    hide ParseE, YieldExpr, FormedExpr, Spells, AstOfExpr;
    AcceptsExactly(tokens);
    SpellsSomething();
    if |tokens| == 0 { return Err(EmptyQuery); }
    var ast, next, nextId := ParseExpr(tokens, 0, 0);
    assert tokens[0..] == tokens;
    if ast.Err? { return ast; }
    if next < |tokens| { return Err(TrailingTokens); }
    return ast;
  }

  lemma SpellsSomething()
    ensures !exists ss :: Spells(ss, [])
  {
    hide YieldExpr, FormedExpr;
    EmptyFails();
    AcceptsExactly([]);
  }

  lemma EmptyFails()
    ensures ParseE([]).Err?
  {
  }

  /** What a parsed query means: what its grammar means, with every operator proper. */
  lemma ParsedMeaning(tokens: seq<Token>, ss: seq<Seq>, found: Found)
    requires Spells(ss, tokens)
    ensures True(AstOfExpr(ss, 0), found) <==> MeansExpr(ss, found)
    ensures Proper(AstOfExpr(ss, 0))
  {
    hide YieldExpr;
    AstExprMeaning(ss, 0, found);
  }
}
