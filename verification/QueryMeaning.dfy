/**
  What a query means, given which terms a document has (query/expressions.h), and
  negate_ast.
*/
module QueryMeaning {
  import opened Bytes
  import opened QueryAst

  /** A word or a phrase, whatever its sign. */
  datatype Term = Term(val: Text, isPhrase: bool)

  function TermOf(t: TermData): Term {
    Term(t.val, t.isPhrase)
  }

  /** Which terms a document has. */
  type Found = Term -> bool

  predicate Sat(t: TermData, found: Found) {
    found(TermOf(t)) != t.negated
  }

  /** The meaning of a tree: AND, OR, and negated leaves. */
  predicate True(a: Ast, found: Found) {
    match a
    case AstTerm(t) => Sat(t, found)
    case AstAnd(cs) => forall i | 0 <= i < |cs| :: True(cs[i], found)
    case AstOr(cs) => exists i | 0 <= i < |cs| :: True(cs[i], found)
  }

  /** Every operator has at least two children. */
  predicate Proper(a: Ast) {
    match a
    case AstTerm(_) => true
    case AstAnd(cs) => |cs| >= 2 && forall i | 0 <= i < |cs| :: Proper(cs[i])
    case AstOr(cs) => |cs| >= 2 && forall i | 0 <= i < |cs| :: Proper(cs[i])
  }

  /** negate_ast: swap AND and OR, and flip the leaves. */
  function Negate(a: Ast): Ast {
    match a
    case AstTerm(t) => AstTerm(t.(negated := !t.negated))
    case AstAnd(cs) => AstOr(NegateAll(cs))
    case AstOr(cs) => AstAnd(NegateAll(cs))
  }

  function NegateAll(cs: seq<Ast>): (r: seq<Ast>)
    ensures |r| == |cs| && forall i | 0 <= i < |r| :: r[i] == Negate(cs[i])
  {
    seq(|cs|, i requires 0 <= i < |cs| => Negate(cs[i]))
  }

  /** negate_ast as it runs: the children are negated one after the other. */
  method NegateAst(a: Ast) returns (r: Ast)
    ensures r == Negate(a)
  {
    match a
    case AstTerm(t) =>
      r := AstTerm(t.(negated := !t.negated));
    case AstAnd(cs) =>
      var kids := NegateChildren(cs);
      r := AstOr(kids);
    case AstOr(cs) =>
      var kids := NegateChildren(cs);
      r := AstAnd(kids);
  }

  method NegateChildren(cs: seq<Ast>) returns (kids: seq<Ast>)
    ensures kids == NegateAll(cs)
  {
    kids := cs;
    for i := 0 to |cs|
      invariant |kids| == |cs|
      invariant forall j | 0 <= j < |cs| :: kids[j] == if j < i then Negate(cs[j]) else cs[j]
    {
      var c := NegateAst(kids[i]);
      kids := kids[i := c];
    }
  }

  /** negate_ast complements the meaning. */
  lemma {:induction false} NegateComplements(a: Ast, found: Found)
    ensures True(Negate(a), found) <==> !True(a, found)
  {
    match a
    case AstTerm(_) =>
    case AstAnd(cs) => forall i | 0 <= i < |cs| { NegateComplements(cs[i], found); }
    case AstOr(cs) => forall i | 0 <= i < |cs| { NegateComplements(cs[i], found); }
  }

  /** negate_ast is its own inverse. */
  lemma {:induction false} NegateTwice(a: Ast)
    ensures Negate(Negate(a)) == a
  {
    match a
    case AstTerm(_) =>
    case AstAnd(cs) =>
      forall i | 0 <= i < |cs| { NegateTwice(cs[i]); }
      assert NegateAll(NegateAll(cs)) == cs;
    case AstOr(cs) =>
      forall i | 0 <= i < |cs| { NegateTwice(cs[i]); }
      assert NegateAll(NegateAll(cs)) == cs;
  }

  lemma {:induction false} NegateProper(a: Ast)
    ensures Proper(Negate(a)) <==> Proper(a)
  {
    match a
    case AstTerm(_) =>
    case AstAnd(cs) => forall i | 0 <= i < |cs| { NegateProper(cs[i]); }
    case AstOr(cs) => forall i | 0 <= i < |cs| { NegateProper(cs[i]); }
  }
}
