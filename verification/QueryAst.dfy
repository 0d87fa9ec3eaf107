/**
  The syntax tree of a query (TermData, ASTNode of query/expressions.h).
  Minus signs live on the leaves only.
*/
module QueryAst {
  import opened Bytes

  datatype TermData = TermData(val: Text, negated: bool, isPhrase: bool, id: nat)

  datatype Ast =
    | AstTerm(term: TermData)
    | AstAnd(children: seq<Ast>)
    | AstOr(children: seq<Ast>)

  /** is_driveable, read off the tree: a positive leaf, an AND with a driveable child, an OR of driveable children. */
  predicate Driveable(a: Ast) {
    match a
    case AstTerm(t) => !t.negated
    case AstAnd(cs) => exists i | 0 <= i < |cs| :: Driveable(cs[i])
    case AstOr(cs) => |cs| > 0 && forall i | 0 <= i < |cs| :: Driveable(cs[i])
  }

  predicate NegationFree(a: Ast) {
    match a
    case AstTerm(t) => !t.negated
    case AstAnd(cs) => forall i | 0 <= i < |cs| :: NegationFree(cs[i])
    case AstOr(cs) => forall i | 0 <= i < |cs| :: NegationFree(cs[i])
  }
}
