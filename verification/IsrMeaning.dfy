/** The plain meaning of an executor tree: set semantics over the posting lists of its leaves. */
module IsrMeaning {
  import opened Postings
  import PhraseWalk
  import opened IsrTree

  /** Word i stands at pos + i in document doc. */
  ghost predicate PhraseAt(words: seq<seq<Post>>, doc: nat, pos: nat) {
    |words| > 0 && forall i | 0 <= i < |words| :: Post(doc, pos + i) in words[i]
  }

  ghost predicate PhraseIn(words: seq<seq<Post>>, doc: nat) {
    exists pos: nat :: PhraseAt(words, doc, pos)
  }

  /** Plain AND / OR / NOT / phrase semantics of a built query. */
  ghost predicate Matches(p: Plan, doc: nat) {
    match p
    case PLeaf(negated, words) => PhraseIn(words, doc) != negated
    case PAnd(parts, _) => forall i | 0 <= i < |parts| :: Matches(parts[i], doc)
    case POr(parts) => exists i | 0 <= i < |parts| :: Matches(parts[i], doc)
  }

  /** No leaf below is negated. */
  predicate NegationFree(p: Plan) {
    match p
    case PLeaf(negated, _) => !negated
    case PAnd(parts, _) => forall i | 0 <= i < |parts| :: NegationFree(parts[i])
    case POr(parts) => forall i | 0 <= i < |parts| :: NegationFree(parts[i])
  }

  lemma LeafMeaning(ss: PhraseWalk.Streams, doc: nat)
    ensures PhraseIn(Words(ss), doc) <==> PhraseWalk.Found(ss, doc)
  {
    forall pos: nat ensures PhraseAt(Words(ss), doc, pos) <==> PhraseWalk.HitAt(ss, doc, pos) {
    }
  }

  // ---------------------------------------------------------------- the next match

  ghost predicate NoneBetween(p: Plan, after: nat, before: nat) {
    forall d | after < d < before :: !Matches(p, d)
  }

  ghost predicate NoneAfter(p: Plan, after: nat) {
    forall d | after < d :: !Matches(p, d)
  }

  /** r is the least match after `cur`; 0 says there is none. */
  ghost predicate NextIs(p: Plan, cur: nat, r: nat) {
    if r == 0 then NoneAfter(p, cur) else cur < r && Matches(p, r) && NoneBetween(p, cur, r)
  }
}
