/**
  The walk of chunk_manager::phrase_query (index_chunk/chunk_manager.h): every document
  with the phrase, once each, with the first place the phrase stands there.
*/
module PhraseRun {
  import opened Postings
  import opened PhraseWalk

  /** The loop, from an anchor of stream 0. */
  function Run(ss: Streams, ground: Post): (hits: seq<Post>)
    requires ValidStreams(ss) && |ss| > 0
    decreases ss[0].Remaining()
  {
    if ground.doc == 0 then []
    else
      var (tt, p, ok) := Step(ss, ground);
      (if ok then [ground] else []) + if p.doc == 0 then [] else Run(tt, p)
  }

  /** One round: a hit jumps to the next document, a miss takes one step. */
  function Step(ss: Streams, ground: Post): (r: (Streams, Post, bool))
    requires ValidStreams(ss) && |ss| > 0
    ensures ValidStreams(r.0) && SameWords(ss, r.0)
    ensures r.0[0].Remaining() + (if r.1.doc != 0 then 1 else 0) <= ss[0].Remaining()
  {
    var (tt, ok) := CheckAdjacency(ss, ground, 1);
    var (c, p) := Onward(tt[0], ok);
    (tt[0 := c], p, ok)
  }

  /** The next anchor. */
  function Onward(c: Cursor, hit: bool): (r: (Cursor, Post))
    requires c.Valid() && !c.pending
    ensures r.0.Valid() && !r.0.pending && r.0.posts == c.posts && r.0.nDocs == c.nDocs
    ensures r.0.Remaining() + (if r.1.doc != 0 then 1 else 0) <= c.Remaining()
  {
    if hit then AdvanceToNextDoc(c) else Advance(c)
  }

  /** How many hits the first n rounds find. */
  function HitsIn(ss: Streams, ground: Post, n: nat): nat
    requires ValidStreams(ss) && |ss| > 0
    decreases n
  {
    if n == 0 || ground.doc == 0 then 0
    else
      var (tt, p, ok) := Step(ss, ground);
      (if ok then 1 else 0) + HitsIn(tt, p, n - 1)
  }

  /** The anchor is where stream 0 stands, and no hit from there on has been passed. */
  ghost predicate Anchored(ss: Streams, ground: Post) {
    && ValidStreams(ss) && |ss| > 0
    && 0 < ground.doc && ground == ss[0].Here()
    && Ready(ss, ground)
  }

  /** From the anchor on, `hits` has every document with the phrase, with its first place. */
  ghost predicate FindsFrom(ss: Streams, ground: Post, hits: seq<Post>) {
    && (forall i, j | 0 <= i < j < |hits| :: hits[i].doc < hits[j].doc)
    && (forall h | h in hits ::
          AtOrBefore(ground, h) && HitAt(ss, h.doc, h.loc)
          && forall pos: nat | pos < h.loc && AtOrBefore(ground, Post(h.doc, pos)) :: !HitAt(ss, h.doc, pos))
    && (forall doc: nat, pos: nat | HitAt(ss, doc, pos) && AtOrBefore(ground, Post(doc, pos)) ::
          exists h :: h in hits && h.doc == doc)
  }

  lemma {:induction false} RunExact(ss: Streams, ground: Post)
    requires Anchored(ss, ground)
    ensures FindsFrom(ss, ground, Run(ss, ground))
    decreases ss[0].Remaining()
  {
    hide Step, Ready, HitAt, FindsFrom;
    var (tt, p, ok) := Step(ss, ground);
    StepAnchored(ss, ground);
    if p.doc != 0 {
      RunExact(tt, p);
      OneMore(ss, tt, ground, p, ok, Run(tt, p));
    } else {
      Last(ss, ground, ok);
      assert Run(ss, ground) == if ok then [ground] else [];
    }
  }

  /** Whether the anchor is a hit, and what the next anchor leaves ahead. */
  lemma StepAnchored(ss: Streams, ground: Post)
    requires Anchored(ss, ground)
    ensures var (tt, p, ok) := Step(ss, ground);
            && (ok <==> HitAt(ss, ground.doc, ground.loc))
            && (forall doc: nat, pos: nat | HitAt(ss, doc, pos) && Beyond(ground, ok, Post(doc, pos)) ::
                  p.doc != 0 && AtOrBefore(p, Post(doc, pos)))
            && (p.doc != 0 ==> Beyond(ground, ok, p) && Anchored(tt, p))
  {
    hide Step, Ready, ValidStreams, HitAt, AllUnpassed;
    StepAnswer(ss, ground);
    StepMoves(ss, ground);
    var (tt, p, ok) := Step(ss, ground);
    forall doc: nat, pos: nat | HitAt(ss, doc, pos) && Beyond(ground, ok, Post(doc, pos))
      ensures p.doc != 0 && AtOrBefore(p, Post(doc, pos)) && AllUnpassed(tt, doc, pos)
    {
      StepKeeps(ss, ground, doc, pos);
    }
    if p.doc != 0 { ReadyAfter(ss, tt, ground, ok, p); }
  }

  /** What still counts after the anchor: a later document after a hit, any later post after a miss. */
  predicate Beyond(ground: Post, hit: bool, q: Post) {
    if hit then ground.doc < q.doc else Before(ground, q)
  }

  lemma StepAnswer(ss: Streams, ground: Post)
    requires Anchored(ss, ground)
    ensures Step(ss, ground).2 <==> HitAt(ss, ground.doc, ground.loc)
  {
    hide CheckAdjacency, Ascending, HitAt, AllUnpassed, Onward;
    assert Post(ground.doc, ground.loc + 0) in ss[0].posts by { HereIsReal(ss[0]); }
    if CheckAdjacency(ss, ground, 1).1 { AdjacencySound(ss, ground, 1); }
    if HitAt(ss, ground.doc, ground.loc) { AdjacencyComplete(ss, ground, 1); }
  }

  lemma StepMoves(ss: Streams, ground: Post)
    requires Anchored(ss, ground)
    ensures var (tt, p, ok) := Step(ss, ground); p.doc != 0 ==> p == tt[0].Here() && Beyond(ground, ok, p)
  {
    hide CheckAdjacency, Ascending, Walk, Ready;
    var (uu, ok) := CheckAdjacency(ss, ground, 1);
    if !ok { AdvanceIsLater(uu[0]); }
  }

  lemma StepKeeps(ss: Streams, ground: Post, doc: nat, pos: nat)
    requires Anchored(ss, ground) && HitAt(ss, doc, pos)
    requires Beyond(ground, Step(ss, ground).2, Post(doc, pos))
    ensures var (tt, p, ok) := Step(ss, ground);
            p.doc != 0 && AtOrBefore(p, Post(doc, pos)) && AllUnpassed(tt, doc, pos)
  {
    hide CheckAdjacency, Ascending, Walk, AdvanceTo;
    var (uu, ok) := CheckAdjacency(ss, ground, 1);
    var (c, p) := Onward(uu[0], ok);
    AdjacencyKeeps(ss, ground, 1, doc, pos);
    assert Post(doc, pos + 0) in uu[0].posts && Unpassed(uu[0], Post(doc, pos + 0));
    OnwardKeeps(uu[0], ok, ground, Post(doc, pos));
    SameWordsSameHits(ss, uu, doc, pos);
    Replace(uu, 0, c, doc, pos);
  }

  lemma OnwardKeeps(c: Cursor, hit: bool, ground: Post, q: Post)
    requires c.Valid() && !c.pending && c.Here() == ground && 0 < ground.doc
    requires q in c.posts && Unpassed(c, q) && Beyond(ground, hit, q)
    ensures var (c', p) := Onward(c, hit); Unpassed(c', q) && p.doc != 0 && AtOrBefore(p, q)
  {
    hide Walk;
    if hit { AdvanceToKeeps(c, ground.doc + 1, q); } else { AdvanceKeeps(c, q); }
    OnwardHere(c, hit, ground, q);
  }

  lemma OnwardHere(c: Cursor, hit: bool, ground: Post, q: Post)
    requires c.Valid() && !c.pending && c.Here() == ground && 0 < ground.doc
    requires Unpassed(Onward(c, hit).0, q) && Onward(c, hit).1 != NO_POST
    ensures var (c', p) := Onward(c, hit); p.doc != 0 && AtOrBefore(p, q)
  {
    hide Walk;
    if !hit { AdvanceIsLater(c); }
  }

  lemma ReadyAfter(ss: Streams, uu: Streams, ground: Post, hit: bool, p: Post)
    requires SameWords(ss, uu) && ValidStreams(uu) && Beyond(ground, hit, p)
    requires forall doc: nat, pos: nat | HitAt(ss, doc, pos) && Beyond(ground, hit, Post(doc, pos)) :: AllUnpassed(uu, doc, pos)
    ensures Ready(uu, p)
  {
    hide AllUnpassed;
    forall doc: nat, pos: nat | HitAt(uu, doc, pos) && AtOrBefore(p, Post(doc, pos)) ensures AllUnpassed(uu, doc, pos) {
      SameWordsSameHits(ss, uu, doc, pos);
    }
  }

  lemma InEither(ground: Post, hit: bool, rest: seq<Post>)
    ensures forall h :: h in (if hit then [ground] else []) + rest <==> h in rest || (hit && h == ground)
  {
  }

  /** Putting the anchor's answer in front of the rest of the run. */
  lemma OneMore(ss: Streams, uu: Streams, ground: Post, p: Post, hit: bool, rest: seq<Post>)
    requires SameWords(ss, uu) && (hit <==> HitAt(ss, ground.doc, ground.loc)) && Beyond(ground, hit, p)
    requires forall doc: nat, pos: nat | HitAt(ss, doc, pos) && Beyond(ground, hit, Post(doc, pos)) :: AtOrBefore(p, Post(doc, pos))
    requires FindsFrom(uu, p, rest)
    ensures FindsFrom(ss, ground, (if hit then [ground] else []) + rest)
  {
    hide HitAt, SameWords;
    var all := (if hit then [ground] else []) + rest;
    forall doc: nat, pos: nat ensures HitAt(uu, doc, pos) <==> HitAt(ss, doc, pos) {
      SameWordsSameHits(ss, uu, doc, pos);
    }
    InEither(ground, hit, rest);
    forall h | h in rest ensures Beyond(ground, hit, h) { assert AtOrBefore(p, h); }
    forall doc: nat, pos: nat | HitAt(ss, doc, pos) && AtOrBefore(ground, Post(doc, pos))
      ensures exists h :: h in all && h.doc == doc
    {
      if Beyond(ground, hit, Post(doc, pos)) {
        var h :| h in rest && h.doc == doc;
        assert h in all;
      } else {
        assert hit ==> ground in all;
      }
    }
    Ordered(ground, hit, rest);
  }

  lemma Ordered(ground: Post, hit: bool, rest: seq<Post>)
    requires forall i, j | 0 <= i < j < |rest| :: rest[i].doc < rest[j].doc
    requires hit ==> forall h | h in rest :: ground.doc < h.doc
    ensures var all := (if hit then [ground] else []) + rest; forall i, j | 0 <= i < j < |all| :: all[i].doc < all[j].doc
  {
  }

  lemma Last(ss: Streams, ground: Post, hit: bool)
    requires hit <==> HitAt(ss, ground.doc, ground.loc)
    requires forall doc: nat, pos: nat | HitAt(ss, doc, pos) :: !Beyond(ground, hit, Post(doc, pos))
    ensures FindsFrom(ss, ground, if hit then [ground] else [])
  {
    hide HitAt;
  }

  /**
    Each round finds at most one place and passes at least one post of the first word, so
    what n rounds leave does not lie among the next n posts.
  */
  lemma {:induction false} WithinRounds(ss: Streams, ground: Post, n: nat)
    requires Anchored(ss, ground)
    ensures var hits, m := Run(ss, ground), HitsIn(ss, ground, n);
            && m <= n && m <= |hits|
            && forall k, j | m <= k < |hits| && 0 <= j < |ss[0].posts| && j < ss[0].taken - 1 + n :: hits[k] != ss[0].posts[j]
    decreases n
  {
    hide Step, Ready, HitAt, FindsFrom, HitsIn, Run;
    RunStep(ss, ground, n);
    if n == 0 {
      AheadIsLater(ss, ground);
      assert forall k | 0 <= k < |Run(ss, ground)| :: Run(ss, ground)[k] in Run(ss, ground);
    } else {
      var (tt, p, ok) := Step(ss, ground);
      StepAnchored(ss, ground);
      if p.doc != 0 {
        StepPasses(ss, ground);
        WithinRounds(tt, p, n - 1);
      } else {
        RunStep(tt, p, n - 1);
      }
    }
  }

  lemma RunStep(ss: Streams, ground: Post, n: nat)
    requires ValidStreams(ss) && |ss| > 0
    ensures ground.doc == 0 || n == 0 ==> HitsIn(ss, ground, n) == 0
    ensures ground.doc != 0 ==>
              var (tt, p, ok) := Step(ss, ground);
              && Run(ss, ground) == (if ok then [ground] else []) + (if p.doc == 0 then [] else Run(tt, p))
              && (n > 0 ==> HitsIn(ss, ground, n) == (if ok then 1 else 0) + HitsIn(tt, p, n - 1))
  {
    hide Step;
  }

  lemma AheadIsLater(ss: Streams, ground: Post)
    requires Anchored(ss, ground)
    ensures forall h, j | h in Run(ss, ground) && 0 <= j < |ss[0].posts| && j < ss[0].taken - 1 :: h != ss[0].posts[j]
  {
    hide Step, Ready, HitAt, Run;
    RunExact(ss, ground);
    forall h, j | h in Run(ss, ground) && 0 <= j < |ss[0].posts| && j < ss[0].taken - 1 ensures h != ss[0].posts[j] {
      assert Before(ss[0].posts[j], ground) && AtOrBefore(ground, h);
    }
  }

  lemma StepPasses(ss: Streams, ground: Post)
    requires Anchored(ss, ground) && Step(ss, ground).1.doc != 0
    ensures Step(ss, ground).0[0].posts == ss[0].posts && Step(ss, ground).0[0].taken > ss[0].taken
  {
    hide Ready, HitAt, Walk, CheckAdjacency;
  }
}
