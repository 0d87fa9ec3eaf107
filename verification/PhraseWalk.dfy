/**
  The leaf of a query tree: one or more word streams that must line up
  (TermISR and PhraseISR of index_chunk/query_isr.h).
*/
module PhraseWalk {
  import opened Postings

  type Streams = seq<Cursor>

  ghost predicate ValidStreams(ss: Streams) {
    forall i | 0 <= i < |ss| :: ss[i].Valid() && !ss[i].pending
  }

  /** The phrase starts at (doc, pos): word i stands at pos + i. */
  ghost predicate HitAt(ss: Streams, doc: nat, pos: nat) {
    && |ss| > 0
    && forall i | 0 <= i < |ss| :: Post(doc, pos + i) in ss[i].posts
  }

  /** Plain meaning of a leaf. */
  ghost predicate Found(ss: Streams, doc: nat) {
    exists pos: nat :: HitAt(ss, doc, pos)
  }

  /** No stream has gone past what any hit at or after `from` needs. */
  ghost predicate Ready(ss: Streams, from: Post)
    requires ValidStreams(ss)
  {
    forall doc: nat, pos: nat | HitAt(ss, doc, pos) && AtOrBefore(from, Post(doc, pos)) ::
      AllUnpassed(ss, doc, pos)
  }

  ghost predicate AllUnpassed(ss: Streams, doc: nat, pos: nat)
    requires ValidStreams(ss)
  {
    forall i | 0 <= i < |ss| :: Unpassed(ss[i], Post(doc, pos + i))
  }

  /** `tt` is `ss` with some cursors moved: same words, same posts. */
  ghost predicate SameWords(ss: Streams, tt: Streams) {
    |ss| == |tt| && forall i | 0 <= i < |ss| :: ss[i].posts == tt[i].posts && ss[i].nDocs == tt[i].nDocs
  }

  // ---------------------------------------------------------------- code

  /** The inner loop of check_adjacency: step until loc catches up with `want`. */
  function CatchUp(c: Cursor, p: Post, doc: nat, want: nat): (r: (Cursor, Post))
    requires c.Valid() && !c.pending
    ensures r.0.Valid() && !r.0.pending && r.0.posts == c.posts && r.0.nDocs == c.nDocs
    ensures c.taken <= r.0.taken
    decreases c.Remaining()
  {
    if p.doc == doc && p.loc < want then
      var (c', p') := Advance(c);
      if p'.doc == 0 then (c', NO_POST) else CatchUp(c', p', doc, want)
    else (c, p)
  }

  /** The body of check_adjacency's loop: does this stream have a post at (ground.doc, want)? */
  function CheckStream(c: Cursor, ground: Post, want: nat): (r: (Cursor, bool))
    requires c.Valid()
    ensures r.0.Valid() && !r.0.pending && r.0.posts == c.posts && r.0.nDocs == c.nDocs
    ensures c.taken <= r.0.taken
  {
    var (c1, p1) := AdvanceTo(c, ground.doc);
    if p1.doc != ground.doc then (c1, false)
    else
      var (c2, p2) := CatchUp(c1, p1, ground.doc, want);
      (c2, p2.doc == ground.doc && p2.loc == want)
  }

  /** check_adjacency from stream i on; ground is where stream 0 stands. */
  function CheckAdjacency(ss: Streams, ground: Post, i: nat): (r: (Streams, bool))
    requires ValidStreams(ss) && 1 <= i <= |ss|
    ensures ValidStreams(r.0) && SameWords(ss, r.0)
    ensures forall j | 0 <= j < i :: r.0[j] == ss[j]
    ensures forall j | 0 <= j < |ss| :: ss[j].taken <= r.0[j].taken
    decreases |ss| - i
  {
    if i == |ss| then (ss, true)
    else
      var (c, ok) := CheckStream(ss[i], ground, ground.loc + i);
      if ok then CheckAdjacency(ss[i := c], ground, i + 1) else (ss[i := c], false)
  }

  /** The loop of PhraseISR::next_doc. */
  function NextHit(ss: Streams, ground: Post): (r: (Streams, nat))
    requires ValidStreams(ss) && |ss| > 0
    ensures ValidStreams(r.0) && SameWords(ss, r.0)
    ensures ss[0].taken <= r.0[0].taken
    ensures forall j | 0 <= j < |ss| :: ss[j].taken <= r.0[j].taken
    decreases ss[0].Remaining()
  {
    if ground.doc == 0 then (ss, 0)
    else if |ss| == 1 then (ss, ground.doc)
    else
      var (tt, ok) := CheckAdjacency(ss, ground, 1);
      if ok then (tt, ground.doc)
      else
        var (c, p) := Advance(tt[0]);
        if p.doc == 0 then (tt[0 := c], 0) else NextHit(tt[0 := c], p)
  }

  /** PhraseISR::next_doc, and TermISR::next_doc when there is one stream. */
  function NextDoc(ss: Streams): (r: (Streams, nat))
    requires ValidStreams(ss)
    ensures ValidStreams(r.0) && SameWords(ss, r.0)
    ensures forall j | 0 <= j < |ss| :: ss[j].taken <= r.0[j].taken
  {
    if |ss| == 0 then (ss, 0)
    else
      var (c, p) := AdvanceToNextDoc(ss[0]);
      NextHit(ss[0 := c], p)
  }

  /** The loop of PhraseISR::probe. */
  function ScanDoc(ss: Streams, ground: Post, doc: nat): (r: (Streams, bool))
    requires ValidStreams(ss) && |ss| > 0
    ensures ValidStreams(r.0) && SameWords(ss, r.0)
    ensures forall j | 0 <= j < |ss| :: ss[j].taken <= r.0[j].taken
    decreases ss[0].Remaining()
  {
    if ground.doc != doc then (ss, false)
    else
      var (tt, ok) := CheckAdjacency(ss, ground, 1);
      if ok then (tt, true)
      else
        var (c, p) := Advance(tt[0]);
        if p.doc == 0 then (tt[0 := c], false) else ScanDoc(tt[0 := c], p, doc)
  }

  /** PhraseISR::probe before negation, and TermISR::probe when there is one stream. */
  function Probe(ss: Streams, doc: nat): (r: (Streams, bool))
    requires ValidStreams(ss)
    ensures ValidStreams(r.0) && SameWords(ss, r.0)
    ensures forall j | 0 <= j < |ss| :: ss[j].taken <= r.0[j].taken
  {
    if |ss| == 0 then (ss, false)
    else
      var (c, p) := AdvanceTo(ss[0], doc);
      var tt := ss[0 := c];
      if p.doc != doc then (tt, false)
      else if |ss| == 1 then (tt, true)
      else ScanDoc(tt, p, doc)
  }

  // ---------------------------------------------------------------- proofs

  lemma SameWordsSameHits(ss: Streams, tt: Streams, doc: nat, pos: nat)
    requires SameWords(ss, tt)
    ensures HitAt(ss, doc, pos) <==> HitAt(tt, doc, pos)
  {
  }

  /** CatchUp stops exactly at (doc, want) when that post is ahead, and never passes a later one. */
  lemma CatchUpKeeps(c: Cursor, p: Post, doc: nat, want: nat, q: Post)
    requires c.Valid() && !c.pending && p == c.Here() && p.doc == doc
    requires q in c.posts && Unpassed(c, q) && AtOrBefore(Post(doc, want), q)
    ensures var (c', p') := CatchUp(c, p, doc, want);
            Unpassed(c', q) && p' == c'.Here() && AtOrBefore(Post(doc, want), p')
    decreases c.Remaining()
  {
    if p.doc == doc && p.loc < want {
      AdvanceKeeps(c, q);
      var (c', p') := Advance(c);
      if p'.doc == doc { CatchUpKeeps(c', p', doc, want, q); }
    }
  }

  /** The post CatchUp answers is one of the list's (or none). */
  lemma CatchUpIsPost(c: Cursor, p: Post, doc: nat, want: nat)
    requires c.Valid() && !c.pending && (p == c.Here() || p == NO_POST)
    ensures var (c', p') := CatchUp(c, p, doc, want); p' == NO_POST || p' == c'.Here()
    decreases c.Remaining()
  {
    if p.doc == doc && p.loc < want {
      var (c', p') := Advance(c);
      if p'.doc != 0 { CatchUpIsPost(c', p', doc, want); }
    }
  }

  /** A stream is never moved past a post at or after the one wanted of it. */
  lemma CheckStreamKeeps(c: Cursor, ground: Post, want: nat, q: Post)
    requires c.Valid() && ground.doc > 0
    requires q in c.posts && Unpassed(c, q) && AtOrBefore(Post(ground.doc, want), q)
    ensures Unpassed(CheckStream(c, ground, want).0, q)
    ensures q == Post(ground.doc, want) ==> CheckStream(c, ground, want).1
  {
    AdvanceToKeeps(c, ground.doc, q);
    var (c1, p1) := AdvanceTo(c, ground.doc);
    if p1.doc == ground.doc {
      CatchUpKeeps(c1, p1, ground.doc, want, q);
    }
  }

  lemma CheckStreamSound(c: Cursor, ground: Post, want: nat)
    requires c.Valid() && ground.doc > 0 && CheckStream(c, ground, want).1
    ensures Post(ground.doc, want) in c.posts
  {
    var (c1, p1) := AdvanceTo(c, ground.doc);
    CatchUpIsPost(c1, p1, ground.doc, want);
  }

  /** Putting a moved cursor back into its place changes no word. */
  lemma Replace(ss: Streams, i: nat, c: Cursor, doc: nat, pos: nat)
    requires ValidStreams(ss) && i < |ss|
    requires c.Valid() && !c.pending && c.posts == ss[i].posts && c.nDocs == ss[i].nDocs
    ensures ValidStreams(ss[i := c]) && SameWords(ss, ss[i := c])
    ensures HitAt(ss[i := c], doc, pos) <==> HitAt(ss, doc, pos)
    ensures AllUnpassed(ss, doc, pos) && Unpassed(c, Post(doc, pos + i)) ==> AllUnpassed(ss[i := c], doc, pos)
  {
    SameWordsSameHits(ss, ss[i := c], doc, pos);
  }

  /** check_adjacency never goes past a hit at or after the ground it checks. */
  lemma {:induction false} AdjacencyKeeps(ss: Streams, ground: Post, i: nat, doc: nat, pos: nat)
    requires ValidStreams(ss) && 1 <= i <= |ss| && ground.doc > 0
    requires HitAt(ss, doc, pos) && AtOrBefore(ground, Post(doc, pos)) && AllUnpassed(ss, doc, pos)
    ensures AllUnpassed(CheckAdjacency(ss, ground, i).0, doc, pos)
    decreases |ss| - i
  {
    hide CheckStream, Ascending;
    if i == |ss| {
    } else {
      var (c, ok) := CheckStream(ss[i], ground, ground.loc + i);
      assert Post(doc, pos + i) in ss[i].posts && Unpassed(ss[i], Post(doc, pos + i));
      CheckStreamKeeps(ss[i], ground, ground.loc + i, Post(doc, pos + i));
      Replace(ss, i, c, doc, pos);
      if ok { AdjacencyKeeps(ss[i := c], ground, i + 1, doc, pos); }
    }
  }

  /** check_adjacency says yes only on a hit. */
  lemma {:induction false} AdjacencySound(ss: Streams, ground: Post, i: nat)
    requires ValidStreams(ss) && 1 <= i <= |ss| && ground.doc > 0
    requires forall j | 0 <= j < i :: Post(ground.doc, ground.loc + j) in ss[j].posts
    requires CheckAdjacency(ss, ground, i).1
    ensures HitAt(ss, ground.doc, ground.loc)
    decreases |ss| - i
  {
    hide CheckStream, Ascending;
    if i == |ss| {
    } else {
      var (c, ok) := CheckStream(ss[i], ground, ground.loc + i);
      CheckStreamSound(ss[i], ground, ground.loc + i);
      Replace(ss, i, c, ground.doc, ground.loc);
      AdjacencySound(ss[i := c], ground, i + 1);
    }
  }

  /** ... and on every hit that is still ahead. */
  lemma {:induction false} AdjacencyComplete(ss: Streams, ground: Post, i: nat)
    requires ValidStreams(ss) && 1 <= i <= |ss| && ground.doc > 0
    requires HitAt(ss, ground.doc, ground.loc) && AllUnpassed(ss, ground.doc, ground.loc)
    ensures CheckAdjacency(ss, ground, i).1
    decreases |ss| - i
  {
    hide CheckStream, Ascending;
    if i == |ss| {
    } else {
      var want := Post(ground.doc, ground.loc + i);
      assert want in ss[i].posts && Unpassed(ss[i], want);
      var (c, ok) := CheckStream(ss[i], ground, want.loc);
      CheckStreamKeeps(ss[i], ground, want.loc, want);
      Replace(ss, i, c, ground.doc, ground.loc);
      AdjacencyComplete(ss[i := c], ground, i + 1);
    }
  }

  /** The loop of probe keeps a hit that is still ahead, and finds it if it is in the document probed. */
  lemma {:induction false} ScanKeeps(ss: Streams, ground: Post, d: nat, doc: nat, pos: nat)
    requires ValidStreams(ss) && HitAt(ss, doc, pos) && AllUnpassed(ss, doc, pos)
    requires ground == ss[0].Here() && 0 < d <= ground.doc
    ensures AllUnpassed(ScanDoc(ss, ground, d).0, doc, pos)
    ensures doc == d ==> ScanDoc(ss, ground, d).1
    decreases ss[0].Remaining()
  {
    hide Ascending;
    assert Unpassed(ss[0], Post(doc, pos + 0));
    if ground.doc == d {
      AdjacencyKeeps(ss, ground, 1, doc, pos);
      var (tt, ok) := CheckAdjacency(ss, ground, 1);
      if !ok {
        if ground == Post(doc, pos) { AdjacencyComplete(ss, ground, 1); }
        assert Post(doc, pos + 0) in ss[0].posts;
        AdvanceKeeps(tt[0], Post(doc, pos));
        var (c, p) := Advance(tt[0]);
        SameWordsSameHits(ss, tt, doc, pos);
        Replace(tt, 0, c, doc, pos);
        assert p.doc >= ground.doc by { AdvanceIsLater(tt[0]); }
        ScanKeeps(tt[0 := c], p, d, doc, pos);
      }
    }
  }

  lemma HereIsReal(c: Cursor)
    requires c.Valid() && c.Here() != NO_POST
    ensures c.Here().doc > 0 && c.Here() in c.posts
  {
  }

  lemma AdvanceIsLater(c: Cursor)
    requires c.Valid() && !c.pending
    ensures var (c', p) := Advance(c);
            if p == NO_POST then c'.taken == |c'.posts|
            else p.doc > 0 && c'.taken > c.taken && p == c'.Here() && p in c.posts && Before(c.Here(), p)
  {
  }

  lemma {:induction false} ScanSound(ss: Streams, ground: Post, d: nat)
    requires ValidStreams(ss) && |ss| > 0 && ground == ss[0].Here() && 0 < d
    requires ScanDoc(ss, ground, d).1
    ensures Found(ss, d)
    decreases ss[0].Remaining()
  {
    hide Ascending, CheckStream, AdvanceTo;
    var (tt, ok) := CheckAdjacency(ss, ground, 1);
    if ok {
      assert Post(ground.doc, ground.loc + 0) in ss[0].posts;
      AdjacencySound(ss, ground, 1);
    } else {
      var (c, p) := Advance(tt[0]);
      AdvanceIsLater(tt[0]);
      ScanSound(tt[0 := c], p, d);
      var pos :| HitAt(tt[0 := c], d, pos);
      SameWordsSameHits(ss, tt[0 := c], d, pos);
    }
  }

  /** A probe keeps every hit at or after the probed document, and finds one that is in it. */
  lemma ProbeKeeps(ss: Streams, d: nat, doc: nat, pos: nat)
    requires ValidStreams(ss) && HitAt(ss, doc, pos) && AllUnpassed(ss, doc, pos) && 0 < d <= doc
    ensures AllUnpassed(Probe(ss, d).0, doc, pos)
    ensures doc == d ==> Probe(ss, d).1
  {
    hide Ascending, Walk;
    assert Post(doc, pos + 0) in ss[0].posts && Unpassed(ss[0], Post(doc, pos + 0));
    AdvanceToKeeps(ss[0], d, Post(doc, pos));
    var (c, p) := AdvanceTo(ss[0], d);
    Replace(ss, 0, c, doc, pos);
    if p.doc == d && |ss| != 1 {
      ScanKeeps(ss[0 := c], p, d, doc, pos);
    }
  }

  lemma ProbeSound(ss: Streams, d: nat)
    requires ValidStreams(ss) && 0 < d && Probe(ss, d).1
    ensures Found(ss, d)
  {
    hide Ascending, Walk, CheckAdjacency, Advance;
    var (c, p) := AdvanceTo(ss[0], d);
    if |ss| == 1 {
      assert HitAt(ss, d, p.loc);
    } else {
      ScanSound(ss[0 := c], p, d);
      var pos :| HitAt(ss[0 := c], d, pos);
      SameWordsSameHits(ss, ss[0 := c], d, pos);
    }
  }

  /**
    A leaf answers exactly from document `lo` on, whatever was asked of it before,
    and after a probe of d it still does from d on.
  */
  lemma ProbeExact(ss: Streams, lo: nat, d: nat)
    requires ValidStreams(ss) && Ready(ss, Post(lo, 0)) && 0 < d
    ensures Ready(Probe(ss, d).0, Post(if lo < d then d else lo, 0))
    ensures lo <= d ==> (Probe(ss, d).1 <==> Found(ss, d))
  {
    hide Probe, Ascending;
    var tt := Probe(ss, d).0;
    var lo' := if lo < d then d else lo;
    forall doc: nat, pos: nat | HitAt(tt, doc, pos) && AtOrBefore(Post(lo', 0), Post(doc, pos))
      ensures AllUnpassed(tt, doc, pos)
    {
      SameWordsSameHits(ss, tt, doc, pos);
      ProbeKeeps(ss, d, doc, pos);
    }
    if lo <= d {
      if Found(ss, d) {
        var pos :| HitAt(ss, d, pos);
        ProbeKeeps(ss, d, d, pos);
      }
      if Probe(ss, d).1 { ProbeSound(ss, d); }
    }
  }

  /** Below the document stream 0 stands in, a leaf answers no and does not move back. */
  lemma ProbeBehind(ss: Streams, d: nat, b: nat)
    requires ValidStreams(ss) && 0 < d && |ss| > 0 && b <= ss[0].Here().doc
    ensures b <= Probe(ss, d).0[0].Here().doc
    ensures d < b ==> !Probe(ss, d).1
  {
    hide Walk, CheckAdjacency, Advance, ScanDoc;
    MonotoneHere(ss[0], Probe(ss, d).0[0]);
  }

  /** After a yes to d stream 0 stands in d, or further on. */
  lemma ProbeStandsThere(ss: Streams, d: nat)
    requires ValidStreams(ss) && 0 < d && Probe(ss, d).1
    ensures ss != [] && d <= Probe(ss, d).0[0].Here().doc
  {
    hide Walk, CheckAdjacency, Advance, ScanDoc;
    MonotoneHere(AdvanceTo(ss[0], d).0, Probe(ss, d).0[0]);
  }

  lemma MonotoneHere(c: Cursor, c': Cursor)
    requires c.Valid() && c'.Valid() && c.posts == c'.posts && c.taken <= c'.taken
    ensures AtOrBefore(c.Here(), c'.Here())
  {
  }

  /** The loop of next_doc stops no later than a hit that is still ahead, and keeps it. */
  lemma {:induction false} NextHitKeeps(ss: Streams, ground: Post, doc: nat, pos: nat)
    requires ValidStreams(ss) && HitAt(ss, doc, pos) && AllUnpassed(ss, doc, pos)
    requires ground == ss[0].Here() != NO_POST
    ensures var (tt, r) := NextHit(ss, ground); 0 < r <= doc && AllUnpassed(tt, doc, pos)
    decreases ss[0].Remaining()
  {
    hide Ascending;
    assert Unpassed(ss[0], Post(doc, pos + 0));
    assert ground.doc > 0 by { HereIsReal(ss[0]); }
    if |ss| != 1 {
      AdjacencyKeeps(ss, ground, 1, doc, pos);
      var (tt, ok) := CheckAdjacency(ss, ground, 1);
      if !ok {
        if ground == Post(doc, pos) { AdjacencyComplete(ss, ground, 1); }
        assert Post(doc, pos + 0) in ss[0].posts;
        AdvanceKeeps(tt[0], Post(doc, pos));
        var (c, p) := Advance(tt[0]);
        SameWordsSameHits(ss, tt, doc, pos);
        Replace(tt, 0, c, doc, pos);
        NextHitKeeps(tt[0 := c], p, doc, pos);
      }
    }
  }

  lemma {:induction false} NextHitSound(ss: Streams, ground: Post)
    requires ValidStreams(ss) && |ss| > 0
    requires ground == NO_POST ==> ss[0].taken == |ss[0].posts|
    requires ground != NO_POST ==> ground == ss[0].Here()
    ensures var (tt, r) := NextHit(ss, ground);
            if r == 0 then tt[0].taken == |tt[0].posts|
            else Found(ss, r) && r == tt[0].Here().doc && ground.doc <= r
    decreases ss[0].Remaining()
  {
    hide Ascending, CheckStream, AdvanceTo;
    if ground != NO_POST {
      HereIsReal(ss[0]);
      if |ss| == 1 {
        assert HitAt(ss, ground.doc, ground.loc);
      } else {
        assert Post(ground.doc, ground.loc + 0) in ss[0].posts;
        var (tt, ok) := CheckAdjacency(ss, ground, 1);
        if ok {
          AdjacencySound(ss, ground, 1);
        } else {
          var (c, p) := Advance(tt[0]);
          AdvanceIsLater(tt[0]);
          if p != NO_POST {
            var uu := tt[0 := c];
            NextHitSound(uu, p);
            var (vv, r) := NextHit(uu, p);
            if r != 0 {
              var pos :| HitAt(uu, r, pos);
              SameWordsSameHits(ss, uu, r, pos);
            }
          }
        }
      }
    }
  }

  /**
    A leaf that has been driven up to `cur`: stream 0 stands in `cur`, or has run
    out before it, and nothing that a hit at or after `cur` needs has been passed.
  */
  ghost predicate Driven(ss: Streams, cur: nat) {
    && ValidStreams(ss)
    && Ready(ss, Post(cur, 0))
    && (|ss| > 0 ==> ss[0].Here().doc == cur || (ss[0].Here().doc < cur && ss[0].taken == |ss[0].posts|))
  }

  /** Where a leaf that ran out may be said to stand. */
  function EndOf(ss: Streams, cur: nat): nat
    requires forall i | 0 <= i < |ss| :: ss[i].taken <= |ss[i].posts|
  {
    if |ss| > 0 && cur < ss[0].Here().doc then ss[0].Here().doc else cur + 1
  }

  lemma NextDocKeeps(ss: Streams, doc: nat, pos: nat)
    requires ValidStreams(ss) && HitAt(ss, doc, pos) && AllUnpassed(ss, doc, pos) && ss[0].Here().doc < doc
    ensures var (tt, r) := NextDoc(ss); 0 < r <= doc && AllUnpassed(tt, doc, pos)
  {
    hide Ascending, Walk, CheckAdjacency, NextHit;
    var (c, p) := AdvanceToNextDoc(ss[0]);
    assert Post(doc, pos + 0) in ss[0].posts && Unpassed(ss[0], Post(doc, pos + 0));
    AdvanceToKeeps(ss[0], ss[0].Here().doc + 1, Post(doc, pos));
    Replace(ss, 0, c, doc, pos);
    NextHitKeeps(ss[0 := c], p, doc, pos);
  }

  lemma NextDocSound(ss: Streams, cur: nat)
    requires Driven(ss, cur) && |ss| > 0
    ensures var (tt, r) := NextDoc(ss);
            if r == 0 then tt[0].taken == |tt[0].posts|
            else cur < r && Found(ss, r) && r == tt[0].Here().doc
  {
    hide Ascending, Walk, CheckAdjacency, NextHit, Ready;
    var (c, p) := AdvanceToNextDoc(ss[0]);
    var uu := ss[0 := c];
    NextHitSound(uu, p);
    var (tt, r) := NextDoc(ss);
    if r != 0 {
      var pos :| HitAt(uu, r, pos);
      SameWordsSameHits(ss, uu, r, pos);
      if ss[0].Here().doc < cur { ExhaustedSeek(ss[0], ss[0].Here().doc + 1); }
      if p == NO_POST { NoGround(uu); }
    }
  }

  lemma ReadyFromLater(ss: Streams, from: Post, later: Post)
    requires ValidStreams(ss) && Ready(ss, from) && AtOrBefore(from, later)
    ensures Ready(ss, later)
  {
    hide Ascending;
  }

  lemma NoGround(ss: Streams)
    requires ValidStreams(ss) && |ss| > 0
    ensures NextHit(ss, NO_POST) == (ss, 0)
  {
  }

  lemma NextReady(ss: Streams, cur: nat)
    requires Driven(ss, cur) && |ss| > 0
    ensures var (tt, r) := NextDoc(ss);
            && Ready(tt, Post(cur + 1, 0))
            && forall x | cur < x && Found(ss, x) :: 0 < r <= x
  {
    hide Ascending, NextDoc, ValidStreams;
    var (tt, r) := NextDoc(ss);
    forall x, pos: nat | cur < x && HitAt(ss, x, pos) ensures 0 < r <= x {
      NextDocKeeps(ss, x, pos);
    }
    forall doc: nat, pos: nat | HitAt(tt, doc, pos) && AtOrBefore(Post(cur + 1, 0), Post(doc, pos))
      ensures AllUnpassed(tt, doc, pos)
    {
      SameWordsSameHits(ss, tt, doc, pos);
      NextDocKeeps(ss, doc, pos);
    }
  }

  /** next_doc on a leaf: the least matching document after `cur`, or 0 when there is none. */
  lemma NextExact(ss: Streams, cur: nat)
    requires Driven(ss, cur)
    ensures var (tt, r) := NextDoc(ss);
            if r == 0 then
              (forall x | cur < x :: !Found(ss, x)) && Driven(tt, EndOf(tt, cur))
            else
              && cur < r && Found(ss, r) && (forall x | cur < x < r :: !Found(ss, x))
              && Driven(tt, r) && tt[0].Here().doc == r
  {
    if |ss| > 0 {
      hide Ascending, NextDoc, Ready, HitAt, Found;
      NextDocSound(ss, cur);
      NextReady(ss, cur);
      var (tt, r) := NextDoc(ss);
      ReadyFromLater(tt, Post(cur + 1, 0), Post(if r == 0 then EndOf(tt, cur) else r, 0));
    }
  }

  lemma ExhaustedSeek(c: Cursor, doc: nat)
    requires c.Valid() && c.taken == |c.posts| && c.Here().doc < doc
    ensures AdvanceTo(c, doc).1 == NO_POST
  {
  }
}
