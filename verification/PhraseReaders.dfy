/**
  The loops of TermISR and PhraseISR (index_chunk/query_isr.h) over real readers,
  proved to move them exactly as the functions of PhraseWalk.
*/
module PhraseReaders {
  import opened Postings
  import opened StreamReader
  import W = PhraseWalk

  ghost predicate ValidReaders(rs: seq<IndexStreamReader>)
    reads rs
  {
    && (forall i | 0 <= i < |rs| :: rs[i].Valid() && !rs[i].hasPending)
    && (forall i, j | 0 <= i < j < |rs| :: rs[i] != rs[j])
  }

  ghost function Cursors(rs: seq<IndexStreamReader>): (ss: W.Streams)
    requires ValidReaders(rs)
    reads rs
    ensures |ss| == |rs| && forall i | 0 <= i < |ss| :: ss[i] == rs[i].Cursor()
    ensures W.ValidStreams(ss)
  {
    seq(|rs|, i requires 0 <= i < |rs| && ValidReaders(rs) reads rs => rs[i].Cursor())
  }

  /** TermISR::next_doc */
  method TermNextDoc(rs: seq<IndexStreamReader>) returns (doc: nat)
    requires ValidReaders(rs) && |rs| == 1
    modifies rs
    ensures ValidReaders(rs) && (Cursors(rs), doc) == W.NextDoc(old(Cursors(rs)))
  {
    var p := SeekNextDoc(rs, 0);
    return p.doc;
  }

  /** TermISR::probe, before negation. */
  method TermProbe(rs: seq<IndexStreamReader>, doc: nat) returns (found: bool)
    requires ValidReaders(rs) && |rs| == 1 && 0 < doc
    modifies rs
    ensures ValidReaders(rs) && (Cursors(rs), found) == W.Probe(old(Cursors(rs)), doc)
  {
    var p := SeekOne(rs, 0, doc);
    return p.doc == doc;
  }

  /** The body of check_adjacency's loop for one stream. */
  method CheckStream(reader: IndexStreamReader, ground: Post, wantLoc: nat) returns (found: bool)
    requires reader.Valid() && !reader.hasPending && 0 < ground.doc
    modifies reader
    ensures reader.Valid() && (reader.Cursor(), found) == W.CheckStream(old(reader.Cursor()), ground, wantLoc)
  {
    hide Ascending, AdvanceTo;
    var p := reader.AdvanceTo(ground.doc);
    if p.doc != ground.doc { return false; }
    ghost var c, q := reader.Cursor(), p;
    while p.doc == ground.doc && p.loc < wantLoc
      invariant reader.Valid() && !reader.hasPending
      invariant reader.Cursor().posts == c.posts
      invariant W.CatchUp(reader.Cursor(), p, ground.doc, wantLoc) == W.CatchUp(c, q, ground.doc, wantLoc)
      decreases reader.Cursor().Remaining()
    {
      p := reader.Advance();
      if p.doc == 0 { return false; }
    }
    return p.doc == ground.doc && p.loc == wantLoc;
  }

  /** Moving one reader of a group changes that cursor and no other. */
  method SeekOne(rs: seq<IndexStreamReader>, i: nat, doc: nat) returns (p: Post)
    requires ValidReaders(rs) && i < |rs|
    modifies rs[i]
    ensures ValidReaders(rs)
    ensures var (c, q) := AdvanceTo(old(Cursors(rs))[i], doc); Cursors(rs) == old(Cursors(rs))[i := c] && p == q
  {
    hide Ascending, AdvanceTo;
    p := rs[i].AdvanceTo(doc);
  }

  method SeekNextDoc(rs: seq<IndexStreamReader>, i: nat) returns (p: Post)
    requires ValidReaders(rs) && i < |rs|
    modifies rs[i]
    ensures ValidReaders(rs)
    ensures var (c, q) := AdvanceToNextDoc(old(Cursors(rs))[i]); Cursors(rs) == old(Cursors(rs))[i := c] && p == q
  {
    hide Ascending, AdvanceTo;
    p := rs[i].AdvanceToNextDoc();
  }

  method StepOne(rs: seq<IndexStreamReader>, i: nat) returns (p: Post)
    requires ValidReaders(rs) && i < |rs|
    modifies rs[i]
    ensures ValidReaders(rs)
    ensures var (c, q) := Advance(old(Cursors(rs))[i]); Cursors(rs) == old(Cursors(rs))[i := c] && p == q
  {
    hide Ascending;
    p := rs[i].Advance();
  }

  method CheckOne(rs: seq<IndexStreamReader>, i: nat, ground: Post, wantLoc: nat) returns (found: bool)
    requires ValidReaders(rs) && i < |rs| && 0 < ground.doc
    modifies rs[i]
    ensures ValidReaders(rs)
    ensures var (c, ok) := W.CheckStream(old(Cursors(rs))[i], ground, wantLoc);
            Cursors(rs) == old(Cursors(rs))[i := c] && found == ok
  {
    hide Ascending, W.CheckStream;
    found := CheckStream(rs[i], ground, wantLoc);
  }

  /** check_adjacency: do streams 1.. stand right behind `ground`? */
  method CheckAdjacency(rs: seq<IndexStreamReader>, ground: Post) returns (ok: bool)
    requires ValidReaders(rs) && |rs| > 0 && 0 < ground.doc
    modifies rs
    ensures ValidReaders(rs) && (Cursors(rs), ok) == W.CheckAdjacency(old(Cursors(rs)), ground, 1)
  {
    hide W.CheckStream, ValidReaders, Cursors, Ascending, W.CheckAdjacency;
    var i := 1;
    while i < |rs|
      invariant 1 <= i <= |rs| && ValidReaders(rs)
      invariant W.CheckAdjacency(Cursors(rs), ground, i) == W.CheckAdjacency(old(Cursors(rs)), ground, 1)
    {
      AdjacencyStep(Cursors(rs), ground, i);
      var found := CheckOne(rs, i, ground, ground.loc + i);
      if !found { return false; }
      i := i + 1;
    }
    AdjacencyEnd(Cursors(rs), ground);
    return true;
  }

  lemma AdjacencyStep(ss: W.Streams, ground: Post, i: nat)
    requires W.ValidStreams(ss) && 1 <= i < |ss|
    ensures var (c, ok) := W.CheckStream(ss[i], ground, ground.loc + i);
            W.ValidStreams(ss[i := c])
            && W.CheckAdjacency(ss, ground, i) == if ok then W.CheckAdjacency(ss[i := c], ground, i + 1) else (ss[i := c], false)
  {
    hide W.CheckStream;
  }

  lemma AdjacencyEnd(ss: W.Streams, ground: Post)
    requires W.ValidStreams(ss) && |ss| > 0
    ensures W.CheckAdjacency(ss, ground, |ss|) == (ss, true)
  {
  }

  /** PhraseISR::next_doc */
  method PhraseNextDoc(rs: seq<IndexStreamReader>) returns (doc: nat)
    requires ValidReaders(rs)
    modifies rs
    ensures ValidReaders(rs) && (Cursors(rs), doc) == W.NextDoc(old(Cursors(rs)))
  {
    hide W.CheckAdjacency, ValidReaders, Ascending, AdvanceTo;
    if |rs| == 0 { return 0; }
    ghost var ss := Cursors(rs);
    var ground := SeekNextDoc(rs, 0);
    while ground.doc != 0
      invariant ValidReaders(rs)
      invariant W.NextHit(Cursors(rs), ground) == W.NextDoc(ss)
      decreases Cursors(rs)[0].Remaining(), ground.doc
    {
      if |rs| == 1 { return ground.doc; }
      var ok := CheckAdjacency(rs, ground);
      if ok { return ground.doc; }
      ground := StepOne(rs, 0);
    }
    return 0;
  }

  /** PhraseISR::probe, before negation. */
  method PhraseProbe(rs: seq<IndexStreamReader>, doc: nat) returns (found: bool)
    requires ValidReaders(rs) && 0 < doc
    modifies rs
    ensures ValidReaders(rs) && (Cursors(rs), found) == W.Probe(old(Cursors(rs)), doc)
  {
    hide W.CheckAdjacency, ValidReaders, Ascending, AdvanceTo;
    if |rs| == 0 { return false; }
    ghost var ss := Cursors(rs);
    var ground := SeekOne(rs, 0, doc);
    if ground.doc != doc { return false; }
    if |rs| == 1 { return true; }
    while ground.doc == doc
      invariant ValidReaders(rs)
      invariant W.ScanDoc(Cursors(rs), ground, doc) == W.Probe(ss, doc)
      decreases Cursors(rs)[0].Remaining(), ground.doc
    {
      var ok := CheckAdjacency(rs, ground);
      if ok { return true; }
      ground := StepOne(rs, 0);
      if ground.doc == 0 { break; }
    }
    return false;
  }
}
