/**
  Posts and the forward-only cursor over one word's posting list
  (index/Index.h, index_chunk/isr.h, index_chunk/isr.cpp).

  A cursor is a value here: how many posts it has taken, and whether the last
  one taken is still to be served ("pending").  The class IndexStreamReader, which
  decodes posts from bytes, is proved to move exactly as these functions do.
*/
module Postings {

  /** Documents and locations are 1-indexed; (0, 0) says "no post". */
  datatype Post = Post(doc: nat, loc: nat)

  const NO_POST := Post(0, 0)

  /** Document first, then location. */
  predicate Before(a: Post, b: Post) {
    a.doc < b.doc || (a.doc == b.doc && a.loc < b.loc)
  }

  predicate AtOrBefore(a: Post, b: Post) {
    a == b || Before(a, b)
  }

  /** What the indexer produces: real posts, each strictly after the one before. */
  ghost predicate Ascending(posts: seq<Post>) {
    && (forall i | 0 <= i < |posts| :: 1 <= posts[i].doc && 1 <= posts[i].loc)
    && (forall i, j | 0 <= i < j < |posts| :: Before(posts[i], posts[j]))
  }

  datatype Cursor = Cursor(posts: seq<Post>, nDocs: nat, taken: nat, pending: bool) {

    ghost predicate Valid() {
      && taken <= |posts|
      && Ascending(posts)
    }

    /** The cursor's (doc_offset_, loc_offset_): the last post taken. */
    function Here(): Post
      requires taken <= |posts|
    {
      if taken == 0 then NO_POST else posts[taken - 1]
    }

    function Remaining(): nat
      requires taken <= |posts|
    {
      |posts| - taken
    }
  }

  function Fresh(posts: seq<Post>, nDocs: nat): Cursor {
    Cursor(posts, nDocs, 0, false)
  }

  /** advance_base: the next post, ignoring the pending slot. */
  function AdvanceBase(c: Cursor): (r: (Cursor, Post))
    requires c.taken <= |c.posts|
  {
    if c.taken == |c.posts| then (c, NO_POST)
    else (c.(taken := c.taken + 1), c.posts[c.taken])
  }

  /** advance: serve the pending post, or take the next one. */
  function Advance(c: Cursor): (r: (Cursor, Post))
    requires c.Valid()
    ensures r.0.Valid() && r.0.posts == c.posts && r.0.nDocs == c.nDocs
  {
    if c.pending then (c.(pending := false), c.Here()) else AdvanceBase(c)
  }

  /** The walking loop of advance_to. */
  function Walk(c: Cursor, doc: nat): (r: (Cursor, Post))
    requires c.Valid()
    ensures r.0.Valid() && r.0.posts == c.posts && r.0.nDocs == c.nDocs && r.0.pending == c.pending
    ensures c.taken <= r.0.taken
    ensures forall j | c.taken <= j < r.0.taken - 1 :: c.posts[j].doc < doc
    ensures c.taken < r.0.taken ==> c.Here().doc < doc
    ensures if r.1 == NO_POST && doc > 0
            then r.0.taken == |c.posts| && r.0.Here().doc < doc
            else r.1 == r.0.Here() && doc <= r.1.doc
    decreases c.Remaining()
  {
    if doc <= c.Here().doc then (c, c.Here())
    else
      var (c', p) := AdvanceBase(c);
      if p.doc == 0 then (c', p) else Walk(c', doc)
  }

  /** advance_to: the first post at or after `doc`, never moving back. */
  function AdvanceTo(c: Cursor, doc: nat): (r: (Cursor, Post))
    requires c.Valid()
    ensures r.0.Valid() && r.0.posts == c.posts && r.0.nDocs == c.nDocs && !r.0.pending
    ensures c.taken <= r.0.taken
    ensures forall j | c.taken <= j < r.0.taken - 1 :: c.posts[j].doc < doc
    ensures c.taken < r.0.taken ==> c.Here().doc < doc
    ensures if r.1 == NO_POST && doc > 0
            then r.0.taken == |c.posts| && r.0.Here().doc < doc
            else r.1 == r.0.Here() && doc <= r.1.doc
  {
    var c' := c.(pending := false);
    if c.pending && doc <= c.Here().doc then (c', c.Here()) else Walk(c', doc)
  }

  /** advance_to_next_doc */
  function AdvanceToNextDoc(c: Cursor): (r: (Cursor, Post))
    requires c.Valid()
  {
    AdvanceTo(c, c.Here().doc + 1)
  }

  /**
    collect_positions_in_current_doc: the locations of the document the cursor stands in.
    The walk goes one post too far, and that post is left pending.
  */
  function Collect(c: Cursor): (r: (Cursor, seq<nat>))
    requires c.Valid()
    ensures r.0.Valid() && r.0.posts == c.posts && r.0.nDocs == c.nDocs
  {
    var (c', more) := CollectRest(c.(pending := false), c.Here().doc);
    (c', [c.Here().loc] + more)
  }

  function CollectRest(c: Cursor, doc: nat): (r: (Cursor, seq<nat>))
    requires c.Valid()
    ensures r.0.Valid() && r.0.posts == c.posts && r.0.nDocs == c.nDocs
    decreases c.Remaining()
  {
    var (c', p) := AdvanceBase(c);
    if p.doc == 0 then (c', [])
    else if p.doc != doc then (c'.(pending := true), [])
    else
      var (c'', more) := CollectRest(c', doc);
      (c'', [p.loc] + more)
  }

  /** `c` has not gone past post `p` (which may be a post of the list or not). */
  predicate Unpassed(c: Cursor, p: Post)
    requires c.taken <= |c.posts|
  {
    AtOrBefore(c.Here(), p)
  }

  /** A seek to a document no later than p's never passes p, and does not run out. */
  lemma AdvanceToKeeps(c: Cursor, doc: nat, p: Post)
    requires c.Valid() && p in c.posts && Unpassed(c, p) && 0 < doc <= p.doc
    ensures Unpassed(AdvanceTo(c, doc).0, p)
    ensures AdvanceTo(c, doc).1 != NO_POST
  {
    hide Walk;
    var k :| 0 <= k < |c.posts| && c.posts[k] == p;
    var (c', q) := AdvanceTo(c, doc);
    assert forall j | 0 <= j < c.taken :: AtOrBefore(c.posts[j], c.Here());
    assert k >= c'.taken - 1;
    if k == c'.taken - 1 {
      assert p == c'.Here();
    } else {
      assert c'.taken > 0 ==> Before(c'.Here(), c.posts[k]);
    }
  }

  /** One step never passes a post strictly ahead. */
  lemma AdvanceKeeps(c: Cursor, p: Post)
    requires c.Valid() && !c.pending && p in c.posts && Before(c.Here(), p)
    ensures Unpassed(Advance(c).0, p)
    ensures Advance(c).1 == Advance(c).0.Here() != NO_POST
  {
    var k :| 0 <= k < |c.posts| && c.posts[k] == p;
    assert forall j | 0 <= j < c.taken :: AtOrBefore(c.posts[j], c.Here());
    if k > c.taken {
      assert Before(c.posts[c.taken], c.posts[k]);
    }
  }
}
