/**
  What the positions of a hit are (collect_positions_in_current_doc, index_chunk/isr.cpp),
  for a cursor that is sought from document to document, always forward.
*/
module Positions {
  import opened Postings

  /** Every location of `doc` in the list, in order. */
  function Locations(posts: seq<Post>, doc: nat): seq<nat> {
    if posts == [] then []
    else (if posts[0].doc == doc then [posts[0].loc] else []) + Locations(posts[1..], doc)
  }

  ghost predicate Climbing(ls: seq<nat>) {
    forall i, j | 0 <= i < j < |ls| :: ls[i] < ls[j]
  }

  lemma ConsClimbs(x: nat, tail: seq<nat>)
    requires Climbing(tail) && forall y | y in tail :: x < y
    ensures Climbing([x] + tail)
  {
    var ls := [x] + tail;
    forall i, j | 0 <= i < j < |ls| ensures ls[i] < ls[j] {
      assert ls[j] == tail[j - 1] && tail[j - 1] in tail;
      assert i > 0 ==> ls[i] == tail[i - 1];
    }
  }

  lemma {:induction false} LocationsExact(posts: seq<Post>, doc: nat)
    requires Ascending(posts)
    ensures forall loc: nat :: loc in Locations(posts, doc) <==> Post(doc, loc) in posts
    ensures Climbing(Locations(posts, doc))
  {
    if posts != [] {
      LocationsExact(posts[1..], doc);
      var tail := Locations(posts[1..], doc);
      forall loc: nat ensures loc in Locations(posts, doc) <==> Post(doc, loc) in posts {
        assert Post(doc, loc) in posts <==> Post(doc, loc) == posts[0] || Post(doc, loc) in posts[1..];
      }
      if posts[0].doc == doc {
        forall y | y in tail ensures posts[0].loc < y {
          var k :| 0 <= k < |posts[1..]| && posts[1..][k] == Post(doc, y);
          assert Before(posts[0], posts[k + 1]);
        }
        ConsClimbs(posts[0].loc, tail);
      }
    }
  }

  lemma {:induction false} NoneOf(posts: seq<Post>, doc: nat)
    requires forall i | 0 <= i < |posts| :: posts[i].doc != doc
    ensures Locations(posts, doc) == []
  {
    if posts != [] { NoneOf(posts[1..], doc); }
  }

  lemma {:induction false} SkipOthers(posts: seq<Post>, doc: nat, k: nat)
    requires k <= |posts| && forall i | 0 <= i < k :: posts[i].doc != doc
    ensures Locations(posts[k..], doc) == Locations(posts, doc)
  {
    if k == 0 {
      assert posts[0..] == posts;
    } else {
      SkipOthers(posts[1..], doc, k - 1);
      assert posts[1..][k - 1..] == posts[k..];
    }
  }

  /** All posts before the one it stands at lie before document `from`. */
  ghost predicate Poised(c: Cursor, from: nat) {
    c.Valid() && forall i | 0 <= i < c.taken - 1 :: c.posts[i].doc < from
  }

  /** A seek that moves forward answers from the list alone: it stops at the first post of or after `doc`. */
  lemma SeekIsExact(c: Cursor, doc: nat)
    requires Poised(c, doc) && 0 < doc
    ensures var (c', p) := AdvanceTo(c, doc);
            && Poised(c', doc)
            && (p.doc == doc <==> exists i :: 0 <= i < |c.posts| && c.posts[i].doc == doc)
            && (p == NO_POST ==> forall i | 0 <= i < |c.posts| :: c.posts[i].doc < doc)
            && (p != NO_POST ==> p.doc >= doc && p == c'.Here() && 0 < c'.taken
                                 && forall i | 0 <= i < |c.posts| && doc <= c.posts[i].doc :: p.doc <= c.posts[i].doc)
  {
    hide Walk;
    var (c', p) := AdvanceTo(c, doc);
    assert forall i | 0 <= i < c'.taken - 1 :: c'.posts[i].doc < doc;
    if p != NO_POST { assert c'.posts[c'.taken - 1] == p; }
  }

  lemma {:induction false} RestIsExact(c: Cursor, doc: nat)
    requires c.Valid() && 0 < c.taken && c.Here().doc == doc && 0 < doc && !c.pending
    ensures var (c', more) := CollectRest(c, doc);
            && more == Locations(c.posts[c.taken..], doc)
            && Poised(c', doc + 1)
    decreases c.Remaining()
  {
    if c.taken < |c.posts| {
      var (c', p) := AdvanceBase(c);
      assert Before(c.posts[c.taken - 1], c.posts[c.taken]);
      assert c.posts[c.taken..][1..] == c.posts[c.taken + 1..];
      if p.doc == doc {
        RestIsExact(c', doc);
      } else {
        assert forall i | c.taken <= i < |c.posts| :: AtOrBefore(c.posts[c.taken], c.posts[i]);
        NoneOf(c.posts[c.taken..], doc);
      }
    }
  }

  /**
    Seek to `doc` and collect, from any cursor poised for it: the positions are exactly
    the word's locations in `doc`, and the cursor is poised for every later document,
    the overshoot notwithstanding.
  */
  lemma CollectIsExact(c: Cursor, doc: nat)
    requires Poised(c, doc) && 0 < doc && AdvanceTo(c, doc).1.doc == doc
    ensures var (c', positions) := Collect(AdvanceTo(c, doc).0);
            positions == Locations(c.posts, doc) && Poised(c', doc + 1)
  {
    hide AdvanceTo, CollectRest;
    SeekIsExact(c, doc);
    var c1 := AdvanceTo(c, doc).0;
    RestIsExact(c1, doc);
    var k := c1.taken - 1;
    SkipOthers(c.posts, doc, k);
    FirstLocation(c.posts[k..], doc);
    assert c.posts[k..][1..] == c.posts[k + 1..];
  }

  lemma FirstLocation(posts: seq<Post>, doc: nat)
    requires posts != [] && posts[0].doc == doc
    ensures Locations(posts, doc) == [posts[0].loc] + Locations(posts[1..], doc)
  {
  }

  lemma MissIsExact(c: Cursor, doc: nat)
    requires Poised(c, doc) && 0 < doc && AdvanceTo(c, doc).1.doc != doc
    ensures Locations(c.posts, doc) == [] && Poised(AdvanceTo(c, doc).0, doc + 1)
  {
    SeekIsExact(c, doc);
    NoneOf(c.posts, doc);
  }

  lemma PoisedLater(c: Cursor, from: nat, later: nat)
    requires Poised(c, from) && from <= later
    ensures Poised(c, later)
  {
  }
}
