/**
  IndexStreamReader (index_chunk/isr.h, index_chunk/isr.cpp): the cursor that
  decodes one posting list from the bytes of a chunk.  Each method is proved to
  move exactly as the cursor functions of Postings.
*/
module StreamReader {
  import opened Bytes
  import opened Postings
  import opened PostingCodec
  import opened ChunkLayout
  import Utf8
  import P = Postings

  lemma SliceAgain(s: seq<byte>, i: nat, j: nat)
    requires i <= j <= |s|
    ensures s[i..][j - i..] == s[j..]
  {
  }

  method ReadNext(region: seq<byte>, at: nat) returns (c: nat, q: nat)
    requires at <= |region|
    ensures at <= q <= |region| && (c, q - at) == Utf8.Decode(region[at..])
  {
    c, q := Utf8.ReadUtf8(region, at, |region|);
    assert region[at..|region|] == region[at..];
  }

  /** The reads of advance_base: a zero byte announces a new document. */
  method ReadPost(doc: nat, loc: nat, region: seq<byte>, at: nat) returns (doc': nat, loc': nat, q: nat)
    requires at <= |region|
    ensures at <= q <= |region| && (Post(doc', loc'), q - at) == DecodePost(Post(doc, loc), region[at..])
  {
    hide Utf8.Decode;
    var flag;
    flag, q := ReadNext(region, at);
    if flag > 0 {
      return doc, (loc + flag) % MODULUS, q;
    }
    SliceAgain(region, at, q);
    var d, q1 := ReadNext(region, q);
    SliceAgain(region, at, q1);
    var l, q2 := ReadNext(region, q1);
    return (doc + d) % MODULUS, l, q2;
  }

  /** At `offset` of the region stand a header and the bytes that spell `list`. */
  ghost predicate ListAt(region: seq<byte>, offset: nat, list: seq<Post>) {
    && offset + 14 <= |region|
    && Ascending(list)
    && |list| == FromLittleEndian(region[offset..offset + 8])
    && Decodes(NO_POST, region[offset + 14..], list)
  }

  class IndexStreamReader {
    const word: Text
    const region: seq<byte>
    var nPosts: nat
    var nDocs: nat
    var currLoc: nat
    var postsConsumed: nat
    var docOffset: nat
    var locOffset: nat
    var hasPending: bool

    /** The list the bytes spell; a reader never needs it. */
    ghost var posts: seq<Post>

    ghost function Taken(): nat
      reads this
    {
      if postsConsumed <= |posts| then postsConsumed else |posts|
    }

    /**
      The bytes ahead spell the posts ahead.  A list may be cut short by the end of
      the region; then the walk-off guard ends it.
    */
    ghost predicate Valid()
      reads this
    {
      && Ascending(posts)
      && |posts| <= nPosts
      && (postsConsumed <= |posts| || postsConsumed == nPosts)
      && currLoc <= |region|
      && Post(docOffset, locOffset) == Fresh(posts, nDocs).(taken := Taken()).Here()
      && (if |posts| == nPosts then Decodes(Post(docOffset, locOffset), region[currLoc..], posts[Taken()..])
          else DecodesAll(Post(docOffset, locOffset), region[currLoc..], posts[Taken()..]))
    }

    /** The cursor this reader stands for. */
    ghost function Cursor(): (c: P.Cursor)
      requires Valid()
      reads this
      ensures c.Valid()
    {
      P.Cursor(posts, nDocs, Taken(), hasPending)
    }

    /**
      The constructor on a dictionary entry: reads the list's header, and gives up on
      one that cannot be right.  A list that stands in the region is opened at its start.
    */
    constructor (word: Text, region: seq<byte>, found: bool, offset: nat, ghost list: seq<Post>)
      ensures this.word == word && !hasPending
      ensures !found ==> Valid() && Cursor() == Fresh([], 0)
      ensures found && ListAt(region, offset, list) ==>
                Valid() && Cursor() == Fresh(list, FromLittleEndian(region[offset + 9..offset + 13]))
    {
      this.word, this.region := word, region;
      nPosts, nDocs, currLoc, postsConsumed, docOffset, locOffset, hasPending := 0, 0, 0, 0, 0, 0, false;
      posts := [];
      if found && offset + 14 <= |region| {
        var n := FromLittleEndian(region[offset..offset + 8]);
        if n <= |region| - (offset + 14) {
          nPosts, nDocs, currLoc := n, FromLittleEndian(region[offset + 9..offset + 13]), offset + 14;
          posts := list;
        }
      }
      new;
      if found && ListAt(region, offset, list) { OneBytePerPost(NO_POST, region[offset + 14..], list); }
      assert posts[0..] == posts;
    }

    /** advance_base: decode one post, whatever is pending. */
    method AdvanceBase() returns (p: Post)
      requires Valid()
      modifies `currLoc, `postsConsumed, `docOffset, `locOffset
      ensures Valid() && (Cursor(), p) == P.AdvanceBase(old(Cursor()))
    {
      hide Ascending, DecodePost;
      if postsConsumed == nPosts { return NO_POST; }
      if currLoc >= |region| {
        postsConsumed := nPosts;
        return NO_POST;
      }
      ghost var here, ahead, todo := Post(docOffset, locOffset), region[currLoc..], posts[postsConsumed..];
      var q;
      docOffset, locOffset, q := ReadPost(docOffset, locOffset, region, currLoc);
      SliceAgain(region, currLoc, q);
      assert todo[0] == posts[postsConsumed] && todo[1..] == posts[postsConsumed + 1..];
      currLoc := q;
      postsConsumed := postsConsumed + 1;
      return Post(docOffset, locOffset);
    }

    /** advance: serve the pending post, or decode the next one. */
    method Advance() returns (p: Post)
      requires Valid()
      modifies `currLoc, `postsConsumed, `docOffset, `locOffset, `hasPending
      ensures Valid() && (Cursor(), p) == P.Advance(old(Cursor()))
    {
      if hasPending {
        hasPending := false;
        return Post(docOffset, locOffset);
      }
      p := AdvanceBase();
    }

    /** advance_to: the first post at or after `doc`; a reader that ran out keeps its last document. */
    method AdvanceTo(doc: nat) returns (p: Post)
      requires Valid()
      modifies `currLoc, `postsConsumed, `docOffset, `locOffset, `hasPending
      ensures Valid() && (Cursor(), p) == P.AdvanceTo(old(Cursor()), doc)
    {
      hide Ascending, Decodes, DecodesAll;
      if hasPending {
        hasPending := false;
        if docOffset >= doc { return Post(docOffset, locOffset); }
      }
      ghost var start := Cursor();
      while docOffset < doc
        invariant Valid() && !hasPending && posts == old(posts)
        invariant P.Walk(Cursor(), doc) == P.Walk(start, doc)
        decreases Cursor().Remaining()
      {
        p := AdvanceBase();
        if p.doc == 0 { return p; }
      }
      return Post(docOffset, locOffset);
    }

    /** advance_to_next_doc */
    method AdvanceToNextDoc() returns (p: Post)
      requires Valid()
      modifies `currLoc, `postsConsumed, `docOffset, `locOffset, `hasPending
      ensures Valid() && (Cursor(), p) == P.AdvanceToNextDoc(old(Cursor()))
    {
      hide Ascending, Decodes, DecodesAll, P.AdvanceTo;
      p := AdvanceTo(docOffset + 1);
    }

    /** collect_positions_in_current_doc: appends to `start`; the post of the next document is left pending. */
    method Collect(start: seq<nat>) returns (positions: seq<nat>)
      requires Valid()
      modifies `currLoc, `postsConsumed, `docOffset, `locOffset, `hasPending
      ensures Valid()
      ensures var (c, more) := P.Collect(old(Cursor())); Cursor() == c && positions == start + more
    {
      hide Ascending, Decodes, DecodesAll, P.AdvanceBase, P.Collect, CollectInto;
      StartsCollecting(Cursor(), start);
      var currDoc := docOffset;
      positions := start + [locOffset];
      hasPending := false;
      while true
        invariant Valid() && !hasPending
        invariant CollectInto(Cursor(), currDoc, positions) == (P.Collect(old(Cursor())).0, start + P.Collect(old(Cursor())).1)
        decreases Cursor().Remaining()
      {
        CollectsOne(Cursor(), currDoc, positions);
        var p := AdvanceBase();
        if p.doc == 0 { return; }
        if p.doc != currDoc {
          hasPending := true;
          return;
        }
        positions := positions + [p.loc];
      }
    }
  }

  /** The rest of a collection whose first positions are already in `out`. */
  ghost function CollectInto(c: P.Cursor, doc: nat, out: seq<nat>): (P.Cursor, seq<nat>)
    requires c.Valid()
  {
    (P.CollectRest(c, doc).0, out + P.CollectRest(c, doc).1)
  }

  lemma StartsCollecting(c: P.Cursor, out: seq<nat>)
    requires c.Valid()
    ensures CollectInto(c.(pending := false), c.Here().doc, out + [c.Here().loc])
            == (P.Collect(c).0, out + P.Collect(c).1)
  {
    hide P.CollectRest;
    var rest := P.CollectRest(c.(pending := false), c.Here().doc).1;
    assert out + [c.Here().loc] + rest == out + ([c.Here().loc] + rest);
  }

  lemma CollectsOne(c: P.Cursor, doc: nat, out: seq<nat>)
    requires c.Valid()
    ensures var (c', p) := P.AdvanceBase(c);
            && c'.Valid() && (p.doc != 0 ==> c'.Remaining() < c.Remaining())
            && CollectInto(c, doc, out) ==
               if p.doc == 0 then (c', out)
               else if p.doc != doc then (c'.(pending := true), out)
               else CollectInto(c', doc, out + [p.loc])
  {
    var (c', p) := P.AdvanceBase(c);
    assert out + [] == out;
    assert out + [p.loc] + P.CollectRest(c', doc).1 == out + ([p.loc] + P.CollectRest(c', doc).1);
  }
}
