/**
  Posting lists as bytes (the second pass of IndexChunk::persist, advance_base of
  index_chunk/isr.cpp).  A post in a new document is a zero byte, the document
  delta and the location; a post in the same document is the location delta.
*/
module PostingCodec {
  import opened Bytes
  import opened Postings
  import opened Utf8

  const MODULUS: nat := 0x1_0000_0000

  /** Documents and locations are uint32_t. */
  ghost predicate Fits(posts: seq<Post>) {
    forall i | 0 <= i < |posts| :: posts[i].doc <= UINT32_MAX && posts[i].loc <= UINT32_MAX
  }

  /** `p` may follow `last` in a list: a later post, or the same document further on. */
  predicate Follows(last: Post, p: Post) {
    Before(last, p) && 1 <= p.loc <= UINT32_MAX && 1 <= p.doc <= UINT32_MAX
  }

  ghost predicate Chained(last: Post, posts: seq<Post>) {
    && (|posts| > 0 ==> Follows(last, posts[0]))
    && forall i | 0 < i < |posts| :: Follows(posts[i - 1], posts[i])
  }

  // ---------------------------------------------------------------- writing

  /** The bytes of one post after `last`. */
  function EncodePost(last: Post, p: Post): (r: seq<byte>)
    requires Follows(last, p)
    ensures |r| >= 1
  {
    if last.doc < p.doc then [0] + Encode(p.doc - last.doc) + Encode(p.loc)
    else Encode(p.loc - last.loc)
  }

  function EncodePosts(last: Post, posts: seq<Post>): seq<byte>
    requires Chained(last, posts)
    decreases |posts|
  {
    if posts == [] then []
    else EncodePost(last, posts[0]) + EncodePosts(posts[0], posts[1..])
  }

  /** Small steps take one byte each: a zero, the step to the document and the location, or the step on within it. */
  lemma PostBytes(last: Post, p: Post)
    requires Follows(last, p) && p.doc < last.doc + 128 && p.loc < 128
    ensures EncodePost(last, p) == if p.doc == last.doc then [p.loc - last.loc] else [0, p.doc - last.doc, p.loc]
  {
    assert Encode(p.loc) == [p.loc];
  }

  /** What the first pass reckons for the same post. */
  function SizeOfPost(last: Post, p: Post): nat
    requires Follows(last, p)
  {
    if last.doc < p.doc then 1 + SizeOfUtf8(p.doc - last.doc) + SizeOfUtf8(p.loc)
    else SizeOfUtf8(p.loc - last.loc)
  }

  function SizeOfPosts(last: Post, posts: seq<Post>): nat
    requires Chained(last, posts)
    decreases |posts|
  {
    if posts == [] then 0
    else SizeOfPost(last, posts[0]) + SizeOfPosts(posts[0], posts[1..])
  }

  /** Every value written for the list has at most 31 bits. */
  predicate DeltasSmall(last: Post, posts: seq<Post>)
    requires Chained(last, posts)
    decreases |posts|
  {
    posts == [] || (DeltaSmall(last, posts[0]) && DeltasSmall(posts[0], posts[1..]))
  }

  predicate DeltaSmall(last: Post, p: Post)
    requires Follows(last, p)
  {
    if last.doc < p.doc then p.doc - last.doc <= MAX_CODE && p.loc <= MAX_CODE
    else p.loc - last.loc <= MAX_CODE
  }

  lemma PostSize(last: Post, p: Post)
    requires Follows(last, p)
    ensures |EncodePost(last, p)| >= SizeOfPost(last, p)
    ensures |EncodePost(last, p)| == SizeOfPost(last, p) <==> DeltaSmall(last, p)
  {
    hide Encode;
    if last.doc < p.doc {
      NeverShorter(p.doc - last.doc);
      NeverShorter(p.loc);
    } else {
      NeverShorter(p.loc - last.loc);
    }
  }

  lemma NeverShorter(c: Unicode)
    ensures |Encode(c)| >= SizeOfUtf8(c)
    ensures |Encode(c)| == SizeOfUtf8(c) <==> c <= MAX_CODE
  {
    SizeIsLength(c);
    if c > MAX_CODE { FirstByteFits(REPLACEMENT, 3); }
  }

  /** The first pass's size of a list is the length the second pass writes exactly when no value written needs more than 31 bits. */
  lemma {:induction false} SizesAgree(last: Post, posts: seq<Post>)
    requires Chained(last, posts)
    ensures |EncodePosts(last, posts)| >= SizeOfPosts(last, posts)
    ensures |EncodePosts(last, posts)| == SizeOfPosts(last, posts) <==> DeltasSmall(last, posts)
    decreases |posts|
  {
    if posts != [] {
      PostSize(last, posts[0]);
      SizesAgree(posts[0], posts[1..]);
    }
  }

  /** Lists of 31-bit documents and locations are such lists. */
  lemma {:induction false} ShortIsSmall(last: Post, posts: seq<Post>)
    requires Chained(last, posts) && forall i | 0 <= i < |posts| :: posts[i].doc <= MAX_CODE && posts[i].loc <= MAX_CODE
    ensures DeltasSmall(last, posts)
    decreases |posts|
  {
    if posts != [] { ShortIsSmall(posts[0], posts[1..]); }
  }

  // ---------------------------------------------------------------- reading

  /** advance_base on the bytes ahead: the next post and how many bytes it took.  Sums wrap as uint32_t. */
  function DecodePost(here: Post, s: seq<byte>): (r: (Post, nat))
    ensures r.1 <= |s|
  {
    var (flag, n) := Decode(s);
    if flag > 0 then (Post(here.doc, (here.loc + flag) % MODULUS), n)
    else
      var (d, n1) := Decode(s[n..]);
      var (l, n2) := Decode(s[n + n1..]);
      (Post((here.doc + d) % MODULUS, l), n + n1 + n2)
  }

  /** The bytes s, read post by post from `here`, are exactly `posts` (and then whatever follows). */
  ghost predicate Decodes(here: Post, s: seq<byte>, posts: seq<Post>)
    decreases |posts|
  {
    posts == [] ||
    (s != [] && DecodePost(here, s).0 == posts[0] && Decodes(posts[0], s[DecodePost(here, s).1..], posts[1..]))
  }

  /** What the reader makes of a list: each delta as it is carried. */
  function CarryPost(last: Post, at: Post, p: Post): Post
    requires Follows(last, p)
  {
    if last.doc < p.doc then Post((at.doc + Carried(p.doc - last.doc)) % MODULUS, Carried(p.loc))
    else Post(at.doc, (at.loc + Carried(p.loc - last.loc)) % MODULUS)
  }

  function CarryPosts(last: Post, at: Post, posts: seq<Post>): seq<Post>
    requires Chained(last, posts)
    decreases |posts|
  {
    if posts == [] then []
    else
      var q := CarryPost(last, at, posts[0]);
      [q] + CarryPosts(posts[0], q, posts[1..])
  }

  lemma CarriedIsPositive(c: Unicode)
    requires c > 0
    ensures Carried(c) > 0
  {
  }

  lemma ZeroByte(rest: seq<byte>)
    ensures Decode([0] + rest) == (0, 1)
  {
  }

  lemma DecodeOne(last: Post, at: Post, p: Post, rest: seq<byte>)
    requires Follows(last, p)
    ensures DecodePost(at, EncodePost(last, p) + rest) == (CarryPost(last, at, p), |EncodePost(last, p)|)
  {
    hide Encode, Decode;
    var s := EncodePost(last, p) + rest;
    if last.doc < p.doc {
      var d, l := Encode(p.doc - last.doc), Encode(p.loc);
      assert s == [0] + (d + (l + rest));
      ZeroByte(d + (l + rest));
      assert s[1..] == d + (l + rest);
      RoundTrip(p.doc - last.doc, l + rest);
      assert s[1 + |d|..] == l + rest;
      RoundTrip(p.loc, rest);
    } else {
      RoundTrip(p.loc - last.loc, rest);
      CarriedIsPositive(p.loc - last.loc);
    }
  }

  /**
    Reading a written list gives the carried list, post for post, for every list:
    a value the code cannot carry changes posts but never the framing.
  */
  lemma {:induction false} DecodeEncoded(last: Post, at: Post, posts: seq<Post>, rest: seq<byte>)
    requires Chained(last, posts)
    ensures Decodes(at, EncodePosts(last, posts) + rest, CarryPosts(last, at, posts))
    decreases |posts|
  {
    if posts == [] {
    } else {
      hide EncodePost, DecodePost, CarryPost, Decodes;
      var one, more := EncodePost(last, posts[0]), EncodePosts(posts[0], posts[1..]);
      Regroup(one, more, rest);
      DecodeOne(last, at, posts[0], more + rest);
      AfterPrefix(one, more + rest);
      var q := CarryPost(last, at, posts[0]);
      DecodeEncoded(posts[0], q, posts[1..], rest);
      DecodesCons(at, one + (more + rest), q, CarryPosts(posts[0], q, posts[1..]));
    }
  }

  lemma Regroup(a: seq<byte>, b: seq<byte>, c: seq<byte>)
    ensures (a + b) + c == a + (b + c)
  {
  }

  lemma AfterPrefix(a: seq<byte>, b: seq<byte>)
    ensures (a + b)[|a|..] == b
  {
  }

  lemma DecodesCons(here: Post, s: seq<byte>, q: Post, more: seq<Post>)
    requires s != [] && DecodePost(here, s).0 == q && Decodes(q, s[DecodePost(here, s).1..], more)
    ensures Decodes(here, s, [q] + more)
  {
    assert ([q] + more)[1..] == more;
  }

  /** Every delta written survives the code. */
  predicate PostCarried(last: Post, p: Post)
    requires Follows(last, p)
  {
    if last.doc < p.doc then Carried(p.doc - last.doc) == p.doc - last.doc && Carried(p.loc) == p.loc
    else Carried(p.loc - last.loc) == p.loc - last.loc
  }

  predicate AllCarried(last: Post, posts: seq<Post>)
    requires Chained(last, posts)
    decreases |posts|
  {
    posts == [] || (PostCarried(last, posts[0]) && AllCarried(posts[0], posts[1..]))
  }

  /** A list comes back unchanged exactly when no delta is in a range the reader rejects. */
  lemma {:induction false} CarriedIff(last: Post, posts: seq<Post>)
    requires Chained(last, posts) && last.doc <= UINT32_MAX && last.loc <= UINT32_MAX
    ensures CarryPosts(last, last, posts) == posts <==> AllCarried(last, posts)
    decreases |posts|
  {
    if posts == [] {
    } else {
      var p := posts[0];
      var q := CarryPost(last, last, p);
      assert q == p <==> PostCarried(last, p);
      CarriedIff(p, posts[1..]);
      var carried := CarryPosts(last, last, posts);
      assert carried[0] == q && carried[1..] == CarryPosts(p, q, posts[1..]);
      assert posts == [p] + posts[1..];
    }
  }

  /** A word at location 1 and then 0xD800 further on: the second post comes back at 1 + 0xFFFD. */
  lemma SurrogateGapMoved(rest: seq<byte>)
    ensures var posts := [Post(1, 1), Post(1, 1 + 0xD800)];
            && Chained(NO_POST, posts) && !AllCarried(NO_POST, posts)
            && Decodes(NO_POST, EncodePosts(NO_POST, posts) + rest, [Post(1, 1), Post(1, 1 + 0xFFFD)])
  {
    hide Encode, Decode, EncodePost, DecodePost, Decodes, EncodePosts;
    var p, q := Post(1, 1), Post(1, 1 + 0xD800);
    var posts := [p, q];
    assert posts[1..] == [q] && [q][1..] == [];
    assert Carried(1) == 1 && Carried(0xD800) == REPLACEMENT;
    assert CarryPosts(q, Post(1, 1 + 0xFFFD), []) == [];
    assert CarryPosts(p, p, [q]) == [Post(1, 1 + 0xFFFD)];
    assert CarryPosts(NO_POST, NO_POST, posts) == [p, Post(1, 1 + 0xFFFD)];
    DecodeEncoded(NO_POST, NO_POST, posts, rest);
  }

  /** The indexer's lists are chains from "no post". */
  lemma AscendingIsChained(posts: seq<Post>)
    requires Ascending(posts) && Fits(posts)
    ensures Chained(NO_POST, posts)
  {
  }

  /** Like Decodes, but the bytes end with the list: what a reader finds when the file is cut short. */
  ghost predicate DecodesAll(here: Post, s: seq<byte>, posts: seq<Post>)
    decreases |posts|
  {
    if posts == [] then s == []
    else s != [] && DecodePost(here, s).0 == posts[0] && DecodesAll(posts[0], s[DecodePost(here, s).1..], posts[1..])
  }

  /** Every post takes at least one byte. */
  lemma {:induction false} OneBytePerPost(here: Post, s: seq<byte>, posts: seq<Post>)
    requires Decodes(here, s, posts)
    ensures |posts| <= |s|
    decreases |posts|
  {
    if posts == [] {
    } else {
      assert DecodePost(here, s).1 >= 1;
      OneBytePerPost(posts[0], s[DecodePost(here, s).1..], posts[1..]);
    }
  }
}
