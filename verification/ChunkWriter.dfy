/**
  IndexChunk::persist (index/Index.cpp): two passes over the sorted entries, the
  first to lay the file out, the second to write it.
*/
module ChunkWriter {
  import opened Bytes
  import opened Utf8
  import opened Postings
  import opened PostingCodec
  import opened ChunkLayout

  const NO_ENTRY: nat := 0xFFFF_FFFF_FFFF_FFFF

  /** What persist is given: kept words in dictionary order, lists of 31-bit deltas, sizes that fit size_t. */
  ghost predicate Layable(entries: seq<Entry>) {
    && Writable(entries)
    && (forall i | 0 <= i < |entries| :: Kept(entries[i].word) && DeltasSmall(NO_POST, entries[i].posts))
    && (forall i, j | 0 <= i < j < |entries| :: entries[i].word[0] <= entries[j].word[0])
    && LineOffset(entries, |entries|) < NO_ENTRY
  }

  // ---------------------------------------------------------------- first pass

  /** Bytes the first pass reserves for one list: header, posts, newline. */
  method SizeList(posts: seq<Post>) returns (size: nat)
    requires Chained(NO_POST, posts)
    ensures size == 14 + SizeOfPosts(NO_POST, posts) + 1
  {
    size := 6 + 6 + 2;
    var lastDoc, lastLoc := 0, 0;
    for i := 0 to |posts|
      invariant Post(lastDoc, lastLoc) == if i == 0 then NO_POST else posts[i - 1]
      invariant Chained(Post(lastDoc, lastLoc), posts[i..])
      invariant size + SizeOfPosts(Post(lastDoc, lastLoc), posts[i..]) == 14 + SizeOfPosts(NO_POST, posts)
    {
      ghost var ahead := posts[i..];
      var p := posts[i];
      assert ahead[0] == p && ahead[1..] == posts[i + 1..] && Follows(Post(lastDoc, lastLoc), p);
      if p.doc > lastDoc {
        size := size + 1 + SizeOfUtf8(p.doc - lastDoc);
        lastDoc, lastLoc := p.doc, 0;
      }
      size := size + SizeOfUtf8(p.loc - lastLoc);
      lastLoc := p.loc;
    }
    size := size + 1;
  }

  lemma ListSize(e: Entry)
    requires Chained(NO_POST, e.posts) && DeltasSmall(NO_POST, e.posts)
    ensures |ListBytes(e)| == 14 + SizeOfPosts(NO_POST, e.posts) + 1
  {
    SizesAgree(NO_POST, e.posts);
  }

  /** One more list moves the offset by what the first pass reserves for it. */
  lemma NextListOffset(entries: seq<Entry>, i: nat)
    requires Layable(entries) && i < |entries|
    ensures Writable(entries) && Chained(NO_POST, entries[i].posts)
    ensures ListOffset(entries, i + 1) == ListOffset(entries, i) + 14 + SizeOfPosts(NO_POST, entries[i].posts) + 1
  {
    hide Chained, ListBytes;
    ListSize(entries[i]);
    assert entries[..i + 1][..i] == entries[..i];
  }

  lemma EntryIsChained(entries: seq<Entry>, i: nat)
    requires Layable(entries) && i < |entries|
    ensures Chained(NO_POST, entries[i].posts)
  {
  }

  lemma FirstPassStarts(entries: seq<Entry>)
    requires Layable(entries)
    ensures Writable(entries) && ListOffset(entries, 0) == 0 && LineOffset(entries, 0) == 0
    ensures forall j | 0 <= j < |entries| :: entries[j].word != []
    ensures forall s | 0 <= s < DICT_SLOTS :: SlotSoFar(entries, 0, s) == NO_ENTRY
  {
    hide Chained;
  }

  /** The offset the first pass gives to a slot so far: of the first of `n` entries with just this character. */
  function FirstWith(entries: seq<Entry>, n: nat, c: byte): (r: nat)
    requires n <= |entries| && forall j | 0 <= j < |entries| :: entries[j].word != []
    ensures r <= n && (r < n ==> entries[r].word[0] == c) && forall j | 0 <= j < r :: entries[j].word[0] != c
  {
    if n == 0 then 0
    else
      var r := FirstWith(entries, n - 1, c);
      if r < n - 1 then r else if entries[n - 1].word[0] == c then n - 1 else n
  }

  function SlotSoFar(entries: seq<Entry>, n: nat, slot: nat): nat
    requires n <= |entries| && slot < DICT_SLOTS && forall j | 0 <= j < |entries| :: entries[j].word != []
  {
    var r := FirstWith(entries, n, SlotChar(slot));
    if r < n then LineOffset(entries, r) else NO_ENTRY
  }

  lemma {:induction false} LineOffsetGrows(entries: seq<Entry>, i: nat, j: nat)
    requires i <= j <= |entries|
    ensures LineOffset(entries, i) <= LineOffset(entries, j)
    decreases j
  {
    if i < j { LineOffsetGrows(entries, i, j - 1); }
  }

  /**
    The first pass: where every list will begin, where every slot's first word
    begins, and how long the dictionary will be.
  */
  method FirstPass(entries: seq<Entry>) returns (locations: seq<nat>, slots: seq<nat>, dictSize: nat)
    requires Layable(entries)
    ensures |locations| == |entries| && forall i | 0 <= i < |entries| :: locations[i] == ListOffset(entries, i)
    ensures |slots| == DICT_SLOTS && forall s | 0 <= s < DICT_SLOTS :: slots[s] == SlotSoFar(entries, |entries|, s)
    ensures dictSize == LineOffset(entries, |entries|)
  {
    hide ListOffset, ListBytes, Chained, SizeOfPosts, SlotSoFar, FirstWith, Writable;
    FirstPassStarts(entries);
    locations, dictSize := [], 0;
    var listSize := 0;
    slots := seq(DICT_SLOTS, _ => NO_ENTRY);
    for i := 0 to |entries|
      invariant |locations| == i && forall j | 0 <= j < i :: locations[j] == ListOffset(entries, j)
      invariant |slots| == DICT_SLOTS && forall s | 0 <= s < DICT_SLOTS :: slots[s] == SlotSoFar(entries, i, s)
      invariant dictSize == LineOffset(entries, i)
      invariant listSize == ListOffset(entries, i)
    {
      var first := entries[i].word[0];
      var slot := if first >= 97 then first - 97 else 26 + (first - 48);
      assert SlotChar(slot) == first;
      SlotStep(entries, i, slot, slots);
      if slots[slot] == NO_ENTRY { slots := slots[slot := dictSize]; }
      dictSize := dictSize + |entries[i].word| + 1 + 8 + 1;
      locations := locations + [listSize];
      EntryIsChained(entries, i);
      var size := SizeList(entries[i].posts);
      NextListOffset(entries, i);
      listSize := listSize + size;
    }
  }

  /** Only the slot of entry i can change when entry i is looked at, and only if it is still empty. */
  lemma SlotStep(entries: seq<Entry>, i: nat, slot: nat, slots: seq<nat>)
    requires Layable(entries) && i < |entries| && slot < DICT_SLOTS && SlotChar(slot) == entries[i].word[0]
    requires |slots| == DICT_SLOTS && forall s | 0 <= s < DICT_SLOTS :: slots[s] == SlotSoFar(entries, i, s)
    ensures forall s | 0 <= s < DICT_SLOTS ::
              SlotSoFar(entries, i + 1, s) ==
              if s == slot && slots[slot] == NO_ENTRY then LineOffset(entries, i) else slots[s]
  {
    hide Chained;
    forall s | 0 <= s < DICT_SLOTS
      ensures SlotSoFar(entries, i + 1, s) ==
              if s == slot && slots[slot] == NO_ENTRY then LineOffset(entries, i) else slots[s]
    {
      var r := FirstWith(entries, i, SlotChar(s));
      LineOffsetGrows(entries, r, |entries|);
      assert s != slot ==> SlotChar(s) != SlotChar(slot);
    }
  }

  // ---------------------------------------------------------------- filling gaps

  /** With the words in order, the first word with character c is also the first at or after it. */
  lemma ExactIsFirst(entries: seq<Entry>, c: byte)
    requires Layable(entries)
    ensures forall j | 0 <= j < |entries| :: entries[j].word != []
    ensures var r := FirstWith(entries, |entries|, c);
            r < |entries| ==> FirstAtOrAfter(entries, c, 0) == r
  {
    hide Chained;
    var r := FirstWith(entries, |entries|, c);
    var f := FirstAtOrAfter(entries, c, 0);
    if r < |entries| {
      assert f <= r;
    }
  }

  /** No word begins with a character from c up to d: both have the same first word at or after them. */
  lemma EmptyRange(entries: seq<Entry>, c: byte, d: byte)
    requires Layable(entries) && c <= d
    requires forall j | 0 <= j < |entries| :: entries[j].word[0] < c || d <= entries[j].word[0]
    ensures FirstAtOrAfter(entries, c, 0) == FirstAtOrAfter(entries, d, 0)
  {
    hide Chained;
  }

  /** An empty slot takes over the next greater slot's offset. */
  method FillGaps(entries: seq<Entry>, start: seq<nat>, dictSize: nat) returns (slots: seq<nat>)
    requires Layable(entries) && dictSize == LineOffset(entries, |entries|)
    requires |start| == DICT_SLOTS && forall s | 0 <= s < DICT_SLOTS :: start[s] == SlotSoFar(entries, |entries|, s)
    ensures |slots| == DICT_SLOTS && forall s | 0 <= s < DICT_SLOTS :: slots[s] == SlotOffset(entries, s)
  {
    hide Chained, LineOffset, SlotOffset, SlotSoFar, FirstAtOrAfter;
    slots := start;
    var fill := dictSize;
    NothingAfterZ(entries);
    var i := 26;
    while i > 0
      invariant 0 <= i <= 26 && |slots| == DICT_SLOTS
      invariant fill == LineOffset(entries, FirstAtOrAfter(entries, 97 + i, 0))
      invariant forall s | 0 <= s < DICT_SLOTS :: slots[s] == if i <= s < 26 then SlotOffset(entries, s) else start[s]
    {
      i := i - 1;
      SlotFill(entries, i, 97 + i + 1);
      if slots[i] == NO_ENTRY { slots := slots[i := fill]; } else { fill := slots[i]; }
    }
    NothingBetween9AndA(entries);
    i := 36;
    while i > 26
      invariant 26 <= i <= 36 && |slots| == DICT_SLOTS
      invariant fill == LineOffset(entries, FirstAtOrAfter(entries, 48 + (i - 26), 0))
      invariant forall s | 0 <= s < DICT_SLOTS :: slots[s] == if s < 26 || i <= s then SlotOffset(entries, s) else start[s]
    {
      i := i - 1;
      SlotFill(entries, i, 48 + (i - 26) + 1);
      if slots[i] == NO_ENTRY { slots := slots[i := fill]; } else { fill := slots[i]; }
    }
  }

  lemma NothingAfterZ(entries: seq<Entry>)
    requires Layable(entries)
    ensures forall j | 0 <= j < |entries| :: entries[j].word != []
    ensures FirstAtOrAfter(entries, 123, 0) == |entries|
  {
    hide Chained;
  }

  lemma NothingBetween9AndA(entries: seq<Entry>)
    requires Layable(entries)
    ensures FirstAtOrAfter(entries, 58, 0) == FirstAtOrAfter(entries, 97, 0)
  {
    hide Chained;
    EmptyRange(entries, 58, 97);
  }

  /** A slot's own offset if it has words, the next character's otherwise. */
  lemma SlotFill(entries: seq<Entry>, slot: nat, next: byte)
    requires Layable(entries) && slot < DICT_SLOTS && next == SlotChar(slot) + 1
    ensures forall j | 0 <= j < |entries| :: entries[j].word != []
    ensures SlotOffset(entries, slot) == LineOffset(entries, FirstAtOrAfter(entries, SlotChar(slot), 0))
    ensures SlotOffset(entries, slot) ==
            if SlotSoFar(entries, |entries|, slot) == NO_ENTRY then LineOffset(entries, FirstAtOrAfter(entries, next, 0))
            else SlotSoFar(entries, |entries|, slot)
  {
    hide Chained;
    var c := SlotChar(slot);
    var r := FirstWith(entries, |entries|, c);
    LineOffsetGrows(entries, r, |entries|);
    if r < |entries| { ExactIsFirst(entries, c); } else { EmptyRange(entries, c, next); }
  }

  // ---------------------------------------------------------------- second pass

  /** Writes one list: header, posts, newline. */
  method WriteList(e: Entry) returns (out: seq<byte>)
    requires Chained(NO_POST, e.posts)
    ensures out == ListBytes(e)
  {
    out := LittleEndian(|e.posts|, 8) + [SPACE] + LittleEndian(e.nDocs, 4) + [NEWLINE];
    var posts := WritePosts(e.posts);
    out := out + posts + [NEWLINE];
  }

  /** The delta loop: the document delta only when the document is new, then the location delta. */
  method WritePosts(posts: seq<Post>) returns (out: seq<byte>)
    requires Chained(NO_POST, posts)
    ensures out == EncodePosts(NO_POST, posts)
  {
    hide Encode, EncodePosts, EncodePost, Chained;
    out := [];
    var lastDoc, lastLoc := 0, 0;
    assert posts[0..] == posts;
    for i := 0 to |posts|
      invariant Chained(Post(lastDoc, lastLoc), posts[i..])
      invariant out + EncodePosts(Post(lastDoc, lastLoc), posts[i..]) == EncodePosts(NO_POST, posts)
    {
      EncodeStep(Post(lastDoc, lastLoc), posts, i);
      var p := posts[i];
      var bytes := WritePost(lastDoc, lastLoc, p);
      assert out + (bytes + EncodePosts(p, posts[i + 1..])) == (out + bytes) + EncodePosts(p, posts[i + 1..]);
      out := out + bytes;
      lastDoc, lastLoc := p.doc, p.loc;
    }
    NothingToEncode(Post(lastDoc, lastLoc), posts);
  }

  lemma EncodeStep(last: Post, posts: seq<Post>, i: nat)
    requires i < |posts| && Chained(last, posts[i..])
    ensures Follows(last, posts[i]) && Chained(posts[i], posts[i + 1..])
    ensures EncodePosts(last, posts[i..]) == EncodePost(last, posts[i]) + EncodePosts(posts[i], posts[i + 1..])
  {
    hide EncodePost;
    var ahead := posts[i..];
    assert ahead[0] == posts[i] && ahead[1..] == posts[i + 1..];
  }

  lemma NothingToEncode(last: Post, posts: seq<Post>)
    requires Chained(last, posts[|posts|..])
    ensures EncodePosts(last, posts[|posts|..]) == []
  {
  }

  method WritePost(lastDoc: nat, startLoc: nat, p: Post) returns (bytes: seq<byte>)
    requires Follows(Post(lastDoc, startLoc), p)
    ensures bytes == EncodePost(Post(lastDoc, startLoc), p)
  {
    hide Encode;
    var lastLoc := startLoc;
    bytes := [];
    if p.doc > lastDoc {
      bytes := [0] + Encode(p.doc - lastDoc);
      lastLoc := 0;
    }
    bytes := bytes + Encode(p.loc - lastLoc);
  }

  method WriteUrls(urls: seq<Text>) returns (out: seq<byte>)
    ensures out == UrlTable(urls)
  {
    out := [];
    for i := 0 to |urls|
      invariant out == UrlTable(urls[..i])
    {
      assert urls[..i + 1][..i] == urls[..i];
      out := out + (LittleEndian(i + 1, 4) + [SPACE] + urls[i] + [NEWLINE]);
    }
    assert urls[..|urls|] == urls;
  }

  method WriteToc(entries: seq<Entry>, slots: seq<nat>) returns (out: seq<byte>)
    requires forall j | 0 <= j < |entries| :: entries[j].word != []
    requires |slots| == DICT_SLOTS && forall s | 0 <= s < DICT_SLOTS :: slots[s] == SlotOffset(entries, s)
    ensures out == Toc(entries, DICT_SLOTS)
  {
    hide SlotOffset;
    out := [];
    for i := 0 to DICT_SLOTS
      invariant out == Toc(entries, i)
    {
      var c: byte := if i < 26 then i + 97 else (i - 26) + 48;
      out := out + ([c] + [SPACE] + LittleEndian(slots[i], 8) + [NEWLINE]);
    }
  }

  method WriteDictionary(entries: seq<Entry>, locations: seq<nat>) returns (out: seq<byte>)
    requires Writable(entries)
    requires |locations| == |entries| && forall i | 0 <= i < |entries| :: locations[i] == ListOffset(entries, i)
    ensures out == Dictionary(entries, |entries|)
  {
    hide Chained, ListOffset;
    out := [];
    for i := 0 to |entries|
      invariant out == Dictionary(entries, i)
    {
      out := out + (entries[i].word + [SPACE] + LittleEndian(locations[i], 8) + [NEWLINE]);
    }
  }

  /** The drift check of the second pass: each list begins where the first pass said. */
  method WriteLists(entries: seq<Entry>, ghost locations: seq<nat>) returns (out: seq<byte>)
    requires Writable(entries)
    requires |locations| == |entries| && forall i | 0 <= i < |entries| :: locations[i] == ListOffset(entries, i)
    ensures out == Lists(entries)
  {
    hide ListBytes, Chained;
    out := [];
    for i := 0 to |entries|
      invariant out == Lists(entries[..i])
    {
      assert |out| == locations[i];
      assert entries[..i + 1][..i] == entries[..i];
      var list := WriteList(entries[i]);
      out := out + list;
    }
    assert entries[..|entries|] == entries;
  }

  /** IndexChunk::persist: the file laid out by the first pass is the file the second pass writes. */
  method Persist(urls: seq<Text>, entries: seq<Entry>) returns (file: seq<byte>)
    requires Layable(entries)
    ensures Writable(entries) && forall j | 0 <= j < |entries| :: entries[j].word != []
    ensures file == FileBytes(urls, entries)
  {
    hide Chained, Layable, ListOffset, SlotOffset, SlotSoFar, Dictionary, Toc, UrlTable, Lists, LittleEndian;
    FirstPassStarts(entries);
    var urlTable := WriteUrls(urls);
    var locations, slots, dictSize := FirstPass(entries);
    slots := FillGaps(entries, slots, dictSize);
    var toc := WriteToc(entries, slots);
    var dictionary := WriteDictionary(entries, locations);
    var lists := WriteLists(entries, locations);
    file := LittleEndian(|urlTable|, 8) + [NEWLINE] + urlTable + [NEWLINE] + toc + [NEWLINE] + dictionary + [NEWLINE] + lists;
  }
}
