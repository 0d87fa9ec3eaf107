/**
  From documents to cursors: what a loaded chunk file serves is exactly what was
  indexed (index/Index.cpp, LoadedIndex and the IndexStreamReader constructor).
*/
module ChunkIndex {
  import opened Bytes
  import opened Postings
  import opened PostingCodec
  import opened ChunkLayout
  import opened LoadedChunk
  import opened StreamReader
  import opened IndexBuilder
  import opened WordOrder
  import B = IsrBuild

  /** The index of some documents over the words of their dictionary. */
  function IndexOf(docs: seq<Doc>, words: seq<Text>): (index: B.Index)
    ensures forall w :: w in index <==> w in words
    ensures forall w | w in index :: index[w] == B.PostingList(PostsOf(docs, w), DocCount(docs, w))
  {
    map w | w in words :: B.PostingList(PostsOf(docs, w), DocCount(docs, w))
  }

  /** The loaded chunk answers every look-up with the list of `index`, standing in its region. */
  ghost predicate Serves(li: LoadedIndex, index: B.Index)
    reads li
  {
    && B.ValidIndex(index)
    && MemSorted(li.words) && |li.words| == |li.offsets|
    && (forall w :: w in index <==> w in li.words)
    && forall i | 0 <= i < |li.words| :: ServesAt(li.region, li.offsets[i], index[li.words[i]])
  }

  ghost predicate ServesAt(region: seq<byte>, offset: nat, list: B.PostingList) {
    && ListAt(region, offset, list.posts)
    && FromLittleEndian(region[offset + 9..offset + 13]) == list.nDocs
  }

  /** IndexStreamReader(word, index): look the word up and open its list. */
  method OpenReader(li: LoadedIndex, word: Text, ghost index: B.Index) returns (r: IndexStreamReader)
    requires Serves(li, index)
    ensures fresh(r) && r.Valid() && !r.hasPending && r.word == word && r.Cursor() == B.Open(index, word)
  {
    var found, at := Lookup(li.words, word);
    SearchFinds(li.words, word, 0, |li.words|);
    r := new IndexStreamReader(word, li.region, found, if found then li.offsets[at] else 0, B.ListOf(index, word).posts);
  }

  /** Every delta of every list survives the code. */
  ghost predicate Carries(docs: seq<Doc>, words: seq<Text>) {
    forall w | w in words :: Chained(NO_POST, PostsOf(docs, w)) && AllCarried(NO_POST, PostsOf(docs, w))
  }

  /** The sizes of the file fit the fields they are written in. */
  ghost predicate FileFits(docs: seq<Doc>, words: seq<Text>) {
    Writable(Listing(docs, words)) && NumbersFit(Urls(docs), Listing(docs, words))
  }

  lemma ListIsServed(docs: seq<Doc>, words: seq<Text>, i: nat)
    requires i < |words| && FileFits(docs, words) && Carries(docs, words)
    ensures var entries := Listing(docs, words);
            ServesAt(Lists(entries), ListOffset(entries, i), B.PostingList(PostsOf(docs, words[i]), DocCount(docs, words[i])))
  {
    hide PostsOf, DocCount, Lists, EncodePosts, Ascending, Decodes, AllCarried;
    var entries, posts := Listing(docs, words), PostsOf(docs, words[i]);
    assert words[i] in words;
    ListStands(entries, i);
    PostsOfExactly(docs, words[i]);
    var ahead := Lists(entries)[ListOffset(entries, i) + 14..];
    var rest := ahead[|EncodePosts(NO_POST, posts)|..];
    assert ahead == EncodePosts(NO_POST, posts) + rest;
    DecodeEncoded(NO_POST, NO_POST, posts, rest);
    CarriedIff(NO_POST, posts);
  }

  /**
    The index round trip.  Index documents, persist the chunk, load the file: the URLs
    are back, and every kept word is served with exactly its (document, location)
    posts in order and its document count; no other word is.  No two words have mixed
    signs, which is when look-ups are right, and no delta is one the reader rejects.
  */
  method LoadIndexed(file: seq<byte>, ghost docs: seq<Doc>, ghost words: seq<Text>) returns (li: LoadedIndex)
    requires ChunkFileWith(file, docs, words)
    requires forall i | 0 <= i < |docs| :: GoodDoc(docs[i]) && NEWLINE !in docs[i].url
    requires SignsAgree(words)
    requires FileFits(docs, words) && Carries(docs, words)
    ensures fresh(li) && li.urls == Urls(docs) && Serves(li, IndexOf(docs, words))
  {
    hide ChunkFileWith, FileFits, Carries, Serves, GoodDoc, Written, Lists, ListOffset, RadixSorted, SignsAgree,
      TotalPosts, PostsOf, DocCount;
    FileIsWritten(file, docs, words);
    AtLeastEightBytes(file, docs, words);
    DictionaryIsNulFree(file, docs, words);
    li := new LoadedIndex(file, Urls(docs), Listing(docs, words));
    ServesListing(li, docs, words);
  }

  lemma AtLeastEightBytes(file: seq<byte>, docs: seq<Doc>, words: seq<Text>)
    requires ChunkFileWith(file, docs, words)
    ensures |file| >= 8 && RadixSorted(words)
  {
    hide Lists, Dictionary, Toc, UrlTable, RadixSorted;
  }

  lemma DictionaryIsNulFree(file: seq<byte>, docs: seq<Doc>, words: seq<Text>)
    requires ChunkFileWith(file, docs, words) && forall i | 0 <= i < |docs| :: GoodDoc(docs[i])
    ensures forall i | 0 <= i < |words| :: NulFree(words[i])
  {
    hide FileBytes, PostsOf, DocCount, NumbersFit, RadixSorted;
    OccurringIsNulFree(docs, words);
  }

  lemma FileIsWritten(file: seq<byte>, docs: seq<Doc>, words: seq<Text>)
    requires ChunkFileWith(file, docs, words) && FileFits(docs, words)
    requires forall i | 0 <= i < |docs| :: GoodDoc(docs[i]) && NEWLINE !in docs[i].url
    ensures Written(file, Urls(docs), Listing(docs, words))
  {
    hide FileBytes, PostsOf, DocCount, NumbersFit, RadixSorted;
    OccurringIsNulFree(docs, words);
    assert forall i | 0 <= i < |words| :: words[i] in words;
  }

  lemma ServesListing(li: LoadedIndex, docs: seq<Doc>, words: seq<Text>)
    requires RadixSorted(words) && SignsAgree(words) && forall i | 0 <= i < |words| :: NulFree(words[i])
    requires FileFits(docs, words) && Carries(docs, words)
    requires li.region == Lists(Listing(docs, words)) && |li.words| == |li.offsets| == |words|
    requires forall i | 0 <= i < |words| :: li.words[i] == words[i] && li.offsets[i] == ListOffset(Listing(docs, words), i)
    ensures Serves(li, IndexOf(docs, words))
  {
    hide PostsOf, DocCount, Lists, ListOffset, ServesAt, Ascending, FileFits, RadixSorted;
    assert li.words == words;
    assert forall i | 0 <= i < |words| :: words[i] in words;
    RadixSortedIsMemSorted(words);
    forall i | 0 <= i < |words|
      ensures ServesAt(li.region, li.offsets[i], IndexOf(docs, words)[li.words[i]])
    {
      ListIsServed(docs, words, i);
    }
    forall w | w in words ensures Ascending(PostsOf(docs, w)) { PostsOfExactly(docs, w); }
  }
}
