/**
  IndexChunk (index/Index.h, index/Index.cpp): turning documents into posting
  lists, and flushing a full chunk to a file.
*/
module IndexBuilder {
  import opened Bytes
  import opened Postings
  import opened PostingCodec
  import opened ChunkLayout
  import opened RadixSort
  import opened WordOrder
  import Utf8
  import ChunkWriter

  const DOCS_PER_INDEX_CHUNK: nat := 500000
  const CHUNK_MEM_BUDGET: nat := 0x2000_0000
  const SIZEOF_POST: nat := 8

  /** "<title>\n" and "</title>\n" */
  const TITLE_OPEN: Text := [60, 116, 105, 116, 108, 101, 62, 10]
  const TITLE_CLOSE: Text := [60, 47, 116, 105, 116, 108, 101, 62, 10]

  /** One document of the parser's output: its URL line and its word lines, each as fgets leaves it. */
  datatype Document = Document(url: Text, lines: seq<Text>)

  /** A document as it is indexed: URL and accepted words in order. */
  datatype Doc = Doc(url: Text, words: seq<Text>)

  datatype PostingsEntry = PostingsEntry(posts: seq<Post>, nDocs: nat)

  // ---------------------------------------------------------------- what the index of some documents is

  /** The places of w among the first k words of document n. */
  function PostsIn(words: seq<Text>, n: nat, w: Text, k: nat): seq<Post>
    requires k <= |words|
  {
    if k == 0 then []
    else PostsIn(words, n, w, k - 1) + (if words[k - 1] == w then [Post(n, k)] else [])
  }

  /** Every place of w, documents numbered from 1, words of a document numbered from 1. */
  function PostsOf(docs: seq<Doc>, w: Text): seq<Post> {
    if docs == [] then []
    else
      var last := docs[|docs| - 1];
      PostsOf(docs[..|docs| - 1], w) + PostsIn(last.words, |docs|, w, |last.words|)
  }

  /** How many documents w occurs in. */
  function DocCount(docs: seq<Doc>, w: Text): nat {
    if docs == [] then 0
    else DocCount(docs[..|docs| - 1], w) + (if w in docs[|docs| - 1].words then 1 else 0)
  }

  ghost predicate Occurs(docs: seq<Doc>, w: Text) {
    exists i | 0 <= i < |docs| :: w in docs[i].words
  }

  lemma {:induction false} PostsInExactly(words: seq<Text>, n: nat, w: Text, k: nat)
    requires k <= |words| && 1 <= n
    ensures forall p :: p in PostsIn(words, n, w, k) <==> p.doc == n && 1 <= p.loc <= k && words[p.loc - 1] == w
    ensures Ascending(PostsIn(words, n, w, k))
  {
    if k > 0 {
      hide Ascending;
      PostsInExactly(words, n, w, k - 1);
      var before := PostsIn(words, n, w, k - 1);
      if words[k - 1] == w {
        OneIsAscending(Post(n, k));
        Appended(before, [Post(n, k)]);
      }
    } else {
      NoneIsAscending();
    }
  }

  lemma NoneIsAscending()
    ensures Ascending([])
  {
  }

  lemma OneIsAscending(p: Post)
    requires 1 <= p.doc && 1 <= p.loc
    ensures Ascending([p])
  {
  }

  lemma Appended(a: seq<Post>, b: seq<Post>)
    requires Ascending(a) && Ascending(b) && forall p, q | p in a && q in b :: Before(p, q)
    ensures Ascending(a + b)
  {
    assert forall i | 0 <= i < |a| :: a[i] in a;
    assert forall i | 0 <= i < |b| :: b[i] in b;
  }

  lemma PostsOfLast(docs: seq<Doc>, w: Text)
    requires docs != []
    ensures var n := |docs|;
            PostsOf(docs, w) == PostsOf(docs[..n - 1], w) + PostsIn(docs[n - 1].words, n, w, |docs[n - 1].words|)
  {
  }

  /** The list of a word is exactly its places, in order, once each. */
  lemma {:induction false} PostsOfExactly(docs: seq<Doc>, w: Text)
    ensures forall p :: p in PostsOf(docs, w) <==>
              1 <= p.doc <= |docs| && 1 <= p.loc <= |docs[p.doc - 1].words| && docs[p.doc - 1].words[p.loc - 1] == w
    ensures Ascending(PostsOf(docs, w))
  {
    if docs != [] {
      hide Ascending, PostsIn;
      var n := |docs|;
      var before, here := PostsOf(docs[..n - 1], w), PostsIn(docs[n - 1].words, n, w, |docs[n - 1].words|);
      PostsOfExactly(docs[..n - 1], w);
      PostsInExactly(docs[n - 1].words, n, w, |docs[n - 1].words|);
      Appended(before, here);
      PostsOfLast(docs, w);
    } else {
      NoneIsAscending();
    }
  }

  lemma SomeMember(s: seq<Post>)
    ensures s == [] || s[0] in s
  {
  }

  lemma {:induction false} AbsentWord(docs: seq<Doc>, w: Text)
    requires !Occurs(docs, w)
    ensures PostsOf(docs, w) == [] && DocCount(docs, w) == 0
  {
    if docs != [] {
      hide Ascending;
      var n := |docs|;
      var ds := docs[..n - 1];
      assert w !in docs[n - 1].words;
      assert forall i | 0 <= i < |ds| :: ds[i] == docs[i];
      AbsentWord(ds, w);
      PostsInExactly(docs[n - 1].words, n, w, |docs[n - 1].words|);
      var here := PostsIn(docs[n - 1].words, n, w, |docs[n - 1].words|);
      SomeMember(here);
    }
  }

  // ---------------------------------------------------------------- accepting lines

  /** The word of a line, without its newline; none for tags, empty lines and lines with a delimiter inside. */
  predicate Accepted(line: Text) {
    && line != TITLE_OPEN && line != TITLE_CLOSE
    && |line| > 1
    && Clean(line[..|line| - 1])
  }

  function AcceptedWords(lines: seq<Text>): seq<Text> {
    if lines == [] then []
    else
      var last := lines[|lines| - 1];
      AcceptedWords(lines[..|lines| - 1]) + (if Accepted(last) then [last[..|last| - 1]] else [])
  }

  lemma NoLineWords(lines: seq<Text>)
    ensures AcceptedWords(lines[..0]) == [] && lines[..|lines|] == lines
  {
  }

  lemma NextLineWords(lines: seq<Text>, i: nat)
    requires i < |lines|
    ensures AcceptedWords(lines[..i + 1]) ==
            if Accepted(lines[i]) then AcceptedWords(lines[..i]) + [lines[i][..|lines[i]| - 1]]
            else AcceptedWords(lines[..i])
  {
    assert lines[..i + 1][..i] == lines[..i];
  }

  /** The URL without its newline. */
  function UrlOf(line: Text): Text {
    if line != [] && line[|line| - 1] == NEWLINE then line[..|line| - 1] else line
  }

  lemma {:induction false} AcceptedWordsAreClean(lines: seq<Text>)
    ensures |AcceptedWords(lines)| <= |lines|
    ensures forall i | 0 <= i < |AcceptedWords(lines)| :: AcceptedWords(lines)[i] != [] && Clean(AcceptedWords(lines)[i])
  {
    if lines != [] { AcceptedWordsAreClean(lines[..|lines| - 1]); }
  }

  /** Neither "<title>" nor "</title>", and without a zero byte, tab, newline or space. */
  predicate PlainLine(w: Text) {
    && w != [60, 116, 105, 116, 108, 101, 62] && w != [60, 47, 116, 105, 116, 108, 101, 62]
    && forall i | 0 <= i < |w| :: w[i] !in [0, 9, 10, 32]
  }

  /** A line gives its word exactly when it has one and is plain, down to a word of one byte. */
  lemma LineGivesWord(lines: seq<Text>, w: Text)
    ensures AcceptedWords(lines + [w + [10]]) == AcceptedWords(lines) + if w != [] && PlainLine(w) then [w] else []
  {
    var line := w + [10];
    assert (lines + [line])[..|lines|] == lines;
    assert line[..|w|] == w;
    assert TITLE_OPEN == [60, 116, 105, 116, 108, 101, 62] + [10] && TITLE_CLOSE == [60, 47, 116, 105, 116, 108, 101, 62] + [10];
    SameBeforeNewline(w, [60, 116, 105, 116, 108, 101, 62]);
    SameBeforeNewline(w, [60, 47, 116, 105, 116, 108, 101, 62]);
  }

  lemma SameBeforeNewline(v: Text, w: Text)
    ensures v + [10] == w + [10] <==> v == w
  {
    assert (v + [10])[..|v|] == v && (w + [10])[..|w|] == w;
  }

  /** And the URL line its URL, with a newline or without. */
  lemma LineGivesUrl(url: Text)
    ensures UrlOf(url + [10]) == url
    ensures (url == [] || url[|url| - 1] != 10) ==> UrlOf(url) == url
  {
    assert (url + [10])[..|url|] == url;
  }

  /** The loop over the bytes of a word that looks for a delimiter. */
  method HasDelimiter(word: Text) returns (reject: bool)
    ensures reject <==> !Clean(word)
  {
    reject := false;
    for i := 0 to |word|
      invariant !reject && forall j | 0 <= j < i :: !Delimiter(word[j])
    {
      if Delimiter(word[i]) { return true; }
    }
  }

  // ---------------------------------------------------------------- the index and the documents it holds

  /** `index` holds exactly the lists and counts of `docs`. */
  ghost predicate Indexes(index: map<Text, PostingsEntry>, docs: seq<Doc>) {
    forall w :: (w in index <==> Occurs(docs, w))
                && (w in index ==> index[w] == PostingsEntry(PostsOf(docs, w), DocCount(docs, w)))
  }

  /** One more word of the last document. */
  lemma OneMoreWord(docs: seq<Doc>, d: Doc, w: Text, x: Text)
    ensures var before, after := docs + [d], docs + [Doc(d.url, d.words + [w])];
            && PostsOf(after, x) == PostsOf(before, x) + (if x == w then [Post(|docs| + 1, |d.words| + 1)] else [])
            && DocCount(after, x) == DocCount(before, x) + (if x == w && w !in d.words then 1 else 0)
            && (Occurs(after, x) <==> Occurs(before, x) || x == w)
  {
    hide PostsIn, Occurs;
    var before, after := docs + [d], docs + [Doc(d.url, d.words + [w])];
    assert before[..|docs|] == docs == after[..|docs|];
    OneMorePlace(d.words, w, |docs| + 1, x);
    OneMoreOccurs(docs, d, w, x);
  }

  lemma OneMorePlace(words: seq<Text>, w: Text, n: nat, x: Text)
    ensures PostsIn(words + [w], n, x, |words| + 1) == PostsIn(words, n, x, |words|) + if x == w then [Post(n, |words| + 1)] else []
  {
    SameStart(words, [w], n, x, |words|);
  }

  lemma OneMoreOccurs(docs: seq<Doc>, d: Doc, w: Text, x: Text)
    ensures Occurs(docs + [Doc(d.url, d.words + [w])], x) <==> Occurs(docs + [d], x) || x == w
  {
    var before, after := docs + [d], docs + [Doc(d.url, d.words + [w])];
    if Occurs(before, x) {
      var i :| 0 <= i < |before| && x in before[i].words;
      assert x in after[i].words;
    }
    if x == w { assert x in after[|docs|].words; }
    if Occurs(after, x) {
      var i :| 0 <= i < |after| && x in after[i].words;
      assert x != w ==> x in before[i].words;
    }
  }

  lemma {:induction false} SameStart(words: seq<Text>, more: seq<Text>, n: nat, w: Text, k: nat)
    requires k <= |words|
    ensures PostsIn(words + more, n, w, k) == PostsIn(words, n, w, k)
  {
    if k > 0 { SameStart(words, more, n, w, k - 1); }
  }

  /** A document without words yet adds nothing. */
  lemma EmptyDocAddsNothing(index: map<Text, PostingsEntry>, docs: seq<Doc>, url: Text)
    ensures Indexes(index, docs) <==> Indexes(index, docs + [Doc(url, [])])
  {
    var after := docs + [Doc(url, [])];
    forall w ensures (Occurs(after, w) <==> Occurs(docs, w)) && PostsOf(after, w) == PostsOf(docs, w) && DocCount(after, w) == DocCount(docs, w) {
      EmptyDocLacks(docs, url, w);
    }
  }

  lemma EmptyDocLacks(docs: seq<Doc>, url: Text, w: Text)
    ensures var after := docs + [Doc(url, [])];
            (Occurs(after, w) <==> Occurs(docs, w)) && PostsOf(after, w) == PostsOf(docs, w) && DocCount(after, w) == DocCount(docs, w)
  {
    var after := docs + [Doc(url, [])];
    assert after[..|docs|] == docs;
    if Occurs(docs, w) {
      var i :| 0 <= i < |docs| && w in docs[i].words;
      assert w in after[i].words;
    }
    if Occurs(after, w) {
      var i :| 0 <= i < |after| && w in after[i].words;
      assert w in docs[i].words;
    }
  }

  // ---------------------------------------------------------------- the chunk under construction

  /** Indexing one more word of the document under way, as index_file does. */
  lemma IndexesOneMore(before: map<Text, PostingsEntry>, after: map<Text, PostingsEntry>, docs: seq<Doc>, d: Doc, w: Text)
    requires Indexes(before, docs + [d])
    requires var e := if w in before then before[w] else PostingsEntry([], 0);
             after == before[w := PostingsEntry(e.posts + [Post(|docs| + 1, |d.words| + 1)],
                                                e.nDocs + (if w in d.words then 0 else 1))]
    ensures Indexes(after, docs + [Doc(d.url, d.words + [w])])
  {
    hide PostsOf, DocCount, Occurs;
    if w !in before { AbsentWord(docs + [d], w); }
    forall x
      ensures (x in after <==> Occurs(docs + [Doc(d.url, d.words + [w])], x))
      ensures x in after ==>
                after[x] == PostingsEntry(PostsOf(docs + [Doc(d.url, d.words + [w])], x),
                                          DocCount(docs + [Doc(d.url, d.words + [w])], x))
    {
      OneMoreWord(docs, d, w, x);
    }
  }

  /** `file` is the chunk file of some documents. */
  ghost predicate IsChunkFile(file: seq<byte>, docs: seq<Doc>) {
    exists words: seq<Text> :: ChunkFileWith(file, docs, words)
  }

  ghost predicate ChunkFileWith(file: seq<byte>, docs: seq<Doc>, words: seq<Text>) {
    && RadixSorted(words)
    && (forall w :: w in words <==> Occurs(docs, w) && Kept(w))
    && (forall i | 0 <= i < |words| :: words[i] != [])
    && Writable(Listing(docs, words))
    && file == FileBytes(Urls(docs), Listing(docs, words))
  }

  /** A document as the indexer holds it: it has a URL, and words without delimiters, which 32 bits can number. */
  ghost predicate GoodDoc(d: Doc) {
    && d.url != [] && |d.words| <= UINT32_MAX
    && forall i | 0 <= i < |d.words| :: d.words[i] != [] && Clean(d.words[i])
  }

  function AllWords(docs: seq<Doc>): seq<Text> {
    if docs == [] then [] else AllWords(docs[..|docs| - 1]) + docs[|docs| - 1].words
  }

  /** What dictionary lines for these words would take. */
  function WordBytes(ws: seq<Text>): nat {
    if ws == [] then 0 else WordBytes(ws[..|ws| - 1]) + |ws[|ws| - 1]| + 10
  }

  /** Even a line for every single word would leave the dictionary's length within size_t. */
  predicate SizesFit(docs: seq<Doc>) {
    WordBytes(AllWords(docs)) < ChunkWriter.NO_ENTRY
  }

  /** From each place of a word to its next, no document or location delta needs more than 31 bits. */
  ghost predicate GapsFit(docs: seq<Doc>) {
    forall w | Occurs(docs, w) && Kept(w) :: Chained(NO_POST, PostsOf(docs, w)) && DeltasSmall(NO_POST, PostsOf(docs, w))
  }

  /** Documents of fewer than two to the 31 words have no other gaps. */
  lemma ShortDocsFit(docs: seq<Doc>)
    requires |docs| <= Utf8.MAX_CODE && forall i | 0 <= i < |docs| :: |docs[i].words| <= Utf8.MAX_CODE
    ensures GapsFit(docs)
  {
    hide PostsOf, DeltasSmall;
    forall w | Occurs(docs, w) && Kept(w) ensures Chained(NO_POST, PostsOf(docs, w)) && DeltasSmall(NO_POST, PostsOf(docs, w)) {
      PostsOfAreSmall(docs, w);
    }
  }

  lemma {:induction false} WordBytesJoin(a: seq<Text>, b: seq<Text>)
    ensures WordBytes(a + b) == WordBytes(a) + WordBytes(b)
  {
    if b == [] {
      assert a + b == a;
    } else {
      assert (a + b)[..|a + b| - 1] == a + b[..|b| - 1];
      WordBytesJoin(a, b[..|b| - 1]);
    }
  }

  /** Distinct words out of a list take no more than the list. */
  lemma {:induction false} FewerBytes(ws: seq<Text>, all: seq<Text>)
    requires Distinct(ws) && forall i | 0 <= i < |ws| :: ws[i] in all
    ensures WordBytes(ws) <= WordBytes(all)
    decreases |ws|
  {
    if ws != [] {
      hide WordBytes;
      var last := ws[|ws| - 1];
      var k :| 0 <= k < |all| && all[k] == last;
      OneWordOut(all, k);
      assert ws[..|ws| - 1] + ws[|ws| - 1..] == ws && ws[|ws| - 1..] == [last];
      WordBytesJoin(ws[..|ws| - 1], [last]);
      FewerBytes(ws[..|ws| - 1], all[..k] + all[k + 1..]);
    } else {
      assert WordBytes(ws) == 0;
    }
  }

  lemma OneWordOut(all: seq<Text>, k: nat)
    requires k < |all|
    ensures WordBytes(all) == WordBytes(all[..k] + all[k + 1..]) + WordBytes([all[k]])
    ensures forall w | w in all && w != all[k] :: w in all[..k] + all[k + 1..]
  {
    hide WordBytes;
    var before, after := all[..k], all[k + 1..];
    assert all == before + ([all[k]] + after);
    WordBytesJoin(before, [all[k]] + after);
    WordBytesJoin([all[k]], after);
    WordBytesJoin(before, after);
  }

  lemma {:induction false} OccursInAll(docs: seq<Doc>, w: Text)
    ensures Occurs(docs, w) <==> w in AllWords(docs)
  {
    if docs != [] {
      hide Occurs;
      OccursInAll(docs[..|docs| - 1], w);
      OccursEarlierOrLast(docs, w);
    } else {
      assert !Occurs(docs, w);
    }
  }

  lemma OccursEarlierOrLast(docs: seq<Doc>, w: Text)
    requires docs != []
    ensures Occurs(docs, w) <==> Occurs(docs[..|docs| - 1], w) || w in docs[|docs| - 1].words
  {
    var before := docs[..|docs| - 1];
    assert forall k | 0 <= k < |before| :: before[k] == docs[k];
  }

  /** A sorted dictionary of occurring words fits when the words do. */
  lemma DictionaryFits(docs: seq<Doc>, words: seq<Text>)
    requires SizesFit(docs) && RadixSorted(words) && forall w | w in words :: Occurs(docs, w)
    ensures LineOffset(Listing(docs, words), |words|) < ChunkWriter.NO_ENTRY
  {
    hide SmallerAt, WordBytes, AllWords, LineOffset;
    forall i, j | 0 <= i < j < |words| ensures words[i] != words[j] { var k: nat :| SmallerAt(words[i], words[j], k); NotBoth(words[i], words[j], k); }
    forall i | 0 <= i < |words| ensures words[i] in AllWords(docs) {
      assert words[i] in words;
      OccursInAll(docs, words[i]);
    }
    FewerBytes(words, AllWords(docs));
    LinesAreWords(docs, words, |words|);
    assert words[..|words|] == words;
  }

  lemma {:induction false} LinesAreWords(docs: seq<Doc>, words: seq<Text>, n: nat)
    requires n <= |words|
    ensures LineOffset(Listing(docs, words), n) == WordBytes(words[..n])
  {
    if n > 0 {
      LinesAreWords(docs, words, n - 1);
      assert words[..n][..n - 1] == words[..n - 1];
    }
  }

  function Listing(docs: seq<Doc>, words: seq<Text>): (r: seq<Entry>)
    ensures |r| == |words|
    ensures forall i | 0 <= i < |r| :: r[i] == Entry(words[i], PostsOf(docs, words[i]), DocCount(docs, words[i]))
  {
    seq(|words|, i requires 0 <= i < |words| => Entry(words[i], PostsOf(docs, words[i]), DocCount(docs, words[i])))
  }

  function Urls(docs: seq<Doc>): (r: seq<Text>)
    ensures |r| == |docs| && forall i | 0 <= i < |r| :: r[i] == docs[i].url
  {
    seq(|docs|, i requires 0 <= i < |docs| => docs[i].url)
  }

  function WordTotal(docs: seq<Doc>): nat {
    if docs == [] then 0 else WordTotal(docs[..|docs| - 1]) + |docs[|docs| - 1].words|
  }

  lemma OneDocMore(docs: seq<Doc>, d: Doc)
    ensures WordTotal(docs + [d]) == WordTotal(docs) + |d.words|
  {
    assert (docs + [d])[..|docs|] == docs;
  }

  lemma {:induction false} AllAreCounted(docs: seq<Doc>)
    ensures WordTotal(docs) == |AllWords(docs)|
  {
    if docs != [] { AllAreCounted(docs[..|docs| - 1]); }
  }

  /** When a chunk is closed: by its number of documents, or by the memory its posts take. */
  predicate Full(docs: seq<Doc>) {
    |docs| >= DOCS_PER_INDEX_CHUNK || WordTotal(docs) * SIZEOF_POST >= CHUNK_MEM_BUDGET
  }

  class IndexChunk {
    var index: map<Text, PostingsEntry>
    var urls: seq<Text>
    var currDoc: nat
    var docsInChunk: nat
    var postsBytes: nat
    var files: seq<seq<byte>>

    /** The documents indexed since the last flush. */
    ghost var docs: seq<Doc>

    ghost predicate Valid()
      reads this
    {
      && Indexes(index, docs)
      && urls == Urls(docs)
      && currDoc == |docs| + 1
      && docsInChunk == |docs| && postsBytes == WordTotal(docs) * SIZEOF_POST && !Full(docs)
      && forall i | 0 <= i < |docs| :: GoodDoc(docs[i])
    }

    constructor ()
      ensures Valid() && docs == [] && files == []
    {
      index, urls, currDoc, docsInChunk, postsBytes, files := map[], [], 1, 0, 0, [];
      docs := [];
    }

    /**
      The body of index_file's loop for one document.  A blank URL skips it; otherwise
      its accepted words are numbered from 1, and a full chunk is flushed.
    */
    method IndexDocument(d: Document)
      requires Valid() && |AcceptedWords(d.lines)| <= UINT32_MAX
      requires var all := docs + [Doc(UrlOf(d.url), AcceptedWords(d.lines))];
               UrlOf(d.url) != [] && Full(all) ==> SizesFit(all) && GapsFit(all)
      modifies this
      ensures Valid()
      ensures UrlOf(d.url) == [] ==> docs == old(docs) && files == old(files)
      ensures UrlOf(d.url) != [] ==>
                var all := old(docs) + [Doc(UrlOf(d.url), AcceptedWords(d.lines))];
                if !Full(all) then docs == all && files == old(files)
                else docs == [] && |files| == |old(files)| + 1 && files[..|old(files)|] == old(files)
                     && IsChunkFile(files[|old(files)|], all)
      ensures UrlOf(d.url) != [] ==>
                var all := old(docs) + [Doc(UrlOf(d.url), AcceptedWords(d.lines))];
                docs == [] <==> |all| >= 500_000 || 8 * |AllWords(all)| >= 0x2000_0000
    {
      hide Indexes, PostsOf, DocCount, AcceptedWords, IsChunkFile, SizesFit, GapsFit, Clean, WordTotal, AllWords;
      var url := UrlOf(d.url);
      if url == [] { return; }
      var doc := currDoc;
      currDoc := currDoc + 1;
      urls := urls + [url];
      ghost var before := docs;
      EmptyDocAddsNothing(index, docs, url);
      AcceptedWordsAreClean(d.lines);
      AddWords(doc, d.lines, url);
      docs := before + [Doc(url, AcceptedWords(d.lines))];
      OneDocMore(before, docs[|before|]);
      AllAreCounted(docs);
      docsInChunk := docsInChunk + 1;
      assert urls == Urls(docs);
      if docsInChunk >= DOCS_PER_INDEX_CHUNK || postsBytes >= CHUNK_MEM_BUDGET {
        Flush();
      }
    }

    /** The word loop of one document. */
    method AddWords(doc: nat, lines: seq<Text>, ghost url: Text)
      requires doc == |docs| + 1 && Indexes(index, docs + [Doc(url, [])])
      modifies `index, `postsBytes
      ensures Indexes(index, docs + [Doc(url, AcceptedWords(lines))])
      ensures postsBytes == old(postsBytes) + |AcceptedWords(lines)| * SIZEOF_POST
    {
      hide Indexes, AcceptedWords;
      NoLineWords(lines);
      var loc := 0;
      var seen: set<Text> := {};
      for i := 0 to |lines|
        invariant Indexes(index, docs + [Doc(url, AcceptedWords(lines[..i]))])
        invariant loc == |AcceptedWords(lines[..i])| && postsBytes == old(postsBytes) + loc * SIZEOF_POST
        invariant forall w :: w in seen <==> w in AcceptedWords(lines[..i])
      {
        var line := lines[i];
        ghost var words := AcceptedWords(lines[..i]);
        NextLineWords(lines, i);
        if line == TITLE_OPEN || line == TITLE_CLOSE || |line| <= 1 { continue; }
        var word := line[..|line| - 1];
        var reject := HasDelimiter(word);
        if reject { continue; }
        ghost var before := index;
        var entry := if word in index then index[word] else PostingsEntry([], 0);
        if word !in seen {
          seen := seen + {word};
          entry := entry.(nDocs := entry.nDocs + 1);
        }
        loc := loc + 1;
        index := index[word := entry.(posts := entry.posts + [Post(doc, loc)])];
        postsBytes := postsBytes + SIZEOF_POST;
        IndexesOneMore(before, index, docs, Doc(url, words), word);
      }
    }

    /** sort_entries: the kept words of the index, in radix order. */
    method SortEntries() returns (words: seq<Text>)
      requires Indexes(index, docs) && forall i | 0 <= i < |docs| :: GoodDoc(docs[i])
      ensures RadixSorted(words) && forall w :: w in words <==> Occurs(docs, w) && Kept(w)
    {
      var res := [];
      var keys := index.Keys;
      while keys != {}
        invariant keys <= index.Keys && Distinct(res)
        invariant forall w :: w in res <==> w in index.Keys - keys && Kept(w)
        decreases |keys|
      {
        var key :| key in keys;
        keys := keys - {key};
        if Kept(key) { res := res + [key]; }
      }
      OccurringIsNulFree(docs, res);
      var vec := new WordVector(res);
      Sort(vec);
      words := vec.items;
      SameMembers(words, res);
    }

    /** The lists of the sorted words, looked up one by one. */
    method CollectEntries(words: seq<Text>) returns (entries: seq<Entry>)
      requires Indexes(index, docs) && forall w | w in words :: Occurs(docs, w)
      ensures entries == Listing(docs, words)
    {
      hide PostsOf, DocCount, Occurs;
      entries := [];
      for i := 0 to |words|
        invariant |entries| == i
        invariant forall j | 0 <= j < i :: entries[j] == Entry(words[j], PostsOf(docs, words[j]), DocCount(docs, words[j]))
      {
        assert words[i] in words;
        var e := index[words[i]];
        entries := entries + [Entry(words[i], e.posts, e.nDocs)];
      }
    }

    /** flush: persist the chunk and start an empty one. */
    method Flush()
      requires Indexes(index, docs) && urls == Urls(docs) && forall i | 0 <= i < |docs| :: GoodDoc(docs[i])
      requires SizesFit(docs) && GapsFit(docs)
      modifies this
      ensures Valid() && docs == []
      ensures |files| == |old(files)| + 1 && files[..|old(files)|] == old(files)
      ensures IsChunkFile(files[|old(files)|], old(docs))
    {
      hide RadixSorted, PostsOf, DocCount, ChunkWriter.Layable, FileBytes, Chained, SizesFit, GapsFit, Indexes, GoodDoc, Clean;
      var words := SortEntries();
      var entries := CollectEntries(words);
      ListingIsLayable(docs, words);
      var file := ChunkWriter.Persist(urls, entries);
      assert ChunkFileWith(file, docs, words);
      NothingIndexed();
      files := files + [file];
      index, urls, docsInChunk, postsBytes, currDoc := map[], [], 0, 0, 1;
      docs := [];
    }
  }

  lemma NothingIndexed()
    ensures Indexes(map[], [])
  {
  }

  lemma SameMembers(a: seq<Text>, b: seq<Text>)
    requires multiset(a) == multiset(b)
    ensures forall w :: w in a <==> w in b
  {
    forall w ensures w in a <==> w in b {
      assert w in multiset(a) <==> w in multiset(b);
    }
  }

  lemma OccurringIsNulFree(docs: seq<Doc>, words: seq<Text>)
    requires forall i | 0 <= i < |docs| :: GoodDoc(docs[i])
    requires forall w | w in words :: Occurs(docs, w)
    ensures forall i | 0 <= i < |words| :: words[i] != [] && Clean(words[i]) && NulFree(words[i])
  {
    forall i | 0 <= i < |words| ensures words[i] != [] && Clean(words[i]) {
      assert words[i] in words;
      var k :| 0 <= k < |docs| && words[i] in docs[k].words;
    }
  }

  /** Kept words in radix order have their first bytes in order. */
  lemma ListingIsLayable(docs: seq<Doc>, words: seq<Text>)
    requires SizesFit(docs) && GapsFit(docs) && forall i | 0 <= i < |docs| :: GoodDoc(docs[i])
    requires RadixSorted(words) && forall w :: w in words <==> Occurs(docs, w) && Kept(w)
    ensures ChunkWriter.Layable(Listing(docs, words))
    ensures forall i | 0 <= i < |words| :: words[i] != []
  {
    hide PostsOf, DocCount, LineOffset, Ascending, Chained, DeltasSmall;
    var entries := Listing(docs, words);
    assert forall i | 0 <= i < |words| :: words[i] in words;
    forall i | 0 <= i < |entries| ensures Chained(NO_POST, entries[i].posts) && DeltasSmall(NO_POST, entries[i].posts) {
      assert Occurs(docs, words[i]) && Kept(words[i]);
    }
    DictionaryFits(docs, words);
    forall i, j | 0 <= i < j < |entries| ensures entries[i].word[0] <= entries[j].word[0] {
      FirstBytesInOrder(words[i], words[j]);
    }
  }

  lemma PostsOfAreSmall(docs: seq<Doc>, w: Text)
    requires |docs| <= Utf8.MAX_CODE && forall i | 0 <= i < |docs| :: |docs[i].words| <= Utf8.MAX_CODE
    ensures Chained(NO_POST, PostsOf(docs, w)) && DeltasSmall(NO_POST, PostsOf(docs, w))
  {
    hide PostsOf;
    PostsOfExactly(docs, w);
    var posts := PostsOf(docs, w);
    assert forall i | 0 <= i < |posts| :: posts[i] in posts;
    AscendingIsChained(posts);
    ShortIsSmall(NO_POST, posts);
  }

  lemma FirstBytesInOrder(s: Text, t: Text)
    requires Smaller(s, t) && Kept(s) && Kept(t)
    ensures s[0] <= t[0]
  {
    var k: nat :| SmallerAt(s, t, k);
    assert k > 0 ==> CharAt(s, 0) == CharAt(t, 0);
  }
}
