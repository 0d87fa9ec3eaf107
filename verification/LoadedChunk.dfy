/**
  LoadedIndex (index_chunk/chunk_manager.h): reading a chunk file back.
*/
module LoadedChunk {
  import opened Bytes
  import opened Postings
  import opened PostingCodec
  import opened ChunkLayout
  import opened StreamReader

  // ---------------------------------------------------------------- finding things in the file

  /** The bytes `s` stand in the file at p. */
  ghost predicate StandsAt(file: seq<byte>, p: nat, s: seq<byte>) {
    p + |s| <= |file| && file[p..p + |s|] == s
  }

  lemma StandsAtParts(file: seq<byte>, p: nat, a: seq<byte>, b: seq<byte>)
    requires StandsAt(file, p, a + b)
    ensures StandsAt(file, p, a) && StandsAt(file, p + |a|, b)
  {
    var s := file[p..p + |a + b|];
    assert s[..|a|] == file[p..p + |a|] && s[|a|..] == file[p + |a|..p + |a| + |b|];
    assert (a + b)[..|a|] == a && (a + b)[|a|..] == b;
  }

  lemma StandsAtByte(file: seq<byte>, p: nat, b: byte)
    requires StandsAt(file, p, [b])
    ensures file[p] == b
  {
    assert file[p..p + 1][0] == b;
  }

  /** memchr on [from, to): the first place of b, or `to`. */
  method FindByte(file: seq<byte>, from: nat, to: nat, b: byte) returns (at: nat)
    requires from <= to <= |file|
    ensures from <= at <= to && (at < to ==> file[at] == b)
    ensures forall j | from <= j < at :: file[j] != b
  {
    at := from;
    while at < to && file[at] != b
      invariant from <= at <= to
      invariant forall j | from <= j < at :: file[j] != b
    {
      at := at + 1;
    }
  }

  /** memcpy of a k-byte number. */
  method ReadNumber(file: seq<byte>, p: nat, k: nat) returns (n: nat)
    requires p + k <= |file|
    ensures n == FromLittleEndian(file[p..p + k])
  {
    n := FromLittleEndian(file[p..p + k]);
  }

  // ---------------------------------------------------------------- where the parts of a table begin

  lemma {:induction false} UrlTableHasLine(urls: seq<Text>, k: nat)
    requires k < |urls|
    ensures UrlTable(urls[..k]) + UrlLine(k + 1, urls[k]) <= UrlTable(urls)
    decreases |urls|
  {
    var last := |urls| - 1;
    if k == last {
    } else {
      UrlTableHasLine(urls[..last], k);
      assert urls[..last][..k] == urls[..k] && urls[..last][k] == urls[k];
    }
  }

  lemma {:induction false} DictionaryHasLine(entries: seq<Entry>, k: nat, n: nat)
    requires Writable(entries) && k < n <= |entries|
    ensures Dictionary(entries, k) + DictLine(entries[k].word, ListOffset(entries, k)) <= Dictionary(entries, n)
    decreases n
  {
    hide DictLine, ListOffset, Chained;
    if k + 1 == n {
    } else {
      DictionaryHasLine(entries, k, n - 1);
    }
  }

  lemma {:induction false} ListsHasList(entries: seq<Entry>, k: nat)
    requires Writable(entries) && k < |entries|
    ensures Lists(entries[..k]) + ListBytes(entries[k]) <= Lists(entries)
    decreases |entries|
  {
    hide Lists, ListBytes, Chained;
    var last := |entries| - 1;
    ListsOfLast(entries);
    if k < last {
      ListsHasList(entries[..last], k);
      assert entries[..last][..k] == entries[..k] && entries[..last][k] == entries[k];
      PrefixOfLonger(Lists(entries[..k]) + ListBytes(entries[k]), Lists(entries[..last]), ListBytes(entries[last]));
    }
  }

  lemma ListsOfLast(entries: seq<Entry>)
    requires Writable(entries) && entries != []
    ensures Lists(entries) == Lists(entries[..|entries| - 1]) + ListBytes(entries[|entries| - 1])
  {
  }

  lemma PrefixOfLonger(a: seq<byte>, b: seq<byte>, more: seq<byte>)
    requires a <= b
    ensures a <= b + more
  {
  }

  lemma PrefixStandsAt(file: seq<byte>, p: nat, whole: seq<byte>, before: seq<byte>, part: seq<byte>)
    requires StandsAt(file, p, whole) && before + part <= whole
    ensures StandsAt(file, p + |before|, part)
  {
    assert whole == (before + part) + whole[|before + part|..];
    StandsAtParts(file, p, before + part, whole[|before + part|..]);
    StandsAtParts(file, p, before, part);
  }

  // ---------------------------------------------------------------- the chunk that was written

  /** Every number in the file fits the bytes it is written in. */
  ghost predicate NumbersFit(urls: seq<Text>, entries: seq<Entry>)
    requires Writable(entries)
  {
    && |UrlTable(urls)| < Pow256(8)
    && |Lists(entries)| < Pow256(8)
    && LineOffset(entries, |entries|) < Pow256(8) - 1
    && (forall i | 0 <= i < |entries| :: |entries[i].posts| < Pow256(8) && entries[i].nDocs < Pow256(4))
  }

  /** A chunk as the indexer may write it: URLs without newline, kept words without delimiters. */
  ghost predicate WellFormed(urls: seq<Text>, entries: seq<Entry>) {
    && Writable(entries)
    && NumbersFit(urls, entries)
    && (forall i | 0 <= i < |urls| :: NEWLINE !in urls[i])
    && (forall i | 0 <= i < |entries| :: Kept(entries[i].word) && Clean(entries[i].word))
  }

  /** `file` is what persist writes for these URLs and entries. */
  ghost predicate Written(file: seq<byte>, urls: seq<Text>, entries: seq<Entry>) {
    WellFormed(urls, entries) && file == FileBytes(urls, entries)
  }

  /** One line of the URL table, from its id to its newline. */
  lemma UrlLineStands(file: seq<byte>, p: nat, id: nat, url: Text)
    requires StandsAt(file, p, UrlLine(id, url)) && NEWLINE !in url
    ensures p + 5 + |url| < |file| && file[p + 5..p + 5 + |url|] == url
    ensures file[p + 5 + |url|] == NEWLINE && forall j | p + 5 <= j < p + 5 + |url| :: file[j] != NEWLINE
  {
    var head := LittleEndian(id, 4) + [SPACE];
    assert UrlLine(id, url) == head + (url + [NEWLINE]);
    StandsAtParts(file, p, head, url + [NEWLINE]);
    StandsAtParts(file, p + 5, url, [NEWLINE]);
    StandsAtByte(file, p + 5 + |url|, NEWLINE);
    forall j | p + 5 <= j < p + 5 + |url| ensures file[j] != NEWLINE {
      assert file[j] == file[p + 5..p + 5 + |url|][j - p - 5];
    }
  }

  /** One line of the dictionary. */
  lemma DictLineStands(file: seq<byte>, p: nat, word: Text, offset: nat)
    requires StandsAt(file, p, DictLine(word, offset)) && Kept(word) && Clean(word) && offset < Pow256(8)
    ensures var space := p + |word|;
            && space + 10 <= |file|
            && file[p] != NEWLINE && file[p..space] == word && file[space] == SPACE
            && (forall j | p <= j < space :: file[j] != SPACE)
            && FromLittleEndian(file[space + 1..space + 9]) == offset
  {
    hide LittleEndian, FromLittleEndian, Pow256;
    var number := LittleEndian(offset, 8);
    assert DictLine(word, offset) == word + ([SPACE] + (number + [NEWLINE]));
    StandsAtParts(file, p, word, [SPACE] + (number + [NEWLINE]));
    var space := p + |word|;
    StandsAtParts(file, space, [SPACE], number + [NEWLINE]);
    StandsAtByte(file, space, SPACE);
    StandsAtParts(file, space + 1, number, [NEWLINE]);
    NumberRoundTrip(offset, 8);
    forall j | p <= j < space ensures file[j] == word[j - p] {
      assert file[j] == file[p..space][j - p];
    }
    assert file[p] == word[0];
  }

  /** Where the sections of a written file stand. */
  lemma SectionsStand(file: seq<byte>, urls: seq<Text>, entries: seq<Entry>)
    requires WellFormed(urls, entries) && file == FileBytes(urls, entries)
    ensures var u, d := |UrlTable(urls)|, |Dictionary(entries, |entries|)|;
            && FromLittleEndian(file[..8]) == u
            && file[8] == NEWLINE
            && StandsAt(file, 9, UrlTable(urls))
            && StandsAt(file, 9 + u, [NEWLINE])
            && StandsAt(file, 10 + u + 396, [NEWLINE])
            && StandsAt(file, 10 + u + 397, Dictionary(entries, |entries|))
            && StandsAt(file, 10 + u + 397 + d, [NEWLINE])
            && file[10 + u + 398 + d..] == Lists(entries)
            && 10 + u + 398 + d <= |file|
  {
    hide WellFormed, Lists, Dictionary, UrlTable, LittleEndian, FromLittleEndian, Toc, Pow256, FileBytes;
    WellFormedFits(urls, entries);
    FileShape(urls, entries);
    var u, n := UrlTable(urls), LittleEndian(|UrlTable(urls)|, 8);
    var f2 := u + ([NEWLINE] + AfterUrls(entries));
    assert StandsAt(file, 0, file);
    StandsAtParts(file, 0, n, [NEWLINE] + f2);
    NumberRoundTrip(|u|, 8);
    StandsAtParts(file, 8, [NEWLINE], f2);
    StandsAtByte(file, 8, NEWLINE);
    StandsAtParts(file, 9, u, [NEWLINE] + AfterUrls(entries));
    StandsAtParts(file, 9 + |u|, [NEWLINE], AfterUrls(entries));
    AfterUrlsStands(file, 10 + |u|, entries);
  }

  /** What follows the URL table and its newline. */
  ghost function AfterUrls(entries: seq<Entry>): seq<byte>
    requires Writable(entries) && forall j | 0 <= j < |entries| :: entries[j].word != []
  {
    Toc(entries, DICT_SLOTS) + ([NEWLINE] + (Dictionary(entries, |entries|) + ([NEWLINE] + Lists(entries))))
  }

  lemma AfterUrlsStands(file: seq<byte>, p: nat, entries: seq<Entry>)
    requires Writable(entries) && forall j | 0 <= j < |entries| :: entries[j].word != []
    requires StandsAt(file, p, AfterUrls(entries)) && |file| == p + |AfterUrls(entries)|
    ensures var d := |Dictionary(entries, |entries|)|;
            && StandsAt(file, p + 396, [NEWLINE])
            && StandsAt(file, p + 397, Dictionary(entries, |entries|))
            && StandsAt(file, p + 397 + d, [NEWLINE])
            && p + 398 + d <= |file| && file[p + 398 + d..] == Lists(entries)
  {
    hide Lists, Toc, Dictionary;
    TailStands(file, p, Toc(entries, DICT_SLOTS), Dictionary(entries, |entries|), Lists(entries));
  }

  lemma TailStands(file: seq<byte>, p: nat, toc: seq<byte>, d: seq<byte>, lists: seq<byte>)
    requires |toc| == 396 && StandsAt(file, p, toc + ([NEWLINE] + (d + ([NEWLINE] + lists))))
    requires |file| == p + 398 + |d| + |lists|
    ensures StandsAt(file, p + 396, [NEWLINE]) && StandsAt(file, p + 397, d) && StandsAt(file, p + 397 + |d|, [NEWLINE])
    ensures file[p + 398 + |d|..] == lists
  {
    var f4 := d + ([NEWLINE] + lists);
    StandsAtParts(file, p, toc, [NEWLINE] + f4);
    StandsAtParts(file, p + 396, [NEWLINE], f4);
    StandsAtParts(file, p + 397, d, [NEWLINE] + lists);
    StandsAtParts(file, p + 397 + |d|, [NEWLINE], lists);
  }

  lemma FileShape(urls: seq<Text>, entries: seq<Entry>)
    requires forall j | 0 <= j < |entries| :: entries[j].word != []
    requires Writable(entries)
    ensures var f2 := UrlTable(urls) + ([NEWLINE] + AfterUrls(entries));
            FileBytes(urls, entries) == LittleEndian(|UrlTable(urls)|, 8) + ([NEWLINE] + f2)
  {
    hide Lists, Dictionary, UrlTable, LittleEndian, Toc;
  }

  lemma WellFormedFits(urls: seq<Text>, entries: seq<Entry>)
    requires WellFormed(urls, entries)
    ensures Writable(entries) && |UrlTable(urls)| < Pow256(8)
    ensures forall j | 0 <= j < |entries| :: entries[j].word != []
  {
  }

  // ---------------------------------------------------------------- loading

  /** A written URL table fills [p, end). */
  ghost predicate UrlsStand(file: seq<byte>, p: nat, end: nat, urls: seq<Text>) {
    && StandsAt(file, p, UrlTable(urls)) && end == p + |UrlTable(urls)|
    && forall i | 0 <= i < |urls| :: NEWLINE !in urls[i]
  }

  /** The URL loop: skip id and space, take everything up to the newline. */
  method LoadUrls(file: seq<byte>, p: nat, urlsEnd: nat, ghost written: seq<Text>)
    returns (ok: bool, urls: seq<Text>, q: nat)
    requires p <= urlsEnd <= |file|
    ensures UrlsStand(file, p, urlsEnd, written) ==> ok && urls == written && q == urlsEnd
    ensures ok ==> q <= |file|
  {
    hide UrlLine, UrlTable, StandsAt;
    ghost var wasWritten := UrlsStand(file, p, urlsEnd, written);
    urls, q := [], p;
    NoUrls(written);
    while q < urlsEnd
      invariant p <= q <= urlsEnd
      invariant wasWritten ==> |urls| <= |written| && urls == written[..|urls|] && q == p + |UrlTable(urls)|
    {
      ghost var k := |urls|;
      if wasWritten {
        AllUrlsTaken(written, k);
        NextUrl(file, p, written, k);
      }
      if q + 5 > urlsEnd { return false, urls, q; }
      var nl := FindByte(file, q + 5, urlsEnd, NEWLINE);
      if nl == urlsEnd { return false, urls, q; }
      urls := urls + [file[q + 5..nl]];
      q := nl + 1;
    }
    if wasWritten { AllUrlsTaken(written, |urls|); }
    ok := true;
  }

  lemma NoUrls(urls: seq<Text>)
    ensures UrlTable([]) == [] && urls[..0] == []
  {
  }

  lemma AllUrlsTaken(urls: seq<Text>, k: nat)
    requires k <= |urls|
    ensures |UrlTable(urls[..k])| <= |UrlTable(urls)|
    ensures |UrlTable(urls[..k])| == |UrlTable(urls)| <==> k == |urls|
  {
    if k < |urls| { UrlTableHasLine(urls, k); } else { assert urls[..k] == urls; }
  }

  /** URL k of a written table, seen from where the loop stands. */
  lemma NextUrl(file: seq<byte>, p: nat, urls: seq<Text>, k: nat)
    requires k <= |urls| && StandsAt(file, p, UrlTable(urls)) && forall i | 0 <= i < |urls| :: NEWLINE !in urls[i]
    ensures k < |urls| ==>
              var q := p + |UrlTable(urls[..k])|;
              && urls[..k] + [urls[k]] == urls[..k + 1]
              && q + 5 + |urls[k]| + 1 == p + |UrlTable(urls[..k + 1])| <= p + |UrlTable(urls)| <= |file|
              && file[q + 5..q + 5 + |urls[k]|] == urls[k] && file[q + 5 + |urls[k]|] == NEWLINE
              && forall j | q + 5 <= j < q + 5 + |urls[k]| :: file[j] != NEWLINE
  {
    if k < |urls| {
      UrlTableHasLine(urls, k);
      PrefixStandsAt(file, p, UrlTable(urls), UrlTable(urls[..k]), UrlLine(k + 1, urls[k]));
      UrlLineStands(file, p + |UrlTable(urls[..k])|, k + 1, urls[k]);
      assert urls[..k + 1][..k] == urls[..k];
    }
  }

  /** The dictionary loop: word up to the space, eight bytes of offset, until a bare newline. */
  method LoadDictionary(file: seq<byte>, p: nat, ghost entries: seq<Entry>)
    returns (ok: bool, words: seq<Text>, offsets: seq<nat>, q: nat)
    requires p <= |file|
    ensures ok ==> p <= q <= |file| + 1
    ensures |words| == |offsets|
    ensures DictionaryStands(file, p, entries)
            ==> ok && q == p + |Dictionary(entries, |entries|)| + 1 && |words| == |entries|
                && forall i | 0 <= i < |entries| :: words[i] == entries[i].word && offsets[i] == ListOffset(entries, i)
  {
    hide DictionaryStands, Dictionary, ListOffset, Chained;
    words, offsets, q := [], [], p;
    if DictionaryStands(file, p, entries) { NoLines(file, p, entries); }
    while q < |file|
      invariant p <= q <= |file| + 1 && |words| == |offsets|
      invariant DictionaryStands(file, p, entries) ==> Writable(entries) && |words| <= |entries|
      invariant DictionaryStands(file, p, entries) ==> q == p + |Dictionary(entries, |words|)| < |file|
      invariant DictionaryStands(file, p, entries) ==>
                  forall i | 0 <= i < |words| :: words[i] == entries[i].word && offsets[i] == ListOffset(entries, i)
    {
      if DictionaryStands(file, p, entries) { NextLine(file, p, entries, |words|); }
      if file[q] == NEWLINE { return true, words, offsets, q + 1; }
      var space := FindByte(file, q, |file|, SPACE);
      if space == |file| || space + 9 > |file| { return false, words, offsets, q; }
      var offset := ReadNumber(file, space + 1, 8);
      words := words + [file[q..space]];
      offsets := offsets + [offset];
      q := space + 1 + 8 + 1;
    }
    ok := true;
  }

  /** A written dictionary stands at p, with its closing newline. */
  ghost predicate DictionaryStands(file: seq<byte>, p: nat, entries: seq<Entry>) {
    && Writable(entries)
    && |Lists(entries)| < Pow256(8)
    && (forall i | 0 <= i < |entries| :: Kept(entries[i].word) && Clean(entries[i].word))
    && StandsAt(file, p, Dictionary(entries, |entries|))
    && StandsAt(file, p + |Dictionary(entries, |entries|)|, [NEWLINE])
  }

  lemma NoLines(file: seq<byte>, p: nat, entries: seq<Entry>)
    requires DictionaryStands(file, p, entries)
    ensures Writable(entries) && |Dictionary(entries, 0)| == 0 && p < |file|
  {
  }

  lemma OffsetFits(entries: seq<Entry>, k: nat)
    requires Writable(entries) && k < |entries|
    ensures ListOffset(entries, k) <= |Lists(entries)|
  {
    ListsHasList(entries, k);
  }

  /** Line k of a written dictionary, or the newline that closes it, seen from where the loop stands. */
  lemma NextLine(file: seq<byte>, p: nat, entries: seq<Entry>, k: nat)
    requires DictionaryStands(file, p, entries) && k <= |entries|
    ensures Writable(entries)
    ensures var q := p + |Dictionary(entries, k)|;
            if k == |entries| then q < |file| && file[q] == NEWLINE
            else
              var space := q + |entries[k].word|;
              && p + |Dictionary(entries, k + 1)| == space + 10 < |file|
              && file[q] != NEWLINE && file[q..space] == entries[k].word && file[space] == SPACE
              && (forall j | q <= j < space :: file[j] != SPACE)
              && FromLittleEndian(file[space + 1..space + 9]) == ListOffset(entries, k)
  {
    hide Lists, ListOffset, Kept, Clean, Chained, DictLine, FromLittleEndian, LittleEndian, Pow256;
    if k == |entries| {
      StandsAtByte(file, p + |Dictionary(entries, k)|, NEWLINE);
    } else {
      DictionaryHasLine(entries, k, |entries|);
      OffsetFits(entries, k);
      var line := DictLine(entries[k].word, ListOffset(entries, k));
      PrefixStandsAt(file, p, Dictionary(entries, |entries|), Dictionary(entries, k), line);
      DictLineStands(file, p + |Dictionary(entries, k)|, entries[k].word, ListOffset(entries, k));
      DictionaryGrows(entries, k);
    }
  }

  lemma DictionaryGrows(entries: seq<Entry>, k: nat)
    requires k < |entries| && Writable(entries)
    ensures Dictionary(entries, k + 1) == Dictionary(entries, k) + DictLine(entries[k].word, ListOffset(entries, k))
    ensures |DictLine(entries[k].word, ListOffset(entries, k))| == |entries[k].word| + 10
  {
    hide ListOffset, Lists, LittleEndian;
  }

  /** Everything the parser relies on about a written file. */
  lemma FileIsParsed(file: seq<byte>, urls: seq<Text>, entries: seq<Entry>)
    requires Written(file, urls, entries)
    ensures Writable(entries)
    ensures var u, d := |UrlTable(urls)|, |Dictionary(entries, |entries|)|;
            && FromLittleEndian(file[0..8]) == u && file[8] == NEWLINE
            && UrlsStand(file, 9, 9 + u, urls)
            && file[9 + u] == NEWLINE && file[10 + u + 396] == NEWLINE
            && DictionaryStands(file, 10 + u + 397, entries)
            && 10 + u + 398 + d <= |file| && file[10 + u + 398 + d..] == Lists(entries)
  {
    SectionsStand(file, urls, entries);
    StandsAtByte(file, 9 + |UrlTable(urls)|, NEWLINE);
    StandsAtByte(file, 10 + |UrlTable(urls)| + 396, NEWLINE);
    assert file[0..8] == file[..8];
  }

  /** The header of list k and, right behind it, its posts. */
  lemma ListStands(entries: seq<Entry>, k: nat)
    requires Writable(entries) && k < |entries| && |entries[k].posts| < Pow256(8) && entries[k].nDocs < Pow256(4)
    ensures var region, at := Lists(entries), ListOffset(entries, k);
            && at + 14 + |EncodePosts(NO_POST, entries[k].posts)| < |region|
            && FromLittleEndian(region[at..at + 8]) == |entries[k].posts|
            && FromLittleEndian(region[at + 9..at + 13]) == entries[k].nDocs
            && EncodePosts(NO_POST, entries[k].posts) <= region[at + 14..]
  {
    hide Lists, EncodePosts, LittleEndian;
    var region, at, e := Lists(entries), ListOffset(entries, k), entries[k];
    ListsHasList(entries, k);
    assert StandsAt(region, 0, region);
    PrefixStandsAt(region, 0, region, Lists(entries[..k]), ListBytes(e));
    var n, d, posts := LittleEndian(|e.posts|, 8), LittleEndian(e.nDocs, 4), EncodePosts(NO_POST, e.posts);
    assert ListBytes(e) == n + ([SPACE] + (d + ([NEWLINE] + (posts + [NEWLINE]))));
    StandsAtParts(region, at, n, [SPACE] + (d + ([NEWLINE] + (posts + [NEWLINE]))));
    StandsAtParts(region, at + 8, [SPACE], d + ([NEWLINE] + (posts + [NEWLINE])));
    StandsAtParts(region, at + 9, d, [NEWLINE] + (posts + [NEWLINE]));
    StandsAtParts(region, at + 13, [NEWLINE], posts + [NEWLINE]);
    StandsAtParts(region, at + 14, posts, [NEWLINE]);
    NumberRoundTrip(|e.posts|, 8);
    NumberRoundTrip(e.nDocs, 4);
    assert region[at + 14..at + 14 + |posts|] == region[at + 14..][..|posts|];
  }

  /** LoadedIndex: the sections of one chunk file. */
  class LoadedIndex {
    var urls: seq<Text>
    var words: seq<Text>
    var offsets: seq<nat>
    var counts: seq<nat>
    var region: seq<byte>
    var totalWords: nat

    /**
      Parsing a file.  A file that was written from `written` and `entries` is read
      back exactly: every URL, every word with the true offset of its list, every
      post count, and the posting list region.
    */
    constructor (file: seq<byte>, ghost written: seq<Text>, ghost entries: seq<Entry>)
      requires file == [] || 8 <= |file|
      ensures Written(file, written, entries) ==>
                && urls == written && region == Lists(entries)
                && |words| == |entries| == |offsets| == |counts|
                && (forall i | 0 <= i < |entries| ::
                      words[i] == entries[i].word && offsets[i] == ListOffset(entries, i) && counts[i] == |entries[i].posts|)
                && totalWords == TotalPosts(entries, |entries|)
    {
      hide FileBytes, Lists, Dictionary, UrlTable, ListOffset, TotalPosts;
      var us, ws, os, r := Parse(file, written, entries);
      urls, words, offsets, region := us, ws, os, r;
      counts, totalWords := [], 0;
      new;
      if Written(file, written, entries) { WellFormedCounts(written, entries, os); }
      counts, totalWords := CountPosts(os, r, entries);
    }
  }

  lemma WellFormedCounts(urls: seq<Text>, entries: seq<Entry>, offsets: seq<nat>)
    requires WellFormed(urls, entries) && |offsets| == |entries|
    requires forall i | 0 <= i < |entries| :: offsets[i] == ListOffset(entries, i)
    ensures CountsStand(offsets, Lists(entries), entries)
  {
    hide Lists, ListOffset, Chained, UrlTable, Kept, Clean;
  }

  /** Walking a pointer over the sections; anything malformed ends the parse with what was read. */
  method Parse(file: seq<byte>, ghost written: seq<Text>, ghost entries: seq<Entry>)
    returns (urls: seq<Text>, words: seq<Text>, offsets: seq<nat>, region: seq<byte>)
    requires file == [] || 8 <= |file|
    ensures Written(file, written, entries) ==>
              && urls == written && region == Lists(entries) && |words| == |offsets| == |entries|
              && forall i | 0 <= i < |entries| :: words[i] == entries[i].word && offsets[i] == ListOffset(entries, i)
  {
    hide Written, FileBytes, Lists, Dictionary, UrlTable, UrlsStand, DictionaryStands, ListOffset, LittleEndian, FromLittleEndian;
    urls, words, offsets, region := [], [], [], [];
    if Written(file, written, entries) { FileIsParsed(file, written, entries); }
    if |file| == 0 { return; }
    var urlsBytes := ReadNumber(file, 0, 8);
    var p := 8;
    if p < |file| && file[p] == NEWLINE { p := p + 1; }
    if p + urlsBytes > |file| { return; }
    var ok;
    ok, urls, p := LoadUrls(file, p, p + urlsBytes, written);
    if !ok { return; }
    if p < |file| && file[p] == NEWLINE { p := p + 1; }
    p := p + DICT_SLOTS * TOC_ENTRY;
    if p < |file| && file[p] == NEWLINE { p := p + 1; }
    if p > |file| { return; }
    ok, words, offsets, p := LoadDictionary(file, p, entries);
    if !ok { return; }
    region := if p <= |file| then file[p..] else [];
  }

  /** The last pass of the constructor: post counts out of the list headers. */
  method CountPosts(offsets: seq<nat>, region: seq<byte>, ghost entries: seq<Entry>) returns (counts: seq<nat>, total: nat)
    ensures |counts| == |offsets|
    ensures CountsStand(offsets, region, entries) ==>
              total == TotalPosts(entries, |entries|) && forall i | 0 <= i < |entries| :: counts[i] == |entries[i].posts|
  {
    hide Lists, ListOffset, EncodePosts;
    counts, total := [], 0;
    for i := 0 to |offsets|
      invariant |counts| == i
      invariant CountsStand(offsets, region, entries) ==>
                  total == TotalPosts(entries, i) && forall j | 0 <= j < i :: counts[j] == |entries[j].posts|
    {
      if CountsStand(offsets, region, entries) { ListStands(entries, i); }
      if offsets[i] + 8 > |region| {
        counts := counts + [0];
      } else {
        var n := ReadNumber(region, offsets[i], 8);
        counts := counts + [n];
        total := total + n;
      }
    }
  }

  ghost predicate CountsStand(offsets: seq<nat>, region: seq<byte>, entries: seq<Entry>) {
    && Writable(entries) && |offsets| == |entries| && region == Lists(entries)
    && forall i | 0 <= i < |entries| ::
         offsets[i] == ListOffset(entries, i) && |entries[i].posts| < Pow256(8) && entries[i].nDocs < Pow256(4)
  }

  function TotalPosts(entries: seq<Entry>, n: nat): nat
    requires n <= |entries|
  {
    if n == 0 then 0 else TotalPosts(entries, n - 1) + |entries[n - 1].posts|
  }
}
