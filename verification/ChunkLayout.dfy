/**
  The bytes of a chunk file (IndexChunk::persist): URL table, table of contents,
  dictionary and posting lists.  Numbers are little-endian, as fwrite leaves them.
*/
module ChunkLayout {
  import opened Bytes
  import opened Postings
  import opened PostingCodec

  const DICT_SLOTS: nat := 36
  const TOC_ENTRY: nat := 11

  /** One word of the dictionary with its posting list. */
  datatype Entry = Entry(word: Text, posts: seq<Post>, nDocs: nat)

  // ---------------------------------------------------------------- numbers

  function Pow256(k: nat): (r: nat)
    ensures r >= 1
  {
    if k == 0 then 1 else 256 * Pow256(k - 1)
  }

  /** n as k bytes, low byte first. */
  function LittleEndian(n: nat, k: nat): (r: seq<byte>)
    ensures |r| == k
  {
    if k == 0 then [] else [n % 256] + LittleEndian(n / 256, k - 1)
  }

  function FromLittleEndian(s: seq<byte>): nat {
    if s == [] then 0 else s[0] + 256 * FromLittleEndian(s[1..])
  }

  /** Byte i of a number weighs 256 to the i. */
  lemma {:induction false} LowByteFirst(n: nat, k: nat, i: nat)
    requires i < k
    ensures LittleEndian(n, k)[i] == n / Pow256(i) % 256
    decreases k
  {
    if i > 0 {
      LowByteFirst(n / 256, k - 1, i - 1);
      DivideTwice(n, Pow256(i - 1));
    }
  }

  lemma DivideTwice(n: nat, m: nat)
    requires m > 0
    ensures n / 256 / m == n / (256 * m)
  {
    var q, r := n / 256 / m, n / 256 % m;
    assert n / 256 == m * q + r;
    Regroup(m, q);
    Quotient(n, 256 * m, q, 256 * r + n % 256);
  }

  lemma Regroup(m: nat, q: nat)
    ensures 256 * (m * q) == 256 * m * q
  {
  }

  lemma Quotient(n: nat, m: nat, q: nat, r: nat)
    requires n == m * q + r && r < m
    ensures n / m == q
  {
    OneMoreTimes(m, n / m, q);
    OneMoreTimes(m, q, n / m);
  }

  lemma {:induction false} OneMoreTimes(m: nat, a: nat, b: nat)
    ensures a < b ==> m * a + m <= m * b
  {
    if a < b {
      assert m * b == m * (b - 1) + m;
      OneMoreTimes(m, a, b - 1);
    }
  }

  lemma {:induction false} NumberRoundTrip(n: nat, k: nat)
    requires n < Pow256(k)
    ensures FromLittleEndian(LittleEndian(n, k)) == n
  {
    if k > 0 {
      assert n / 256 < Pow256(k - 1);
      NumberRoundTrip(n / 256, k - 1);
      assert LittleEndian(n, k)[1..] == LittleEndian(n / 256, k - 1);
    }
  }

  // ---------------------------------------------------------------- sections

  /** id, space, URL, newline. */
  function UrlLine(id: nat, url: Text): seq<byte> {
    LittleEndian(id, 4) + [SPACE] + url + [NEWLINE]
  }

  function UrlTable(urls: seq<Text>): seq<byte> {
    if urls == [] then [] else UrlTable(urls[..|urls| - 1]) + UrlLine(|urls|, urls[|urls| - 1])
  }

  /** word, space, offset of its posting list, newline. */
  function DictLine(word: Text, offset: nat): seq<byte> {
    word + [SPACE] + LittleEndian(offset, 8) + [NEWLINE]
  }

  /** Header and posts of one list. */
  function ListBytes(e: Entry): seq<byte>
    requires Chained(NO_POST, e.posts)
  {
    LittleEndian(|e.posts|, 8) + [SPACE] + LittleEndian(e.nDocs, 4) + [NEWLINE] + EncodePosts(NO_POST, e.posts) + [NEWLINE]
  }

  ghost predicate Writable(entries: seq<Entry>) {
    forall i | 0 <= i < |entries| :: Chained(NO_POST, entries[i].posts)
  }

  function Lists(entries: seq<Entry>): seq<byte>
    requires Writable(entries)
  {
    if entries == [] then []
    else Lists(entries[..|entries| - 1]) + ListBytes(entries[|entries| - 1])
  }

  /** Where list i really begins in the posting list region. */
  function ListOffset(entries: seq<Entry>, i: nat): nat
    requires Writable(entries) && i <= |entries|
  {
    |Lists(entries[..i])|
  }

  /** Length of the dictionary lines of the first i words: where line i begins. */
  function LineOffset(entries: seq<Entry>, i: nat): nat
    requires i <= |entries|
  {
    if i == 0 then 0 else LineOffset(entries, i - 1) + |entries[i - 1].word| + 10
  }

  /** The first i lines of the dictionary. */
  function Dictionary(entries: seq<Entry>, i: nat): seq<byte>
    requires Writable(entries) && i <= |entries|
  {
    if i == 0 then []
    else Dictionary(entries, i - 1) + DictLine(entries[i - 1].word, ListOffset(entries, i - 1))
  }

  /** The character of a slot: a to z, then 0 to 9. */
  function SlotChar(slot: nat): byte
    requires slot < DICT_SLOTS
  {
    if slot < 26 then 97 + slot else 48 + (slot - 26)
  }

  /** The first entry whose first byte is at or after c; |entries| if there is none. */
  function FirstAtOrAfter(entries: seq<Entry>, c: byte, i: nat): (r: nat)
    requires i <= |entries| && forall j | 0 <= j < |entries| :: entries[j].word != []
    ensures i <= r <= |entries|
    ensures forall j | i <= j < r :: entries[j].word[0] < c
    ensures r < |entries| ==> c <= entries[r].word[0]
    decreases |entries| - i
  {
    if i == |entries| || c <= entries[i].word[0] then i else FirstAtOrAfter(entries, c, i + 1)
  }

  /** What the table of contents promises for a slot. */
  function SlotOffset(entries: seq<Entry>, slot: nat): nat
    requires slot < DICT_SLOTS && forall j | 0 <= j < |entries| :: entries[j].word != []
  {
    LineOffset(entries, FirstAtOrAfter(entries, SlotChar(slot), 0))
  }

  function TocLine(slot: nat, offset: nat): (r: seq<byte>)
    requires slot < DICT_SLOTS
    ensures |r| == TOC_ENTRY
  {
    [SlotChar(slot)] + [SPACE] + LittleEndian(offset, 8) + [NEWLINE]
  }

  function Toc(entries: seq<Entry>, slots: nat): (r: seq<byte>)
    requires slots <= DICT_SLOTS && forall j | 0 <= j < |entries| :: entries[j].word != []
    ensures |r| == slots * TOC_ENTRY
  {
    if slots == 0 then [] else Toc(entries, slots - 1) + TocLine(slots - 1, SlotOffset(entries, slots - 1))
  }

  /** A whole chunk file. */
  function FileBytes(urls: seq<Text>, entries: seq<Entry>): seq<byte>
    requires Writable(entries) && forall j | 0 <= j < |entries| :: entries[j].word != []
  {
    LittleEndian(|UrlTable(urls)|, 8) + [NEWLINE] + UrlTable(urls) + [NEWLINE]
    + Toc(entries, DICT_SLOTS) + [NEWLINE]
    + Dictionary(entries, |entries|) + [NEWLINE]
    + Lists(entries)
  }

  lemma TwoByteNumber(n: nat)
    requires n < 0x1_0000
    ensures LittleEndian(n, 4) == [n % 256, n / 256, 0, 0]
    ensures LittleEndian(n, 8) == [n % 256, n / 256, 0, 0, 0, 0, 0, 0]
  {
    assert LittleEndian(0, 2) == [0, 0];
    assert LittleEndian(0, 4) == [0, 0, 0, 0];
    assert LittleEndian(0, 6) == [0, 0, 0, 0, 0, 0];
    assert n / 256 / 256 == 0;
  }

  lemma SmallList()
    ensures Chained(NO_POST, [Post(1, 1), Post(1, 3), Post(4, 7)])
    ensures EncodePosts(NO_POST, [Post(1, 1), Post(1, 3), Post(4, 7)]) == [0, 1, 1, 2, 0, 3, 7]
  {
    PostBytes(NO_POST, Post(1, 1));
    PostBytes(Post(1, 1), Post(1, 3));
    PostBytes(Post(1, 3), Post(4, 7));
    assert EncodePosts(Post(1, 3), [Post(4, 7)]) == [0, 3, 7];
    assert EncodePosts(Post(1, 1), [Post(1, 3), Post(4, 7)]) == [2, 0, 3, 7];
  }

  /** Lines of the three tables, byte by byte. */
  lemma LinesAre(url: Text, word: Text)
    ensures UrlLine(0x102, url) == [2, 1, 0, 0, 32] + url + [10]
    ensures DictLine(word, 0x102) == word + [32, 2, 1, 0, 0, 0, 0, 0, 0, 10]
    ensures TocLine(0, 0x102) == [97, 32, 2, 1, 0, 0, 0, 0, 0, 0, 10] && TocLine(26, 0x102) == [48, 32, 2, 1, 0, 0, 0, 0, 0, 0, 10]
  {
    hide LittleEndian;
    TwoByteNumber(0x102);
  }

  /** And a whole list. */
  lemma ListIs(word: Text)
    ensures ListBytes(Entry(word, [Post(1, 1), Post(1, 3), Post(4, 7)], 2)) ==
              [3, 0, 0, 0, 0, 0, 0, 0, 32, 2, 0, 0, 0, 10, 0, 1, 1, 2, 0, 3, 7, 10]
  {
    hide LittleEndian, EncodePosts;
    TwoByteNumber(3);
    TwoByteNumber(2);
    SmallList();
  }

  // ---------------------------------------------------------------- what may be a dictionary

  predicate Delimiter(b: byte) {
    b == SPACE || b == NEWLINE || b == TAB || b == 0
  }

  /** Only words beginning with a to z or 0 to 9 are kept (sort_entries). */
  predicate Kept(word: Text) {
    word != [] && (97 <= word[0] <= 122 || 48 <= word[0] <= 57)
  }

  predicate Clean(word: Text) {
    forall i | 0 <= i < |word| :: !Delimiter(word[i])
  }
}
