# Seamus in Dafny

Seamus crawls pages, builds index chunks on disk, and answers boolean and phrase
queries over them. This project models its hard parts and proves what they are for.
`dafny verify dfyconfig.toml` checks everything.

## The parts

**Query execution** (`Postings`, `PhraseWalk`, `IsrTree`, `IsrMeaning`, `IsrBuild`,
`IsrOrder`, `IsrBounds`, `IsrExact`, `IsrFragment`; objects in `StreamReader`,
`PhraseReaders`, `QueryIsr`, `TreeBuilder`). A query becomes a tree of cursors over
posting lists. The tree is first a value, on which the theorems are proved; the classes
then move in the same way, method by method. The executor is not exact on every query.
`EveryRunBounded` says what holds of all driveable queries: nothing the query asks for is
lost, and an extra document at least satisfies the query without its negated leaves.
`QueryAnsweredExactly` gives a class of queries, `DriveSafeQuery`, on which the answer is
exactly the set semantics on every index. The class is recursive: an AND that is probed
may be driven by any child that stays steady when it is driven, as long as the driver, or
a child before each negation, says yes only where its words stand. `FragmentExactly` shows
the class to be exact on the queries `w (q | p1 ... pn)` of distinct words, where a part is
a word, a negated word or an OR of two words: outside the class `HazardAnswersWrongly`
builds the index on which the run is wrong. With repeated words it is sufficient only
(`RepeatedWordIsRight`).

**Chunk files** (`Utf8`, `PostingCodec`, `ChunkLayout`, `ChunkWriter`, `IndexBuilder`,
`LoadedChunk`, `WordOrder`, `RadixSort`, `ChunkIndex`). From documents to a file in two
passes, and back to readers: `LoadIndexed` closes the circle. The indexer sorts by signed
characters and the reader searches by unsigned bytes; `RadixSortedIsMemSorted` and
`LookupExact` say on which dictionaries that makes no difference.

**Queries on a chunk** (`Positions`, `ChunkManager`, `PhraseRun`, `ChunkQueries`,
`ChunkSearch`). The driving loop with its position readers, the leapfrog and the phrase
walk, each up to a deadline that may cut in anywhere. `SearchChunk` composes indexing,
loading, parsing and execution: the hits of a safe text are exactly the documents whose
own words satisfy it, where `HasPhrase` and `HasWord` say what it is for a document to have
a phrase or a word.

**Query compiler** (`QueryTokens`, `QueryParser`, `QueryLaws`, `QueryMeaning`,
`QueryDnf`, `QueryPathSort`, `QueryTrie`, `QueryCompiler`, `QuerySearch`). `QueryLaws`
says on the text what a query means: bars, texts beside each other, parentheses, minus
signs and terms. Every stage keeps the meaning, except that a path which is a proper
prefix of another is lost in the trie; `CompiledAnswers` says exactly what the trie
answers, and `CompiledExactly` when that is the query.

**Containers** (`ProbingTable`, `Deque`). The open-addressing table is a finite map and
the two-ended deque a sequence, with its cost of growing over any run.

**Robots** (`RobotsWildcard`, `RobotsRules`, `RobotsDocumented`, `RobotsCache`). Pattern
matching against its plain reading, the directive that decides, when that is the one the
comments promise, and the cache as a linked list and a map.

**Frontier and pool** (`Frontier`, `FeederTurns`, `ThreadPool`). Protocols whose steps are
what one thread does under one lock; the theorems hold over every interleaving. Besides
what never goes wrong they say what gets done: each turn of the feeder empties the first
bucket that is not empty and drains the rejections that are due (`TurnFeeds`,
`TurnDrains`), and while a task is queued or running some worker of the pool has a step to
take, until every join is let through (`NeverStuck`, `WorkEnds`, `JoinsWhenDone`).

**Sorting and ranking** (`QuickSort`, `Rearranging`, `TopPages`). In-place sorts and the
ten best pages, however they are spread over chunks and machines.

## What the code does that its comments do not say

- `index_chunk/query_isr.h` asks for probes in increasing order only. An AND below an OR
  that is probed is moved when the OR takes its first document. If an OR drives it and it
  has a negated leaf, it can then say yes to an earlier document wrongly
  (`ExecutorAnswersWrongly`).
- `index_chunk/chunk_manager.h` looks words up by `memcmp`, and `lib/algorithm.h` sorts
  them by signed `char`: of the words `a\xC3` and `aa` the first is never found
  (`NonAsciiWordMissed`).
- `lib/utf8.h` replaces 0xD800 to 0xDFFF, 0xFDD0 to 0xFDEF, 0xFFFE and 0xFFFF on reading
  but not on writing, so a document or location delta in these ranges is read back as
  another one; the framing stays in step (`CarriedIff`, `SurrogateGapMoved`,
  `DecodeEncoded`).
- `SizeOfUtf8` counts two bytes for a value beyond 31 bits, and `WriteUtf8` writes three
  (`SizeIsLength`), so the two passes agree on a list exactly when its deltas are smaller
  (`SizesAgree`).
- `query/query_helpers.h` accepts a path at a leaf of the trie only, so in `a | a b` the
  shorter path is never accepted (`ShorterPathLost`; `CompiledExactly` and
  `PlainCompiledExactly` say when nothing is lost). An empty phrase keeps word id -1 and is
  evaluated like the root: at the end of a path it stops the walk (`EmptyPhraseLost`),
  elsewhere it lets it through (`CompiledAnswers`).
- `parser/RobotsManager.cpp` says it announces the largest crawl delay of all applicable
  rules, and takes it over those with a directive that matches the path, which is what
  the comment in `Rule::Match` calls applicable. The two differ exactly as
  `DelayAsDocumented` says, for example in `DelayNotAnnounced`.
- The same file ranks directives by their literal bytes without wildcards, and counts a
  final `$` although it is no literal byte. `RankedAsDocumented` has the exact condition
  for two patterns and `VerdictAsDocumented` for the verdict; `AnchorDenies` is a file
  whose documented ranking allows a path that the code denies.
- Its `UrlDecode` drops an escape cut short by the end of the text (`CutEscapeDropped`)
  and ends the text at a decoded `%00` (`ZeroEnds`); otherwise it decodes as its comments
  say (`DecodesAsDocumented`).
- `lib/unordered_map.h` can throw "Table Full" on a look-up in a table of capacity 1 or 2
  that its load factor allows to be full (`FullExactly`, `FullTable`).

## Reading the contracts

Words, URLs and files are sequences of bytes; bit masks are written as arithmetic. Found
flags, deadlines, clocks and the fetched robots files are parameters, unconstrained unless
a contract says otherwise. Reader objects are specified through the cursor they stand
for: `Cursor()`, `Node()`, `Contents()` and the like are the abstraction functions, and a
method's `ensures` gives the new abstract value. Where a class of inputs is singled out
(`DriveSafeQuery`, `SignsAgree`, `DeltasSmall`), the class is a predicate that can be checked
before the call.

## Model

| member | source | states |
|---|---|---|
| IsrBounds.EveryRunBounded | index_chunk/query_isr.h:28-37 | For every index and every driveable query: the run ascends, misses no document the query asks for, and whatever it adds satisfies the query once its negated leaves are ignored |
| IsrExact.QueryAnsweredExactly | index_chunk/query_isr.h:353-375 | For every index and every query of the safe class (read off the query alone) the run lists exactly the documents of the set semantics, ascending, each once |
| IsrFragment.FragmentExactly | index_chunk/query_isr.h:230-293 | The safe class is exact on the queries w (q OR p1..pn) of distinct words, each part a word, a negated word or an OR of two words: such a query is answered rightly on every index if and only if it is in the class |
| IsrFragment.HazardAnswersWrongly | index_chunk/query_isr.h:230-293 | Wherever an OR that may drive stands beside a negated word that no plain word comes before, there is an index on which the run holds document 1 and the query does not ask for it |
| IsrExact.ExecutionExact | index_chunk/query_isr.h:197-212 | The same with the condition on the built tree, so whichever driver the document counts picked |
| IsrFragment.ExecutorAnswersWrongly | index_chunk/query_isr.h:230-293 | The smallest such query, w (q OR ((x OR y) -z)): for any five distinct words there is an index on which it is answered wrongly |
| IsrFragment.NestedAndIsSafe | index_chunk/query_isr.h:230-293 | An AND of words in place of the inner OR is in the safe class, however many words it has |
| IsrFragment.RepeatedWordIsRight | index_chunk/query_isr.h:230-293 | With a word repeated the class is not necessary: w (w OR rest) is answered rightly on every index, whatever the rest is |
| IsrOrder.EveryRunClimbs | index_chunk/query_isr.h:19-22 | Any run of any query, safe or not, is strictly ascending |
| IsrOrder.WordlessFindsNothing | index_chunk/chunk_manager.h:402-402 | A driveable query without a positive word has an empty run |
| IsrExact.ProbeExact | index_chunk/query_isr.h:214-219 | A node that is exact from lo answers every probe at or after lo as the set semantics does, in both directions, and stays exact from the larger of lo and the probed document |
| IsrExact.NextExact | index_chunk/query_isr.h:256-280 | From a node driven up to cur, next_doc answers the least match after cur, or 0 when there is none, and leaves the node driven to its answer |
| IsrExact.ProbeHonest | index_chunk/query_isr.h:282-287 | A node that makes no wrong yes from lo on makes none when probed there, and stays so from the larger of lo and the probed document |
| IsrExact.NextSteady | index_chunk/query_isr.h:256-280 | A steady node, one that can be probed below the document it was driven to, is still steady after next_doc, also when it has run dry |
| IsrExact.NextRight | index_chunk/query_isr.h:197-212 | A node driven rightly answers a match, and is driven rightly to it |
| IsrExact.NegationFreeHonest | index_chunk/query_isr.h:61-65 | A negation-free node never says yes wrongly, wherever its cursors stand |
| IsrBounds.ProbeKeeps | index_chunk/query_isr.h:282-287 | In any tree, probing documents up to x never loses a match x, and probing x itself finds it |
| IsrBounds.NextKeeps | index_chunk/query_isr.h:197-212 | In any tree that has x ahead of it, next_doc answers x or an earlier document and then still has x ahead |
| IsrBounds.PrimedKeeps | index_chunk/query_isr.h:232-236 | Taking a child's first document while an OR is built loses no match, driveable or not |
| IsrBounds.NextPlausible | index_chunk/query_isr.h:56-59 | Whatever the cursors, an answer of next_doc satisfies the plan with its negated leaves ignored |
| IsrBuild.BuildMeaning | index_chunk/query_isr.h:353-375 | The built tree matches the same documents as the query it was built from |
| IsrBuild.BuildFlags | index_chunk/query_isr.h:176-181 | The built tree is driveable, or negation-free, exactly when the query is |
| IsrBuild.BuildWellDriven | index_chunk/query_isr.h:166-173 | In every built AND the driver is a driveable child, and there is none exactly when no child is driveable |
| IsrBuild.PickDriver | index_chunk/query_isr.h:166-173 | The driver picked child by child has the least estimate among the driveable children; -1 exactly when there are none |
| IsrBuild.WordsAre | index_chunk/query_isr.h:82-93 | A word leaf opens its word, and a phrase leaf all the words of the phrase in order, however many spaces stand before, between and after them |
| IsrBuild.MinDocsIs | index_chunk/query_isr.h:100-107 | A leaf is estimated by the least document count of its words |
| IsrBuild.MinEstimateIs | index_chunk/query_isr.h:183-195 | An AND is estimated by its rarest driveable child, and by 0 when it has none |
| IsrBuild.SumEstimateIs | index_chunk/query_isr.h:247-257 | An OR is estimated by the sum over its children, cut off at 32 bits |
| IsrExact.PrimedHonest | index_chunk/query_isr.h:232-236 | A calm child primed by add_child makes no wrong yes, even below the document it was primed to |
| IsrExact.SafeForAnyIndex | index_chunk/query_isr.h:166-173 | A query of the safe class is built into a safe tree on every index, whichever driver the estimates pick |
| PhraseWalk.ProbeExact | index_chunk/query_isr.h:123-136 | Phrase and term leaves: a monotone probe says yes exactly when some P has word i at P+i for all i, and stays ready for later documents |
| PhraseWalk.NextExact | index_chunk/query_isr.h:110-121 | As driver the phrase walk answers the next document with the phrase and skips none |
| PhraseWalk.AdjacencySound | index_chunk/query_isr.h:142-154 | check_adjacency says yes only where every word stands in its place |
| PhraseWalk.AdjacencyComplete | index_chunk/query_isr.h:142-154 | check_adjacency says yes wherever every word stands in its place and no stream has passed it |
| PhraseWalk.AdjacencyKeeps | index_chunk/query_isr.h:142-154 | No stream is moved past the post a later hit would need of it |
| Postings.AdvanceTo | index_chunk/isr.cpp:117-130 | The first post at or after the document, never moving back; only posts before the document are passed |
| Postings.Walk | index_chunk/isr.cpp:125-129 | The walking loop stops at the first post of or after the document, or at the end of the list |
| Postings.AdvanceToKeeps | index_chunk/isr.cpp:117-130 | A seek to a document no later than a post's never passes that post and does not run out |
| Positions.LocationsExact | index_chunk/isr.cpp:135-154 | The locations of a document in a list: exactly its posts there, ascending |
| Positions.SeekIsExact | index_chunk/isr.cpp:117-130 | A forward seek depends on the list alone: it stops at the first post of or after the document, pending slot or not |
| Positions.CollectIsExact | index_chunk/isr.cpp:135-154 | Seek and collect gives exactly the word's locations in the document, and the overshoot left pending loses nothing for any later document |
| StreamReader.IndexStreamReader.constructor | index_chunk/isr.cpp:9-71 | On the place where a list stands in the region the reader opens as a fresh cursor over exactly that list; without an entry it is empty |
| StreamReader.IndexStreamReader.AdvanceBase | index_chunk/isr.cpp:77-105 | Decoding one post moves the cursor by exactly one post of the list; at the end it answers no post |
| StreamReader.IndexStreamReader.Advance | index_chunk/isr.cpp:107-115 | Serves the pending post without decoding, else the next one |
| StreamReader.IndexStreamReader.AdvanceTo | index_chunk/isr.cpp:117-130 | Refines the list cursor's seek; an exhausted reader keeps its last document |
| StreamReader.IndexStreamReader.AdvanceToNextDoc | index_chunk/isr.h:34-34 | Refines the cursor's step to the next document |
| StreamReader.IndexStreamReader.Collect | index_chunk/isr.cpp:135-154 | Appends exactly the cursor's collected positions to what was there, leaving the next document's post pending |
| PhraseReaders.TermNextDoc | index_chunk/query_isr.h:56-59 | The readers move as the leaf's next_doc prescribes |
| PhraseReaders.TermProbe | index_chunk/query_isr.h:61-65 | The readers move as the leaf's probe prescribes |
| PhraseReaders.CheckAdjacency | index_chunk/query_isr.h:142-154 | The loop over the streams refines the walk's adjacency check |
| PhraseReaders.PhraseNextDoc | index_chunk/query_isr.h:110-121 | The loop refines the walk's next_doc |
| PhraseReaders.PhraseProbe | index_chunk/query_isr.h:123-136 | The loop refines the walk's probe |
| QueryIsrNodes.QueryIsr.Leaf | index_chunk/query_isr.h:316-326 | A new leaf stands for the tree value with its streams |
| QueryIsrNodes.QueryIsr.Op | index_chunk/query_isr.h:328-338 | A new operator without children |
| QueryIsrNodes.QueryIsr.IsDriveable | index_chunk/query_isr.h:239-245 | Answers driveability of the tree it stands for, by the three rules |
| QueryIsrNodes.QueryIsr.EstimatedNDocs | index_chunk/query_isr.h:183-195 | Answers the estimate of the tree it stands for, capped at 32 bits over an OR |
| QueryIsrNodes.QueryIsr.Probe | index_chunk/query_isr.h:214-219 | The object and its parts become what the tree value's probe gives, and the answer is its answer; nothing else moves |
| QueryIsrNodes.QueryIsr.NextDoc | index_chunk/query_isr.h:197-212 | The object and its parts become what the tree value's next_doc gives, and the answer is its answer; nothing else moves |
| QueryIsrNodes.QueryIsr.AddAndChild | index_chunk/query_isr.h:166-173 | Attaches the child and keeps the driver the one the all-children choice would pick |
| QueryIsrNodes.QueryIsr.AddOrChild | index_chunk/query_isr.h:232-236 | Attaches the child after its first next_doc, whose answer is noted |
| TreeBuilder.SplitPhrase | index_chunk/query_isr.h:82-93 | The words of a phrase are its maximal runs without a space |
| TreeBuilder.MakeLeaf | index_chunk/query_isr.h:316-326 | The leaf of a term, with a reader of its own for each word |
| TreeBuilder.BuildTree | index_chunk/query_isr.h:353-375 | The object tree stands for the built tree value, shares nothing, and the arena holds the query's leaves in order |
| Utf8.RoundTrip | lib/utf8.h:70-114 | Reading what was written gives the carried value and consumes exactly the bytes written, whatever follows |
| Utf8.CarriedExactly | lib/utf8.h:106-111 | Written and read back, a value is the same if and only if it has at most 31 bits and lies in no rejected range; otherwise the replacement character comes back |
| Utf8.SizeIsLength | lib/utf8.h:33-41 | SizeOfUtf8 is the number of bytes written if and only if the value has at most 31 bits |
| Utf8.DecodeIsCanonical | lib/utf8.h:102-113 | What decodes to a value is that value's only spelling; overlong forms are rejected |
| Utf8.EncodingIs | lib/utf8.h:137-166 | The bytes written for up to 16 bits, six bits of the value in each but the first, and the replacement character beyond 31 bits |
| Utf8.LongEncodingIs | lib/utf8.h:137-166 | The bytes written for 17 to 31 bits |
| Utf8.WriteUtf8 | lib/utf8.h:137-166 | Writes the encoding at p and nothing else; with too little room the buffer is untouched and p comes back |
| Utf8.ReadUtf8 | lib/utf8.h:70-114 | Value and end position are those of the decoder, also for malformed and cut-short bytes |
| PostingCodec.SizesAgree | index/Index.cpp:102-124 | The first pass never reckons more than the second writes, and reckons exactly that if and only if no document or location delta it writes has more than 31 bits |
| PostingCodec.DecodeEncoded | index_chunk/isr.cpp:94-105 | Decoding any written list gives the carried list post for post: a value the code cannot carry changes posts but never the framing |
| PostingCodec.CarriedIff | index_chunk/isr.cpp:94-105 | A list is read back unchanged if and only if no delta lies in a range the reader rejects |
| PostingCodec.SurrogateGapMoved | index_chunk/isr.cpp:94-105 | A word at location 1 and again 0xD800 further on is read back at 1 and 1 + 0xFFFD, whatever bytes follow |
| PostingCodec.AscendingIsChained | index/Index.cpp:301-318 | Every ascending list of posts can be delta-coded from the start |
| PostingCodec.PostBytes | index/Index.cpp:301-318 | Steps below 128 take a byte each: a zero, the step to the document and the location, or the step on within the document |
| ChunkLayout.NumberRoundTrip | index/Index.cpp:39-42 | A number that fits k bytes is read back from its k little-endian bytes |
| ChunkLayout.LowByteFirst | index/Index.cpp:39-42 | Byte i of a number is its digit to base 256 that weighs 256 to the i |
| ChunkLayout.LinesAre | index/Index.cpp:45-165 | A URL line, a dictionary line and the first letter's and the first digit's line of the table of contents, byte by byte |
| ChunkLayout.ListIs | index/Index.cpp:210-320 | A whole posting list, byte by byte |
| ChunkLayout.FirstAtOrAfter | index/Index.cpp:130-144 | The entry of a slot is the first whose first byte is at or after the slot's character |
| ChunkWriter.FirstPass | index/Index.cpp:83-128 | Every list location is the true offset of that list, every occupied slot the offset of its first word, and the dictionary size is its length |
| ChunkWriter.FillGaps | index/Index.cpp:134-144 | After filling, each of the 36 slots holds the offset of the first dictionary line whose word begins at or after the slot's character |
| ChunkWriter.WriteList | index/Index.cpp:210-320 | One list is its header, its delta-coded posts and a newline, byte for byte |
| ChunkWriter.WriteLists | index/Index.cpp:187-209 | At every word the position reached is the location the first pass gave: the drift check never fires |
| ChunkWriter.Persist | index/Index.cpp:24-326 | The file written in two passes is the layout in which every offset is true |
| IndexBuilder.PostsOfExactly | index/Index.cpp:454-460 | A word's list holds exactly its places in the documents, ascending and each once |
| IndexBuilder.HasDelimiter | index/Index.cpp:436-451 | A word is rejected exactly when it holds a space, tab, newline or zero byte |
| IndexBuilder.LineGivesWord | index/Index.cpp:418-452 | A line gives its word exactly when it has one, down to a single byte, is no title tag, and holds no space, tab, newline or zero byte |
| IndexBuilder.LineGivesUrl | index/Index.cpp:397-410 | The URL line gives its URL, with a newline at its end or without |
| IndexBuilder.IndexChunk.IndexDocument | index/Index.cpp:380-474 | A document with a URL is added with its accepted words numbered from 1, a blank URL adds nothing, and the chunk is written exactly when it has 500000 documents or its words' posts take 512 MiB |
| IndexBuilder.ShortDocsFit | index/Index.cpp:412-462 | Documents of fewer than 2^31 words have no delta that the two passes would count differently |
| IndexBuilder.DictionaryFits | index/Index.cpp:83-100 | When the bytes of all words fit, so does the dictionary, with a line for each indexed word once |
| IndexBuilder.IndexChunk.AddWords | index/Index.cpp:415-462 | The word loop adds exactly the document's accepted words to lists and document counts, and the posts' memory to the budget |
| IndexBuilder.IndexChunk.SortEntries | index/Index.cpp:344-368 | The indexed words that begin with a to z or 0 to 9, all of them, in radix order |
| IndexBuilder.IndexChunk.Flush | index/Index.cpp:337-341 | Writes one file of exactly the documents since the last flush and starts empty |
| LoadedChunk.LoadUrls | index_chunk/chunk_manager.h:175-191 | Reads back every URL of a written table, in order |
| LoadedChunk.LoadDictionary | index_chunk/chunk_manager.h:206-226 | Reads back every word and offset of a written dictionary, though offsets may hold space and newline bytes |
| LoadedChunk.LoadedIndex.constructor | index_chunk/chunk_manager.h:124-244 | A written file is read back exactly: URLs, words, true offsets and post counts |
| ChunkIndex.LoadIndexed | index_chunk/chunk_manager.h:163-243 | Index, persist and load: the URLs are back and every kept word is served with exactly its posts, for words of agreeing signs and lists whose deltas the code carries |
| ChunkIndex.OpenReader | index_chunk/isr.cpp:9-11 | A reader for any word, present or not, opens on that word's list of the index |
| ChunkIndex.FileIsWritten | index/Index.cpp:24-326 | Each file the indexer flushed is one the loader can read back |
| WordOrder.Lookup | index_chunk/chunk_manager.h:71-119 | The loop returns the place the binary search of the dictionary gives, on any dictionary, sorted or not |
| WordOrder.SearchFinds | index_chunk/chunk_manager.h:71-119 | In memcmp order the search finds a word if and only if it is there |
| WordOrder.LookupExact | index_chunk/chunk_manager.h:71-119 | On a dictionary the indexer sorted, every word in it is found if and only if no two words first differ in a byte of 128 or more against a smaller byte or the end |
| WordOrder.NonAsciiWordMissed | index_chunk/chunk_manager.h:71-119 | A dictionary of two words in the indexer's order in which the reader misses the first word |
| WordOrder.RadixSortedIsMemSorted | lib/algorithm.h:25-58 | A radix-sorted dictionary is in memcmp order if and only if the signs of its words agree |
| WordOrder.SmallerIsOrder | lib/algorithm.h:28-47 | The radix order is a strict total order on words without a zero byte |
| WordOrder.MemLessTransitive | index_chunk/chunk_manager.h:77-90 | The order the search assumes is transitive |
| WordOrder.Memcmp | index_chunk/chunk_manager.h:80-81 | Negative, zero or positive as the first difference says |
| RadixSort.SortRange | lib/algorithm.h:25-53 | Sorting a range leaves a permutation of it in order and touches nothing else; it ends because the range shrinks or one more character of distinct words is shared |
| RadixSort.Partition | lib/algorithm.h:28-47 | Three runs: characters below, equal to and above the pivot's, a permutation of the range |
| RadixSort.Sort | lib/algorithm.h:55-58 | The same words, in radix order |
| ChunkManager.Query | index_chunk/chunk_manager.h:360-446 | Up to cap and deadline the hits are the run's documents in order, each with its URL and the exact positions of every positive word; an undriveable query has none |
| ChunkManager.UniqueWordsExact | index_chunk/chunk_manager.h:378-400 | Each word of a positive leaf is collected exactly once, and no other word |
| ChunkManager.NothingToCollect | index_chunk/chunk_manager.h:402-402 | Returning early without positive words loses no document |
| ChunkManager.WordInfo | index_chunk/chunk_manager.h:431-441 | One word of one hit: its exact locations in the document, none if it does not occur, and ready for every later document |
| ChunkManager.GetUrl | index_chunk/chunk_manager.h:297-306 | Document d has the d-th URL, counted from 1; any other number gives the marker |
| ChunkSearch.SearchChunk | index_chunk/chunk_manager.h:360-446 | From documents to hits: on the chunk file of the documents a safe text reports, in order and up to 2000 hits and the deadline, exactly the documents whose own words satisfy it, each with its URL and, for each positive word of the query, its places there and the number of documents that have it |
| ChunkSearch.HasPhrase | index_chunk/query_isr.h:75-157 | A document has a phrase exactly when its words, however they are spaced in the query, are of the kind that is indexed and stand in it one after the other |
| ChunkSearch.HasWord | index_chunk/query_isr.h:41-68 | A document has a word exactly when it begins with a to z or a digit and is one of the document's words |
| ChunkSearch.RunIsSatisfying | index_chunk/query_isr.h:353-375 | On the index of given documents the run of a safe text is the list of those documents whose words satisfy the text |
| ChunkQueries.DefaultQuery | index_chunk/chunk_manager.h:472-583 | Wherever the deadline cuts in, a prefix of the ascending intersection with exact positions, in rarest-first order of words; n rounds give at most n documents and all that are numbered n or less |
| ChunkQueries.DefaultAnswerExact | index_chunk/chunk_manager.h:517-582 | Hit i is the i-th document in which all words occur; without a deadline none is missing, and n rounds before it leave out none that is numbered n or less |
| ChunkQueries.IntersectionExact | index_chunk/chunk_manager.h:527-550 | The intersection lists every document in which all words occur, ascending, and no other |
| ChunkQueries.OrderByCount | index_chunk/chunk_manager.h:497-508 | A permutation of the words by document count, least first, that keeps the order of equal counts |
| ChunkQueries.Leapfrog | index_chunk/chunk_manager.h:517-582 | No document between two targets holds all words, so skipping loses none |
| ChunkQueries.ArrangedIntersection | index_chunk/chunk_manager.h:497-508 | Reordering the words does not change the intersection |
| ChunkQueries.PhraseQuery | index_chunk/chunk_manager.h:589-679 | No words: nothing; one word: default_query; else the first of the phrase's places, all of them without a deadline and as many as the rounds before it find |
| ChunkQueries.PlacesExact | index_chunk/chunk_manager.h:635-678 | The places: every document with the phrase, ascending and once each, with the first place of the phrase in it |
| ChunkQueries.PlacesByExact | index_chunk/chunk_manager.h:619-678 | Without a deadline every place is found; n rounds before the deadline find at most n, and all that lie among the first n posts of the first word |
| PhraseRun.RunExact | index_chunk/chunk_manager.h:635-678 | From an anchor on, the walk finds each document with the phrase once, since every post it skips lies before every later wanted position |
| PhraseRun.WithinRounds | index_chunk/chunk_manager.h:619-678 | n rounds from an anchor find at most n hits and leave none among the next n posts of the first word |
| QueryMeaning.NegateAst | query/expressions.h:134-154 | The recursive rewrite is the negation function |
| QueryMeaning.NegateComplements | query/expressions.h:134-154 | negate_ast complements the meaning under every assignment |
| QueryMeaning.NegateTwice | query/expressions.h:134-154 | negate_ast is its own inverse |
| QueryMeaning.NegateProper | query/expressions.h:134-154 | Negation keeps at least two children under every operator |
| QueryTokens.Tokenize | query/expressions.h:212-256 | The loop's tokens are those read off the text's front |
| QueryTokens.WordIsWhole | query/expressions.h:240-255 | A text that does not begin with a minus sign and holds none of the bytes 9, 10, 13, 32, 34, 40, 41, 124 is one word, up to the next such byte or the end |
| QueryTokens.SignsStand | query/expressions.h:215-228 | The four space bytes are passed over, and each parenthesis, bar and minus sign is a token wherever a token may begin |
| QueryTokens.QuotesEnclose | query/expressions.h:229-240 | A phrase is what stands between two quotes, or after the last one |
| QueryTokens.SignsNeedNoSpace | query/expressions.h:240-255 | Bars, parentheses and quotes end a word without a space |
| QueryTokens.DashInsideWord | query/expressions.h:244-247 | spider-man is one word |
| QueryTokens.LexRender | query/expressions.h:212-256 | Every list of tokens there can be has a text that gives exactly it |
| QueryTokens.LexedIsLexable | query/expressions.h:243-253 | Every token of a text is one there can be: no empty word, none that starts with a minus sign or holds a separator |
| QueryTokens.LexIsStable | query/expressions.h:212-256 | Writing a text's tokens out and reading them again changes nothing |
| QueryParser.AcceptsExactly | query/expressions.h:262-319 | The recursive descent accepts exactly the token strings of the grammar, and the grammar is unambiguous |
| QueryParser.SoundE | query/expressions.h:305-319 | What was read is spelled by the tree that was found, and the rest is what is left |
| QueryParser.CompleteE | query/expressions.h:305-319 | Every tree of the grammar is found again, whatever follows it |
| QueryParser.ParseFactor | query/expressions.h:262-289 | Reads the grammar's factor, with the ids given out in order, or fails |
| QueryParser.ParseTermSeq | query/expressions.h:291-303 | Reads the longest sequence of factors; a single factor is not wrapped |
| QueryParser.ParseExpr | query/expressions.h:305-319 | Reads the alternatives; a single one is not wrapped |
| QueryParser.ParseAst | query/expressions.h:362-371 | Succeeds if and only if the tokens are a sentence of the grammar, with that sentence's tree; no tokens are an error |
| QueryParser.ParsedMeaning | query/expressions.h:262-319 | The tree is true exactly when the grammar's meaning is, minus as complement, and every operator has two children or more |
| QueryLaws.LexJoins | query/expressions.h:212-256 | Before a byte that ends a word a text with all quotes closed is read as if it stood alone |
| QueryLaws.TermIsAsked | query/expressions.h:276-286 | A word asks for that word and a quoted text for that phrase |
| QueryLaws.BarIsOr | query/expressions.h:305-320 | Two sentences with a bar between them are a sentence that is true exactly when one of them is |
| QueryLaws.BesideIsAnd | query/expressions.h:291-303 | Two sentences without a bar outside parentheses, beside each other, are a sentence that is true exactly when both are, so AND binds tighter than OR |
| QueryLaws.ParenthesesGroup | query/expressions.h:269-275 | A sentence in parentheses is one factor with the sentence's meaning |
| QueryLaws.MinusIsNot | query/expressions.h:265-268 | A minus sign before a factor gives a factor that is true exactly when that one is not |
| QueryLaws.OneReading | query/expressions.h:262-320 | A text has at most one tree, and the abstract syntax the parser builds has that tree's meaning |
| QueryDnf.GetDnf | query/expressions.h:160-201 | The loops compute the normal form's paths in order |
| QueryDnf.DnfMeaning | query/expressions.h:160-201 | Some path is true if and only if the tree is |
| QueryDnf.DriveableIffPositive | query/expressions.h:386-394 | A parsed tree is driveable if and only if every path has a term that is not negated: the front end's test and the shard's agree |
| QueryDnf.DnfTerms | query/expressions.h:160-201 | The paths hold leaves of the tree only |
| QueryPathSort.CountTerms | query/expressions.h:396-414 | Each different term once, with the exact number of its occurrences over all paths |
| QueryPathSort.SortPath | query/expressions.h:416-437 | A permutation of the path, more frequent terms first and smaller ids first among equals |
| QueryPathSort.SortPaths | query/expressions.h:396-437 | Every path is sorted by the counts over all paths, and they stay in their order |
| QueryPathSort.SortedMeaning | query/expressions.h:416-437 | Sorting changes the meaning of no path |
| QueryTrie.QueryArena.Descend | query/expressions.h:444-463 | Leads to the one node whose path has this term more, made only if it was missing; fails only when the arena is full |
| QueryTrie.QueryArena.AddPaths | query/expressions.h:439-465 | The trie's nodes are exactly the prefixes of the paths, each once; it fails if and only if the paths, the empty one counted, have more than 128 prefixes |
| QueryTrie.AssignWordIds | query/expressions.h:326-357 | After the walk two nodes have the same id exactly when they have the same text and kind, and ids index the dictionary |
| QueryTrie.EvaluateNode | query/query_helpers.h:113-132 | A node is true exactly when some leaf below it that has a text is reached through keys that are satisfied or have no text |
| QueryTrie.EvaluatesUnextended | query/query_helpers.h:98-133 | evaluate_query is true exactly when some path that is no proper prefix of another ends in a text and has all its terms with a text satisfied |
| QueryTrie.EmptyText | query/query_helpers.h:113-132 | A node without text passes like the root: it is true exactly when a child is, and never at a leaf |
| QueryCompiler.ParseQueryTree | query/expressions.h:374-469 | Fails exactly on texts that are no sentence, on an all-negated path, and as out of nodes if and only if the sorted paths have more than 128 prefixes; else a trie of the sorted paths with every node numbered |
| QueryCompiler.CompilePaths | query/expressions.h:396-468 | Sorting, merging and numbering give a trie that is ready to be evaluated, unless the sorted paths have more than 128 prefixes, and only then |
| QueryCompiler.FewTermsFit | query/expressions.h:86-98 | Paths of fewer than 128 terms in all have at most 128 prefixes, so they are never refused for want of nodes |
| QueryCompiler.CompiledAnswers | query/query_helpers.h:98-133 | For every compiled query and every assignment the answer is true exactly when such a path is passed; if every leaf has a text, those are the satisfied paths, so the trie is never true where the query is false |
| QueryCompiler.CompiledExactly | query/query_helpers.h:98-133 | It agrees with the query on every assignment if and only if whatever satisfies a path that another extends satisfies one that none extends |
| QueryCompiler.PlainCompiledExactly | query/query_helpers.h:98-133 | Without negated terms that is so if and only if each path that another extends has all the terms of some path that none extends |
| QueryCompiler.EmptyPhraseLost | query/query_helpers.h:96-107 | In a query of a word and an empty phrase after it the trie says no whatever was found |
| QueryCompiler.EmptyPhraseParsed | query/expressions.h:262-319 | The tree of that example is what the parser makes of its tokens |
| QueryCompiler.ShorterPathLost | query/query_helpers.h:123-132 | In a OR (a b) an assignment with a alone satisfies the query and the trie says no |
| QueryCompiler.ShorterPathParsed | query/expressions.h:305-319 | The two-path tree of that example is what the parser makes of its tokens |
| QuerySearch.HoldsIsTrue | index_chunk/query_isr.h:353-375 | The executor's set semantics of a tree is its truth under the terms a document has |
| QuerySearch.PhraseIsHad | index_chunk/query_isr.h:75-157 | A document of an index has a phrase exactly when its words, however spaced in the query, are posted in places that follow each other |
| QuerySearch.WordIsHad | index_chunk/query_isr.h:41-68 | A document of an index has a word exactly when the word is posted in it |
| QuerySearch.TextIsAnswered | query/expressions.h:362-371 | From text to documents: a safe query's run is exactly the documents in which the grammar says the text is true, ascending |
| QuerySearch.TextLosesNothing | query/expressions.h:362-371 | From text to documents for any driveable query: no document in which the text is true is lost |
| QuerySearch.NoEmptyPhrase | query/expressions.h:329-330 | A text without an empty phrase gives every leaf a text, which is what the word ids need |
| ProbingTable.HashTable.constructor | lib/unordered_map.h:187-192 | An empty table of the given power-of-two capacity |
| ProbingTable.HashTable.FindIndex | lib/unordered_map.h:152-174 | The key's own slot if it is bound, else the first slot it may go to; none only when every slot is filled |
| ProbingTable.HashTable.FullExactly | lib/unordered_map.h:173-173 | Table Full is thrown exactly when the key is unbound and there are as many bindings as slots, which the load factor allows below capacity 4 only |
| ProbingTable.FullTable | lib/unordered_map.h:173-173 | Two keys put into a table of capacity 2, and the look-up of a third throws, whatever the hash function |
| ProbingTable.HashTable.Get | lib/unordered_map.h:181-184 | What the map binds to the key; nothing exactly when it is unbound |
| ProbingTable.HashTable.Insert | lib/unordered_map.h:256-269 | The map with this binding, whether the table grew, a tombstone was reused or a value overwritten |
| ProbingTable.HashTable.Index | lib/unordered_map.h:347-363 | The slot of the key; an absent key is first bound to the zero value, and no other binding changes |
| ProbingTable.HashTable.Assign | lib/unordered_map.h:362-362 | Writing through the reference changes that key's value only |
| ProbingTable.HashTable.Erase | lib/unordered_map.h:272-283 | The map without the key; true exactly when it was bound; every other key stays reachable past the tombstone |
| ProbingTable.HashTable.Rehash | lib/unordered_map.h:365-378 | Below the load factor the slots stay; at or above it the table grows, keeps its map and is below the load factor again |
| ProbingTable.HashTable.Reserve | lib/unordered_map.h:381-386 | A reserved table keeps the map |
| ProbingTable.HashTable.Reallocate | lib/unordered_map.h:114-147 | Every binding is placed again, tombstones are dropped, the map is the same |
| ProbingTable.HashTable.Iterate | lib/unordered_map.h:388-439 | Visits each binding of the map once and nothing else |
| ProbingTable.NotBeyondEmpty | lib/unordered_map.h:159-160 | A filled slot's key is met before any empty slot on its probe sequence, so an empty slot proves absence |
| ProbingTable.Bury | lib/unordered_map.h:278-279 | A tombstone removes one binding and cuts off no other |
| ProbingTable.BitCeil | lib/unordered_map.h:374-374 | The least power of two that is not below n |
| Deque.Deque.PushBack | lib/deque.h:72-82 | The sequence with the value at its end; the buffer moves as the shape says |
| Deque.Deque.PushFront | lib/deque.h:100-110 | The sequence with the value at its front; the buffer moves as the shape says |
| Deque.Deque.PopBack | lib/deque.h:127-138 | The sequence without its last element; an emptied deque keeps left equal to right inside the buffer |
| Deque.Deque.PopFront | lib/deque.h:141-152 | The sequence without its first element; an emptied deque keeps left equal to right inside the buffer |
| Deque.Deque.At | lib/deque.h:168-168 | Element i of the sequence |
| Deque.Deque.Realloc | lib/deque.h:183-204 | The same sequence in a new buffer, padded by half its size plus one on both sides |
| Deque.Moved | lib/deque.h:72-152 | Every push and pop keeps the bounds inside the buffer, left equal to right when empty, and changes the size by one |
| Deque.GrowthIsAmortised | lib/deque.h:183-204 | Over any run from a new deque realloc_ moves at most three elements a push, in all |
| Deque.CostFrom | lib/deque.h:183-204 | The same from any state, against the pushes since the buffer was laid out |
| RobotsWildcard.Match | parser/RobotsManager.cpp:412-453 | True exactly when some filling of the stars starts the path, or is the whole path when the end is anchored |
| RobotsWildcard.AcceptsStar | parser/RobotsManager.cpp:436-449 | A star matches any part of the path |
| RobotsWildcard.UrlDecode | parser/RobotsManager.cpp:115-164 | The bytes written are the decoded text up to its first zero byte |
| RobotsWildcard.HexDigitsAre | parser/RobotsManager.cpp:91-113 | The hex digits are 0 to 9 and a to f of either case, each with its value, and nothing else is one |
| RobotsWildcard.DecodeEncoded | parser/RobotsManager.cpp:115-164 | Decoding undoes percent-encoding of every byte but the slash |
| RobotsWildcard.DecodesAsDocumented | parser/RobotsManager.cpp:115-164 | The text is decoded as the comments say, every escape but that of a slash and all else literal, if and only if no percent sign stands in its last two bytes and it spells no zero byte |
| RobotsWildcard.CutEscapeDropped | parser/RobotsManager.cpp:130-160 | An escape cut short by the end of the text is dropped with what follows it |
| RobotsWildcard.ZeroEnds | parser/RobotsManager.cpp:137-147 | What follows an escaped zero byte is lost |
| RobotsWildcard.Compile | parser/RobotsManager.cpp:462-495 | Leading slash skipped, a final dollar taken as anchor and counted as literal, stars not counted |
| RobotsWildcard.PatternIs | parser/RobotsManager.cpp:462-495 | A path written with or without a leading slash and a final dollar sign gives that path, the anchor, and the count of its bytes other than stars with the anchor counted |
| RobotsWildcard.FindSubstring | parser/RobotsManager.cpp:354-374 | True exactly when some stretch of one text has the other's length and, byte by byte, the same byte or the same letter in the other case |
| RobotsRules.PriorityIsOrder | parser/RobotsManager.cpp:555-563 | TakesPriority is a strict weak order, so sorting by it is meaningful |
| RobotsRules.TiesAgree | parser/RobotsManager.cpp:555-563 | Directives neither of which takes priority have the same permission |
| RobotsDocumented.RankedAsDocumented | parser/RobotsManager.cpp:478-545 | Two compiled patterns are ranked as the comment says, by bytes that are not wildcards and then by the anchor, if and only if neither is anchored with one such byte less than the other, unanchored one |
| RobotsDocumented.VerdictAsDocumented | parser/RobotsManager.cpp:533-563 | For any rules, user and path the verdict is the documented one if and only if no anchored directive in play overrules an unanchored one of the other permission with one literal byte more, that being the most literal in play |
| RobotsDocumented.AnchorDenies | parser/RobotsManager.cpp:478-515 | Disallow a*$ against Allow ab on the path ab: the documented ranking allows, the code denies |
| RobotsDocumented.DelayAsDocumented | parser/RobotsManager.cpp:729-749 | The announced delay is at most the largest of all rules that name the user, and equal to it if and only if that is zero or a rule with it has a directive that matches the path |
| RobotsDocumented.DelayNotAnnounced | parser/RobotsManager.cpp:745-749 | A group for everyone with a delay of 5 and a directive that does not match: no delay is announced |
| RobotsRules.MakeRule | parser/RobotsManager.cpp:695-708 | A group keeps its directives and has them sorted by priority |
| RobotsRules.MatchRule | parser/RobotsManager.cpp:626-654 | The first agent of the group that names the user, and its first directive that matches, over which no matching directive of the rule takes priority |
| RobotsRules.FindDirective | parser/RobotsManager.cpp:723-776 | The match of the first rule that none is preferred to: by priority of the directive, and in a tie a literal agent before a wildcard; none exactly when none matches, and the largest delay of the rules with a match |
| RobotsRules.NamedComesFirst | parser/RobotsManager.cpp:756-764 | Among rules whose directives tie, one that names the user comes before one for everybody, and otherwise the earlier rule first |
| RobotsRules.PrefersIsOrder | parser/RobotsManager.cpp:755-766 | The preference between matching rules is a strict weak order |
| RobotsRules.PathAllowed | parser/RobotsManager.cpp:793-806 | Denied exactly when a Disallow decides for the decoded path |
| RobotsRules.CaseDoesNotMatter | parser/RobotsManager.cpp:354-386 | Changing the case of letters in the agents' names or in the user changes no verdict |
| RobotsRules.VerdictIsBest | parser/RobotsManager.cpp:804-805 | Whichever of the deciding directives is found, the verdict is the same |
| RobotsRules.OrderDoesNotMatter | parser/RobotsManager.cpp:741-768 | Reordering groups, agents or directives changes no verdict |
| RobotsCache.CacheIsRecent | parser/RobotsManager.h:303-317 | After any run the cache holds exactly the most recently used distinct domains up to capacity, most recent first, each with the rules of its last miss |
| RobotsCache.RecentDistinct | parser/RobotsManager.h:303-317 | The recency list of a history: exactly the domains asked for, each once |
| RobotsCache.RobotsManager.FetchAndParse | parser/RobotsManager.cpp:815-860 | A cached domain's node, else a new first node for the fetched rules after evicting the last one when full; list and map stay in step |
| RobotsCache.RobotsManager.CheckStatus | parser/RobotsManager.h:303-317 | One call is one access of the recency list, the doubly linked list stays well formed with exactly the map's nodes, and the verdict is that of the domain's rules |
| RobotsCache.RobotsManager.EvictLast | parser/RobotsManager.cpp:820-829 | Only the least recently used node goes, from list and map |
| RobotsCache.RobotsManager.MoveFirst | parser/RobotsManager.h:307-314 | Only the accessed node moves, to the front |
| QuickSort.Partition | lib/algorithm.h:73-86 | The pivot's place splits the range: all before it come before the pivot, none after it does, and the range is a permutation |
| QuickSort.SortRange | lib/algorithm.h:89-94 | The range is a permutation of itself in order, everything else untouched |
| QuickSort.Sort | lib/algorithm.h:110-113 | The same elements in order, for any strict weak order |
| TopPages.SmallPQ.Push | ranker/Ranker.h:482-498 | After any pushes the queue holds the best max_size of all pages pushed, descending |
| TopPages.RankedBuffer.Insert | index_chunk/ranked_buffer.h:27-58 | After any insertions the buffer holds the ten best of all pages offered, and the answer says whether this one was taken |
| TopPages.MergeTopPages | index_chunk/ranked_buffer.h:123-153 | The k-way merge of descending buffers gives the best cap pages of all of them |
| TopPages.SortAndCut | index_manager/index_manager.h:118-124 | Sorting by score and cutting to ten gives the ten best of what was gathered |
| TopPages.TopScoresAgree | query/query_handler.h:98-106 | Two lists that are both the best k of the same pages have the same scores |
| TopPages.TopOfTops | query/query_handler.h:79-106 | However pages are split, the best of the parts' bests are the best of all |
| TopPages.ShardedTopTen | query/query_handler.h:79-106 | Ten from each chunk, ten from each machine, ten at the coordinator: the ten best of all scored pages |
| ThreadPool.InvNext | lib/joinable_thread_pool.h:48-107 | Every step of every thread keeps: submitted is started then queued, started is finished plus running, and each waitgroup counts its queued and running tasks |
| ThreadPool.FifoOnce | lib/joinable_thread_pool.h:81-90 | In any interleaving tasks start in order of submission, each at most once, and finish at most once |
| ThreadPool.JoinPasses | lib/joinable_thread_pool.h:58-62 | When join(id) passes no earlier task of id is queued or running, and all have finished once |
| ThreadPool.EveryChunkOnce | index_manager/index_manager.h:103-118 | With one task submitted for each chunk, after the join the collector holds the pages of all chunks, each exactly once, whatever the interleaving |
| ThreadPool.SubmittedCount | lib/joinable_thread_pool.h:48-56 | Under an id as many tasks stand in the log as the run's steps submitted under it |
| ThreadPool.WorkerMay | lib/joinable_thread_pool.h:81-106 | A worker may take a task exactly when it is idle and one is queued, and end the one it runs whenever it runs one |
| ThreadPool.JoinsWhenDone | lib/joinable_thread_pool.h:58-62 | In any run a join is let through exactly when every task submitted under its id has finished |
| ThreadPool.NeverStuck | lib/joinable_thread_pool.h:81-106 | Until the pool is shut down, a task that is queued or running leaves some worker a step to take |
| ThreadPool.WorkEnds | lib/joinable_thread_pool.h:81-106 | Taking and ending a task each leave less work and only a submission makes more, so every join is let through in the end |
| Frontier.InvNext | crawler/bucket_manager.h:78-104 | Every step of feeder, workers and listeners keeps placement, cap, queue order, spacing and conservation |
| Frontier.EveryTargetInOnePlace | crawler/domain_carousel.h:62-103 | In any interleaving every target in slot i hashes to i, no slot exceeds 32, and what entered is exactly what is in buckets, in hand, in slots, in backoff or pulled; what each turn does with them is FeederTurns.TurnFeeds |
| Frontier.DomainPullsApart | crawler/crawler_worker.h:43-55 | In any interleaving two pulls for one domain are at least two seconds apart |
| Frontier.FeederProgress | crawler/bucket_manager.h:78-104 | Each feeder step moves its turn on or leaves fewer steps in its part, and no other thread's step takes it back |
| Frontier.DrainEnds | crawler/bucket_manager.h:86-99 | The drain ends though it re-queues what is refused: at most three feeder steps a queued rejection, and two |
| Frontier.PhaseEnds | crawler/bucket_manager.h:78-104 | In any run the feeder takes at most so many steps in one part of its turn as are left when it is there |
| Frontier.EmptyingEnds | crawler/domain_carousel.h:82-97 | The feeder stays with a bucket for at most three steps a target |
| FeederTurns.EntersFirstNonEmpty | crawler/domain_carousel.h:79-82 | In any run the feeder begins to empty a bucket only if it is not empty and each bucket before it was empty when looked at in the same turn |
| FeederTurns.ScannedBefore | crawler/domain_carousel.h:79-82 | When the feeder is at a bucket it has found each one before it empty in the same turn |
| FeederTurns.BucketQueues | crawler/domain_carousel.h:81-85 | Until the feeder takes it, a bucket is what it was and then what was brought to it, in order |
| FeederTurns.BucketIsEmptied | crawler/domain_carousel.h:83-97 | From the moment the feeder holds a bucket until it is fed, whatever other threads do: the bucket is empty then, and each of its targets, in order, has gone to the end of its slot or to the end of the backoff queue |
| FeederTurns.TurnFeeds | crawler/domain_carousel.h:78-103 | A turn that begins with some bucket not empty empties one, that bucket or an earlier one |
| FeederTurns.PlacedWhenRoom | crawler/domain_carousel.h:87-95 | A target goes to its slot exactly when the slot's lock is free and fewer than 32 targets wait there |
| FeederTurns.LanesGrow | crawler/crawler_worker.h:41-45 | In any run targets leave a slot in the order in which they came to it |
| FeederTurns.PullsWhenDue | crawler/crawler_worker.h:36-46 | In any run a worker may pull from a slot exactly when a target waits there and two seconds have passed since the last pull |
| FeederTurns.DrainsWhenDue | crawler/bucket_manager.h:89-94 | In any run the drain takes up the first rejection exactly when it has waited two seconds, and rests otherwise |
| FeederTurns.TurnDrains | crawler/bucket_manager.h:86-99 | Every turn ends with a drain: it leaves no rejection in the queue that had waited two seconds when the drain began |
| FeederTurns.FeedCarousel | crawler/domain_carousel.h:78-103 | The loop run while no other thread does: the first bucket that is not empty is emptied, each target to its slot exactly when lock and room allow and else to the backoff queue with the time, in order; -1 and no change when all are empty |
| Frontier.DrainLeavesNoneDue | crawler/bucket_manager.h:89-92 | Stopping at the first rejection not yet due leaves none behind that is |
| Frontier.DrainAloneKeeps | crawler/bucket_manager.h:86-99 | A drain run to its end keeps the invariant |
| Frontier.ComputeHash | crawler/domain_carousel.h:46-58 | The loop computes the 64-bit hash of the whole domain |
| Frontier.HashValues | crawler/domain_carousel.h:46-58 | The published 64-bit hash of no bytes and of the byte a, and the slots they give |
| Frontier.BucketManager.PushTarget | crawler/domain_carousel.h:63-74 | Refused exactly when the target's slot is full, and then nothing changes; else only that slot grows |
| Frontier.BucketManager.DrainBackoff | crawler/bucket_manager.h:88-98 | The loop over the backoff queue leaves slots and queue as the protocol's drain does |
| Frontier.SpawnCrawlerWorkers | crawler/crawler_worker.h:146-177 | One range for each worker, of equal length, end to end over the carousel |
| Frontier.EachSlotWatchedOnce | crawler/crawler_worker.h:146-177 | Each slot of the carousel lies in the range of one worker and no other |

## Left out

- IsrExact.QueryAnsweredExactly: one direction in general. That the class is also necessary is proved for the queries of FragmentExactly; beyond them a repeated word can make a query right that is outside the class (RepeatedWordIsRight), and what holds without the condition is EveryRunBounded.
- ChunkIndex.LoadIndexed: its condition on the words is the one without which a look-up fails (LookupExact); it also asks for URLs without a newline, which the line reader guarantees.
- IndexBuilder.IndexChunk.IndexDocument: does not model the wrap-around of the 32-bit word counter in a document of 2^32 accepted words or more; a chunk that is written must fit the two passes' arithmetic, which ShortDocsFit gives for documents of fewer than 2^31 words.
- Crawler fetches, TLS, HTTP, RPC framing, sockets and file-system calls: a chunk file is a byte sequence, a robots fetch an arbitrary list of groups.
- Scoring formulas and priority scores: scores are arbitrary reals.
- Reading a robots file into groups, statements and arguments, and splitting a URL into its parts: groups and paths are given.
- Skipping to the next `<doc>` header and the fixed line buffers of `index_file`: a document is its URL line and its other lines.
- The skip list, which is switched off, and the table-of-contents filter, which the loader skips.
- Files shorter than their own eight-byte header, and a header read beyond the end of the region, which the program does not define; a list cut short by the end of the region ends there.
- 32-bit wrap-around of a cursor's document and location sums is modelled in decoding; the deltas of a list that the indexer writes have at most 31 bits, which is a condition of the two passes.
- Posting lists, word vectors and page vectors are sequences held in a field that methods reassign; the deque, the probing table and the carousel use arrays.
- Virtual dispatch over node kinds is one class with a kind; a driver is an index into the children instead of a pointer, with the same choice.
- Move semantics, destructors, short strings, collision counters, log lines, rate limits of log lines and instrumentation.
- The load factor is the rational 13/20, and the sizes derived from it are exact quotients instead of doubles.
- RobotsCache.RobotsManager.CheckStatus: takes the path of the URL and, for a miss, the fetched groups as parameters.
- RobotsCache.CacheIsRecent: is stated on the function of one access; CheckStatus is proved to be that access on the linked list and the map.
- The pool's condition variables: a thread that waits is a thread whose step is not enabled; an exception of a task is its end. Join counts tasks submitted before it passes.
- The workers' work after a pull (filters, fetch, parse) and their sleeping; a failed try-lock of a worker is a step not taken, one of the feeder is a parameter of its step.
- Persisting and reloading buckets: targets enter a bucket by one step, whoever brings them.
- FeederTurns.FeedCarousel: is the loop while no other thread runs, with arbitrary answers of the try-locks; with other threads in between it is given by its steps (BucketIsEmptied), and so is the drain.
- Fairness: which thread runs is the operating system's choice, so what gets done is stated as steps that may be taken and that run out.
- UrlStore, serialisation of crawl targets, `priority_queue`, `normalize_url`, the HTML parser and server, word lists, archive and benchmark code: easier members or no clean specification.
