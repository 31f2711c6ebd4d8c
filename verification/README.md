# Inverted index search engine, modelled in Dafny

A model of the sequential core of a small Java search engine:

- **`InvertedIndex`.** It maps each word to its locations, and each location to the set of positions where the word occurs. It also keeps a per-location word count, which is used for scoring. The model covers:
  - `add`, the lookups and the size methods;
  - the two `addAll` operations: bulk insertion, and merging another index;
  - exact and prefix search, with per-location aggregation into `QueryResult`;
  - the result ordering of `QueryResult.compareTo`.
- **`SimpleJsonWriter`.** These are the pretty-JSON writers for arrays, objects, nested maps and query results. A writer is modelled as a function that returns the text it would write.
- **`QueryFactory.parseQuery`.** It turns a query line into a canonical key: the sorted unique stems, joined with single spaces. Blank and repeated keys are skipped; otherwise the key is stored with its search results.
- **`IndexFactory.parseText` and `textFile`.** `parseText` numbers a file's tokens 1, 2, … across lines. `textFile` is the file-name filter.

The index is a value: `map<string, map<string, set<nat>>>` plus a count map `map<string, nat>`. Every mutator returns a new index.

Sorted Java collections (`TreeMap`, `TreeSet`) are iterated through explicit sorted key sequences (`Ordered.SortedKeys`, `Ordered.SortedNats`). `SortedKeys` uses the lexicographic order `Strings.Less`, which is proved to be a strict total order; `SortedNats` orders naturals by `<`.

A search result's score is the rational number matches/count. Two scores are compared by cross-multiplication, and `Search.Score` gives the exact value as a `real`.

Modules:

| module | file | concern |
|---|---|---|
| `Wrappers` | wrappers.dfy | `Option` |
| `Strings` | strings.dfy | string order, prefixes and suffixes, join and split, Java whitespace, ASCII case folding |
| `Ordered` | ordered.dfy | sets of strings or naturals as sorted sequences |
| `InvertedIndex` | index.dfy | the index state, `add`, the lookups, `addAll(List, String)`, the count invariant |
| `Merge` | merge.dfy | `addAll(InvertedIndex)` as written, and with the count test corrected |
| `Search` | search.dfy | `QueryResult`, `compareTo`, `helper`, `exactSearch`, `partialSearch`, `search` |
| `Json` | json.dfy | `SimpleJsonWriter` |
| `Queries` | queries.dfy | `QueryFactory.parseQuery` |
| `Indexing` | indexing.dfy | `IndexFactory.parseText` and `textFile` |


`partialSearch` rescans the index keys for every query term, so a word that two terms prefix contributes its positions twice. `Search.PrefixVisitsMultiplicity` states the multiplicity.

## Model

| member | source | states |
|---|---|---|
| InvertedIndex.Add | src/main/java/InvertedIndex.java:43-54 | afterwards the (word, location, position) triple is contained, and exactly the old triples plus this one are contained; a duplicate leaves index and counts unchanged; a new triple raises the location's count by one and leaves every other count alone |
| InvertedIndex.AddConsistent | src/main/java/InvertedIndex.java:43-54 | `add` keeps the count invariant: every location under any word has a positive count equal to the number of distinct (word, position) pairs recorded there |
| InvertedIndex.Empty | src/main/java/InvertedIndex.java:28-32 | the constructor's index contains no word and counts nothing at any location |
| InvertedIndex.EmptyConsistent | src/main/java/InvertedIndex.java:28-32 | the freshly constructed index satisfies the count invariant |
| InvertedIndex.ContainsWordAgrees | src/main/java/InvertedIndex.java:73-76 | `contains(word)` holds exactly for the words of `getWords()`, which is then nonempty |
| InvertedIndex.ContainsLocationAgrees | src/main/java/InvertedIndex.java:86-93 | `contains(word, location)` is false for an absent word and otherwise holds exactly for the locations of `getLocations(word)`, whose size is then positive |
| InvertedIndex.ContainsPositionAgrees | src/main/java/InvertedIndex.java:104-111 | `contains(word, location, position)` is false for an absent word or location and otherwise holds exactly for the positions of `getPositions(word, location)`, whose size is then positive |
| InvertedIndex.Words | src/main/java/InvertedIndex.java:133-136 | `getWords` holds exactly the words that `contains(word)` accepts |
| InvertedIndex.Locations | src/main/java/InvertedIndex.java:119-126 | `getLocations` holds exactly the locations that `contains(word, location)` accepts, and is empty for an absent word |
| InvertedIndex.Positions | src/main/java/InvertedIndex.java:146-153 | `getPositions` holds exactly the positions that `contains(word, location, position)` accepts, and is empty for an absent pair |
| InvertedIndex.WordsSize | src/main/java/InvertedIndex.java:160-163 | the size is zero exactly when no word is contained |
| InvertedIndex.LocationSize | src/main/java/InvertedIndex.java:171-174 | zero for an absent word; zero exactly when the word has no location |
| InvertedIndex.PositionsSize | src/main/java/InvertedIndex.java:183-186 | zero for an absent pair; zero exactly when no position is recorded |
| InvertedIndex.AddAll | src/main/java/InvertedIndex.java:203-211 | `words[i]` is added at position i, counting from 0; nothing else is added |
| InvertedIndex.AddSeqConsistent | src/main/java/InvertedIndex.java:203-211 | bulk insertion keeps the count invariant |
| InvertedIndex.AddSeqFreshCount | src/main/java/InvertedIndex.java:203-211 | when all positions already at the location lie below the starting position, the count grows by exactly the number of words and no other count changes |
| Merge.UnionLocations | src/main/java/InvertedIndex.java:328-337 | one word's merged location map has the locations of both maps, each with the union of the two position sets |
| Merge.MergeWords | src/main/java/InvertedIndex.java:321-339 | a word new to this index takes the other's location map, a shared word gets the merged map, and untouched words stay as they were |
| Merge.MergedWords | src/main/java/InvertedIndex.java:321-339 | after the word loop, the contained words, (word, location) pairs and triples are exactly those of the two indexes together |
| Merge.MergeCountsAsWritten | src/main/java/InvertedIndex.java:341-351 | the count loop as written: it throws exactly when a counted location is a word key but has no count here; a location that is a word key gets the sum of the two counts, any other location the other index's count |
| Merge.AddAllIndex | src/main/java/InvertedIndex.java:319-352 | `addAll(other)` as written: positions are unioned; it throws exactly in the case above; the resulting counts are the other's count, or the sum when the location is also a word |
| Merge.AsWrittenUndercounts | src/main/java/InvertedIndex.java:341-351 | for consistent, pair-disjoint inputs that share a counted location which is a word in neither index, whenever the merge does not throw, the merged count is the other's count alone, below the number of pairs there, so the invariant breaks |
| Merge.AsWrittenLosesCount | src/main/java/InvertedIndex.java:343-350 | merging "dog" at f:1 with "cat" at f:2 leaves count 1 for f while two pairs are recorded |
| Merge.AsWrittenThrows | src/main/java/InvertedIndex.java:343-349 | e.g. a location named like a word, with no count in this index, makes the merge throw; the general condition is the throw iff in `Merge.AddAllIndex`'s ensures |
| Merge.AsWrittenAgreesOnNewLocations | src/main/java/InvertedIndex.java:341-351 | when the other index brings only new locations that are not words, the code as written gives the same index as the corrected merge |
| Merge.MergeCounts | src/main/java/InvertedIndex.java:341-351 | the count loop with the intended test: the counted locations are those of both indexes; a location counted by both gets the sum, a new one the other's count, and one the other does not count keeps its count |
| Merge.AddAllIndexCorrected | src/main/java/InvertedIndex.java:319-352 | the corrected merge: positions are unioned and every location's count is the sum of the two counts |
| Merge.MergeConsistent | src/main/java/InvertedIndex.java:319-352 | the corrected merge of two consistent indexes with disjoint (word, position) pairs is consistent |
| Search.Score | src/main/java/InvertedIndex.java:452-455 | the score is the non-negative number s with s × count = matches |
| Search.BeforeByScore | src/main/java/InvertedIndex.java:389-405 | `Before(a, b)`, i.e. `a.compareTo(b) < 0`: a result comes first exactly when its score is higher; on equal scores, when it has more matches; on equal scores and matches, when its location is smaller ignoring case |
| Search.BeforeIrreflexive | src/main/java/InvertedIndex.java:389-405 | no result comes before itself |
| Search.BeforeAsymmetric | src/main/java/InvertedIndex.java:389-405 | two results never both come before each other |
| Search.BeforeTransitive | src/main/java/InvertedIndex.java:389-405 | the ordering is transitive |
| Search.BeforeNegativelyTransitive | src/main/java/InvertedIndex.java:389-405 | incomparability is transitive too, so the ordering is a strict weak order that a sort may use |
| Search.BeforeTies | src/main/java/InvertedIndex.java:389-405 | results that compare equal have equal scores, equal matches and locations that are equal ignoring case |
| Search.Insert | src/main/java/InvertedIndex.java:231 | inserting into a sorted list gives a sorted list holding the old elements plus the new one |
| Search.Sort | src/main/java/InvertedIndex.java:231 | `Collections.sort`: the output is sorted by the ordering and is a permutation of the input |
| Search.SortDistinct | src/main/java/InvertedIndex.java:231 | sorting keeps locations distinct |
| Search.SortedScoresDescending | src/main/java/InvertedIndex.java:231 | in a sorted list the scores never increase |
| Search.Fresh | src/main/java/InvertedIndex.java:411-416 | `new QueryResult(location)`: the location, no matches and a zero score; its count is positive whenever the location holds some word of an index where every indexed location is counted |
| Search.Update | src/main/java/InvertedIndex.java:423-427 | `update(word)` adds the word's position count at the result's location to the matches, and keeps location and count |
| Search.Helper | src/main/java/InvertedIndex.java:271-284 | every location of the word gets a result; its matches grow by the word's positions there, and nothing else changes |
| Search.Collect | src/main/java/InvertedIndex.java:224-230 | after visiting a sequence of words, the results are exactly the locations reached, and each holds the sum of the positions of every visited word there |
| Search.ReachedExists | src/main/java/InvertedIndex.java:271-284 | a location is reached exactly when some visited word occurs there |
| Search.Run | src/main/java/InvertedIndex.java:219-233 | the results are sorted, one per reached location; matches are the sum over visits, and the count is the location's positive word count |
| Search.ExactVisits | src/main/java/InvertedIndex.java:224-229 | the words `exactSearch` hands to `helper` are exactly the query words that the index contains, no more of them than query words |
| Search.ExactVisitsSame | src/main/java/InvertedIndex.java:224-229 | skipping query words that are not in the index changes neither the reached locations nor the match sums |
| Search.ExactSearch | src/main/java/InvertedIndex.java:219-233 | `exactSearch`: sorted, one result per location where some query word occurs, with matches summed over the query words |
| Search.Prefixed | src/main/java/InvertedIndex.java:248-257 | the keys kept are exactly those that start with the query |
| Search.ScanIsPrefixed | src/main/java/InvertedIndex.java:248-257 | on sorted keys, scanning the tail from the query and stopping at the first key without the prefix keeps exactly the keys with the prefix |
| Search.Scan | src/main/java/InvertedIndex.java:248-257 | the tail scan over the index yields the index words with the query as a prefix, in sorted order |
| Search.PartialVisits | src/main/java/InvertedIndex.java:246-258 | the words `partialSearch` hands to `helper` are exactly the index words that some query term prefixes |
| Search.PartialVisitsArePrefixVisits | src/main/java/InvertedIndex.java:246-258 | the loop's visit sequence is, query term by query term, the words having that term as a prefix |
| Search.PrefixVisitsMultiplicity | src/main/java/InvertedIndex.java:246-258 | an index word is visited once for each query term that is its prefix, so overlapping terms count it more than once |
| Search.PrefixVisitsReached | src/main/java/InvertedIndex.java:246-258 | a location is reached exactly when some word there has some query term as a prefix |
| Search.PartialSearch | src/main/java/InvertedIndex.java:241-262 | `partialSearch`: sorted, one result per location reached by a prefix match, with matches summed over all visits |
| Search.SearchIndex | src/main/java/InvertedIndex.java:294-301 | `search(query, flag)`: sorted, one result per reached location, using exact visits when the flag is set and prefix visits otherwise |
| Json.Indent | src/main/java/SimpleJsonWriter.java:409-413 | `level` tabs, then the element |
| Json.Quote | src/main/java/SimpleJsonWriter.java:424-430 | `level` tabs, a double quote, the raw element and a double quote |
| Json.IntTextRoundTrip | src/main/java/SimpleJsonWriter.java:42 | the decimal text of an integer reads back as that integer, with a leading minus exactly for negatives |
| Json.Separated | src/main/java/SimpleJsonWriter.java:40-48 | writing the first part and then each remaining part after a separator gives the parts joined by the separator |
| Json.AsArray | src/main/java/SimpleJsonWriter.java:35-52 | empty: `[`, a blank line and `]` at the level; otherwise each element at one more level, joined by `,\n`, then a newline and `]` at the level |
| Json.ArrayLines | src/main/java/SimpleJsonWriter.java:35-52 | a non-empty array is, line by line: `[`, each element with a comma after all but the last, and `]` at the level |
| Json.EmptyArrayLines | src/main/java/SimpleJsonWriter.java:35-52 | an empty array is three lines: `[`, an empty line, and `]` at the level |
| Json.AsArrayText | src/main/java/SimpleJsonWriter.java:79-91 | the String overload is the level-0 text |
| Json.AsObject | src/main/java/SimpleJsonWriter.java:101-123 | empty: `{`, a newline and `}` at the level; otherwise the entries in key order at one more level, joined by `,\n`, then a newline and `}` |
| Json.ObjectLines | src/main/java/SimpleJsonWriter.java:101-123 | when no key holds a newline, an object is, line by line: `{`, each entry with a comma after all but the last, and `}` at the level |
| Json.AsObjectText | src/main/java/SimpleJsonWriter.java:133-145 | the String overload is the level-0 text |
| Json.AsNestedArray | src/main/java/SimpleJsonWriter.java:174-197 | empty: `{`, a blank line and `}`; otherwise, in key order, each key quoted at one more level, then `: ` and its sorted positions as an array at that level, joined by `,\n` |
| Json.AsNestedArrayText | src/main/java/SimpleJsonWriter.java:224-236 | the String overload is the level-0 text |
| Json.AsNestedObject | src/main/java/SimpleJsonWriter.java:246-270 | same braces and separators as an object; each word quoted at one more level, then `: ` and its location map as a nested array at that level |
| Json.AsNestedObjectText | src/main/java/SimpleJsonWriter.java:294-306 | the String overload is the level-0 text |
| Json.FieldTextLine | src/main/java/SimpleJsonWriter.java:318-332 | each written field is its line `"name": value`, with a comma unless last, followed by a newline |
| Json.QueryFields | src/main/java/SimpleJsonWriter.java:318-332 | `query(result, writer)` writes the where, count and score lines, in that order, each ending in a newline |
| Json.QueryFieldsLines | src/main/java/SimpleJsonWriter.java:318-332 | when neither the location nor the score text holds a newline, the result's text splits into exactly those three lines |
| Json.QueryToJson | src/main/java/SimpleJsonWriter.java:341-361 | nothing for no results; otherwise each result block opens with `{` at two tabs, blocks are separated by `},\n` at two tabs, and the text closes with `}\n` at two tabs |
| Queries.KeyOfFewStems | src/main/java/QueryFactory.java:40-41 | a line without stems has the empty key, and a single stem is its own key |
| Queries.KeySplits | src/main/java/QueryFactory.java:40-41 | for a non-empty set of stems without spaces, splitting the key at spaces gives back the sorted stems |
| Queries.KeyInjective | src/main/java/QueryFactory.java:40-41 | two sets of non-empty, whitespace-free stems with the same key are the same set, so the key identifies the query |
| Queries.ParseQuery | src/main/java/QueryFactory.java:38-46 | a blank or already present key leaves the map alone; a new key adds exactly that key, bound to the search results for the sorted stems with the line's flag; no other entry changes |
| Queries.ParseQueryStoresResults | src/main/java/QueryFactory.java:42-45 | with the index's own search, the stored value is `search(stems, flag)` of the index |
| Queries.ParseQueryIdempotent | src/main/java/QueryFactory.java:42-45 | parsing the same line twice is the same as once |
| Queries.FirstInsertionWins | src/main/java/QueryFactory.java:42-45 | a later line with the same stems, whatever its flag, is skipped |
| Queries.NoStemsSkipped | src/main/java/QueryFactory.java:41-42 | a line without stems has a blank key and changes nothing |
| Queries.NewStemsAdded | src/main/java/QueryFactory.java:42-45 | a line with non-empty, whitespace-free stems whose key is new grows the map by exactly one entry |
| Indexing.AddLine | src/main/java/IndexFactory.java:60-63 | the tokens of one line are added under their stems at consecutive positions from the counter, and the counter ends advanced by the line's length |
| Indexing.ParseText | src/main/java/IndexFactory.java:49-67 | the loops add every line's tokens line by line, numbering on from where the previous line stopped |
| Indexing.ParsedContains | src/main/java/IndexFactory.java:51-64 | afterwards, position p at the file (1 ≤ p ≤ number of tokens) holds exactly the stem of the p-th token; nothing else is added, and nothing under another location |
| Indexing.ParsedCount | src/main/java/IndexFactory.java:53-64 | into an index with nothing at the file, n tokens raise the file's count by exactly n, and no other count changes |
| Indexing.ParsedFreshCount | src/main/java/IndexFactory.java:53-64 | after reading n tokens into a fresh index, the file's count is n |
| Indexing.ParsedConsistent | src/main/java/IndexFactory.java:58-64 | reading a file keeps the count invariant |
| Indexing.TextFile | src/main/java/IndexFactory.java:111-115 | a regular file whose name, compared ignoring ASCII case character by character, ends in `text` or `.txt` |
| Indexing.LowerSuffix | src/main/java/IndexFactory.java:113-114 | lower-casing the name and then testing the suffix is the same as comparing it character by character ignoring case |
| Indexing.TextFileIgnoresCase | src/main/java/IndexFactory.java:111-115 | names that are equal after lower-casing get the same answer |
| Indexing.TextFileExamples | src/main/java/IndexFactory.java:111-115 | `notes.TXT` and `context` qualify; a directory and `notes.md` do not |

## Left out

- The thread-safe subclasses `ThreadSafeInvertedIndex`, `ThreadSafeIndexFactory` and `ThreadSafeQueryFactory` are left out. So are the work queue and the read/write lock. Their concern is locking and concurrency, not sequential results. `Merge.AsWrittenAgreesOnNewLocations` covers merging a local index for a new file whose path is not itself an indexed word. When the path is an indexed word, the merge as written throws (`Merge.AsWrittenThrows`).
- `Driver` (argument handling, timing, console output) and the `WebCrawler` stub are left out.
- Stemming and tokenising are parameters, because the Snowball stemmer and `TextParser` are not part of this model. `TextFileStemmer.uniqueStems` is a function from a line to a set of stems, and `parseText` takes its tokens already split into lines.
- File and path I/O is left out:
  - the `Path` overloads of the writers, `indexToJson`, `countJson` and `queryJson`;
  - reading the file in `parseText`;
  - `parseDirectory` and `parseSelector`.
  `textFile` takes the file name and the outcome of `Files.isRegularFile` as parameters.
- Score formatting is a parameter of `Json.QueryToJson`, because `DecimalFormat` and floating point are not modelled. The score is the exact rational matches/count instead of a `double`. As a result, two results whose `double` scores round to the same value are compared by their exact ratios.
- Java `int` overflow is not modelled: positions, counts and matches are unbounded naturals. Positions are naturals (`nat`), while the Java code accepts any `Integer`. Every producer in the core starts at 0 or 1.
- `String.toLowerCase` and `compareToIgnoreCase` are modelled as folding only ASCII letters (`Strings.LowerChar`); Java folds every Unicode letter. `String.compareTo` is modelled as lexicographic order on characters, and UTF-16 surrogate pairs are not treated specially.
- Json.Indent, Json.Quote: the level is a `nat`. Java's `String.repeat` throws `IllegalArgumentException` on a negative level, but every caller in the core passes a level from 0 to 3. The same holds for the `level` of `Json.AsArray`, `Json.AsObject`, `Json.AsNestedArray` and `Json.AsNestedObject`.
- Search.Run, Search.ExactSearch, Search.PartialSearch: each requires every indexed location to have a positive count (`Covered`), as `Search.SearchIndex` does, for the reason given on the next line.
- Search.SearchIndex: it requires every indexed location to have a positive count. In Java a missing count makes `setScore` unbox `null`. That cannot happen for an index built by `add`, and `InvertedIndex.ConsistentCovered` shows that any index satisfying the count invariant qualifies.
- Search.Sort: its contract states sortedness and the permutation, but not stability. `Collections.sort` is stable, and the insertion sort used here is too, but only the contract is proved.
- Indexing.ParseText: its contract names the line-by-line definition `Parsed`. The position-by-position statement is proved separately, in `Indexing.ParsedContains`.
- Merge.AddAllIndex: the state left behind after a throw is not modelled; the outcome is just `NullPointer`. The sharing of the other index's inner maps (aliasing) cannot be observed in a value model and is also left out.
- `toString` and the score getters are left out: they only expose values already modelled.

## Findings

| source | as written | input that shows it | evidently intended | confidence | as-written member | corrected member |
|---|---|---|---|---|---|---|
| src/main/java/InvertedIndex.java:343 | the count loop of `addAll(InvertedIndex)` tests `index.containsKey(counter)`, i.e. whether the location is a word key; any other location takes the other index's count, overwriting this index's count | this index has "dog" at f:1 with count f = 1; the other has "cat" at f:2 with count f = 1; afterwards count f = 1 while two words are indexed at f. A location named like a word with no count here throws `NullPointerException` instead | test `count.containsKey(counter)`: sum the counts of a location both indexes know, copy a new one | not executed | Merge.AddAllIndex, Merge.AsWrittenUndercounts, Merge.AsWrittenLosesCount, Merge.AsWrittenThrows | Merge.AddAllIndexCorrected, Merge.MergeConsistent |
