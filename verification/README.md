# Book-catalogue attribute statistics, modelled in Dafny

The system reads a folder of JSON files. Each file is an array of book objects. For a chosen list of attributes (for example `genre` and `author`), it counts how often each value occurs. Comma-separated values such as `"Romance, Satire"` are counted piece by piece. It then writes one XML report per attribute that has at least one value, with the values sorted by descending count.

This project models that core as pure functions over immutable data.

- `Statistics` (statistics.dfy) is the frequency table, `map<string, map<string, nat>>`, from attribute to value to count.
  - `AddValue` models `addValue`. Its comma tokenizer `split(",\\s*")` lives in `Tokenizer` (tokenizer.dfy).
  - `GetStats`, `GetAllStats` and `Merge` model the accessors and `merge`.
  - `MergeInto` and `AddCountsInto` follow the loops of `merge` and are proved to compute `Merge`.
  - The laws of `Merge` are proved: identity, commutativity, associativity and positivity. They lift to the fold over per-file tables: grouping, permutation and pointwise sums.
- `ParsingJsonFile` (parsing_json_file.dfy) models per-file extraction and aggregation.
  - The streaming JSON tokenizer is abstracted. A readable file is an array of objects, and each object is a list of (name, text-or-integer) fields in document order.
  - The thread pool is abstracted to the list of per-file outcomes. The collection loop visits them in submission order and stops at the first failure.
  - A missing folder is `None`. Exceptions are `Failure` values of `Result`.
- `XmlStatistic` (xml_statistic.dfy) models report preparation.
  - It covers the empty check, the descending sort and the rendering of counts as decimal strings.
  - It builds the output file name, and produces one report per attribute that has at least one value.
  - Writing the XML itself is not modelled.
- `Decimal` (decimal.dfy) is the decimal rendering used for `String.valueOf` of integers, with its parse-back round trip.
- `Results` (results.dfy) holds `Option` and `Result`.

## Model

| member | source | states |
|---|---|---|
| Tokenizer.DropWhitespace | src/main/java/org/example/Statistics.java:36 | what `\s*` after a comma consumes: a prefix made only of Java whitespace, leaving a suffix that does not start with whitespace |
| Tokenizer.Split | src/main/java/org/example/Statistics.java:36 | every piece is comma-free; every piece after the first starts with a non-whitespace character (or is empty); the first piece is a prefix of the input |
| Tokenizer.SplitNoComma | src/main/java/org/example/Statistics.java:36 | a value without a comma is one piece, itself, with leading and trailing whitespace kept |
| Tokenizer.SplitAtFirstComma | src/main/java/org/example/Statistics.java:36 | the first comma ends the first piece, and the whitespace right after it is dropped before the rest is split |
| Tokenizer.SplitJoin | src/main/java/org/example/Statistics.java:36 | round trip: joining comma-free pieces (all but the first not starting with whitespace) with "," and splitting gives back the same pieces |
| Tokenizer.SplitGenreList | src/main/java/org/example/Statistics.java:20-24 | `"Romance, Satire"` splits into `Romance` and `Satire` |
| Statistics.GetStats | src/main/java/org/example/Statistics.java:51-61 | an attribute never recorded yields the empty map; otherwise the same values with the same counts as the table |
| Statistics.GetAllStats | src/main/java/org/example/Statistics.java:69-82 | the copy has the same attributes, and each attribute has the same value-to-count map |
| Statistics.AddPieces | src/main/java/org/example/Statistics.java:37-42 | the inner loop adds exactly the non-empty pieces as keys; each non-empty value gains its number of occurrences; the empty value is never counted; counts stay at least 1 |
| Statistics.AddValue | src/main/java/org/example/Statistics.java:26-43 | a null or empty name or value changes nothing; otherwise the attribute exists afterwards even when no piece survives, no other attribute changes, each non-empty piece is counted once per occurrence, the empty value's count never changes, and positivity is kept |
| Statistics.AddValueGenreList | src/main/java/org/example/Statistics.java:36-42 | adding `"Romance, Satire"` under `genre` raises both `Romance` and `Satire` by one |
| Statistics.MergeCounts | src/main/java/org/example/Statistics.java:112-116 | value maps merge by union of keys, with counts added and absent counts read as 0 |
| Statistics.Merge | src/main/java/org/example/Statistics.java:102-118 | the merged table has every attribute of either side, every value of either side per attribute, and each count is the sum of both counts |
| Statistics.MergeNullable | src/main/java/org/example/Statistics.java:103 | merging a null table is a no-op; otherwise it is `Merge` |
| Statistics.MergePositive | src/main/java/org/example/Statistics.java:113-115 | merging two tables whose counts are all at least 1 gives a table whose counts are all at least 1 |
| Statistics.MergeEmptyRight | src/main/java/org/example/Statistics.java:103-117 | merging in an empty table is the identity |
| Statistics.MergeEmptyLeft | src/main/java/org/example/Statistics.java:102-117 | merging into an empty table copies the other table |
| Statistics.MergeCommutative | src/main/java/org/example/Statistics.java:95-117 | merge order does not matter |
| Statistics.MergeAssociative | src/main/java/org/example/Statistics.java:95-117 | merge grouping does not matter |
| Statistics.AddCountsInto | src/main/java/org/example/Statistics.java:112-116 | the per-value loop (`computeIfAbsent` then `addAndGet`) computes the value-map merge |
| Statistics.MergeInto | src/main/java/org/example/Statistics.java:104-117 | the attribute loop, with the per-value loop inside it, computes `Merge` |
| Statistics.MergeAddAttribute | src/main/java/org/example/Statistics.java:109-116 | folding one more attribute of `other` into the target is the same as merging a table that has that attribute too; this is the loop step of `MergeInto` |
| Statistics.MergeAllFromAccumulator | src/main/java/org/example/ParsingJsonFile.java:61-71 | folding merge over local tables from any starting table is that table merged with the fold from empty |
| Statistics.MergeAllCons | src/main/java/org/example/ParsingJsonFile.java:61-71 | the fold over a list whose first table is x is x merged with the fold over the rest |
| Statistics.MergeAllAppend | src/main/java/org/example/ParsingJsonFile.java:61-71 | the fold over two concatenated lists is the merge of the two folds |
| Statistics.MergeAllSingleton | src/main/java/org/example/ParsingJsonFile.java:61-67 | folding a single table from empty gives back that table |
| Statistics.MergeAllMiddle | src/main/java/org/example/ParsingJsonFile.java:61-71 | a table in the middle of the list can be merged first |
| Statistics.MergeAllPermutation | src/main/java/org/example/ParsingJsonFile.java:61-71 | folds over two lists that are permutations of each other are equal |
| Statistics.MergeAllCounts | src/main/java/org/example/ParsingJsonFile.java:61-71 | the fold's attributes are the union of the local attributes, and each count is the sum of the local counts |
| Statistics.MergeAllPositive | src/main/java/org/example/ParsingJsonFile.java:61-71 | the fold of tables whose counts are all at least 1 has counts all at least 1 |
| Decimal.NatToDecimal | src/main/java/org/example/XmlStatistic.java:92 | a non-negative count renders as a non-empty string of digits with no leading zero |
| Decimal.ParseNatToDecimal | src/main/java/org/example/XmlStatistic.java:92 | round trip: reading the digits back gives the count |
| Decimal.IntToDecimal | src/main/java/org/example/ParsingJsonFile.java:129 | an integer renders as digits, with a leading minus sign exactly when it is negative |
| Decimal.IntDecimalRoundTrip | src/main/java/org/example/ParsingJsonFile.java:129 | round trip: parsing the rendering gives back the integer |
| Decimal.IntToDecimalInjective | src/main/java/org/example/ParsingJsonFile.java:129 | distinct years are recorded under distinct strings |
| ParsingJsonFile.FieldText | src/main/java/org/example/ParsingJsonFile.java:126-132 | `year_published` succeeds exactly on an integer within the Java `int` range and yields its decimal string; any other field always yields its text |
| ParsingJsonFile.ProcessAttribute | src/main/java/org/example/ParsingJsonFile.java:119-135 | a field outside the allow-list leaves the table as it is; an allow-listed field fails exactly when its text cannot be read, and otherwise is `AddValue` under its own name |
| ParsingJsonFile.ProcessAttributeSpec | src/main/java/org/example/ParsingJsonFile.java:124-134 | with a readable field: the attributes grow only by an allow-listed field name, each non-empty value gains its occurrences among the field's comma pieces, and the empty value's count does not change |
| ParsingJsonFile.YearPublishedRecordsDecimal | src/main/java/org/example/ParsingJsonFile.java:128-134 | an allow-listed in-range year adds exactly one to the count of its decimal string and changes no other count |
| ParsingJsonFile.ScanFieldsSpec | src/main/java/org/example/ParsingJsonFile.java:98-103 | the field loop succeeds exactly when every allow-listed field is readable, and then adds exactly the comma pieces of those fields, leaving the empty value's count as it was |
| ParsingJsonFile.ScanObjectsSpec | src/main/java/org/example/ParsingJsonFile.java:96-104 | the object loop succeeds exactly when every object is readable, and then adds the pieces of every object, leaving the empty value's count as it was |
| ParsingJsonFile.FieldsAttributesAllowed | src/main/java/org/example/ParsingJsonFile.java:124 | an object contributes only allow-listed attributes |
| ParsingJsonFile.ObjectsAttributesAllowed | src/main/java/org/example/ParsingJsonFile.java:124 | a file contributes only allow-listed attributes |
| ParsingJsonFile.ReadJsonFile | src/main/java/org/example/ParsingJsonFile.java:84-108 | an unreadable file and a file that is not an array fail with their own errors; success implies an array of objects |
| ParsingJsonFile.ReadJsonFileSpec | src/main/java/org/example/ParsingJsonFile.java:84-107 | a file succeeds exactly when it is an array of readable objects; its table then has the allow-listed attributes that occur, counts equal to the occurrences of the comma pieces, no empty value, and positive counts |
| ParsingJsonFile.ScanFile | src/main/java/org/example/ParsingJsonFile.java:84-108 | the nested token loops, written as loops, compute `ReadJsonFile` |
| ParsingJsonFile.JsonFiles | src/main/java/org/example/ParsingJsonFile.java:39 | a content is kept exactly when some entry whose name ends in `.json` holds it; nothing is kept exactly when no name ends in `.json` |
| ParsingJsonFile.JsonFilesSelect | src/main/java/org/example/ParsingJsonFile.java:39 | the filter keeps exactly the `.json` entries, each once, in listing order: there are increasing positions of all `.json` entries whose contents are the result |
| ParsingJsonFile.JsonFilesAppend | src/main/java/org/example/ParsingJsonFile.java:39 | filtering a concatenated listing is concatenating the filtered parts |
| ParsingJsonFile.JsonFilesPermutation | src/main/java/org/example/ParsingJsonFile.java:39 | a reordered listing yields a reordering of the same `.json` files |
| ParsingJsonFile.Outcomes | src/main/java/org/example/ParsingJsonFile.java:52-59 | one task per file, in listing order, each yielding that file's outcome |
| ParsingJsonFile.Collect | src/main/java/org/example/ParsingJsonFile.java:64-71 | the collection loop only ever fails with the wrapped per-file failure |
| ParsingJsonFile.LocalTables | src/main/java/org/example/ParsingJsonFile.java:55 | one local table per file, in order; when all files read, each is that file's successful result |
| ParsingJsonFile.CollectSpec | src/main/java/org/example/ParsingJsonFile.java:61-71 | the loop succeeds exactly when every file reads, and then yields the merge fold of the local tables |
| ParsingJsonFile.CollectFirstFailure | src/main/java/org/example/ParsingJsonFile.java:64-70 | on failure the reported cause is that of the first failing file in submission order |
| ParsingJsonFile.ReadAllJsonFiles | src/main/java/org/example/ParsingJsonFile.java:36-75 | a missing folder or one without `.json` files fails first; a thread count below 1 fails next; otherwise the call succeeds exactly when every `.json` file reads (all or nothing) |
| ParsingJsonFile.ReadAllJsonFilesSpec | src/main/java/org/example/ParsingJsonFile.java:61-74 | a success is the merge fold of the local tables from empty; a parse failure names the first failing file's cause |
| ParsingJsonFile.ReadAllJsonFilesCounts | src/main/java/org/example/ParsingJsonFile.java:61-74 | on success the attributes are the union over files, each count is the sum over files, no attribute holds the empty value, and every count is at least 1 |
| ParsingJsonFile.ReadAllJsonFilesOrderIndependent | src/main/java/org/example/ParsingJsonFile.java:36-74 | neither the listing order of the `.json` files nor the thread count (once at least 1) changes success or the resulting table |
| ParsingJsonFile.ReadAllJsonFilesListingOrder | src/main/java/org/example/ParsingJsonFile.java:38-74 | a folder listing its entries in another order, read with any thread count of at least 1, gives the same success and the same table |
| ParsingJsonFile.LocalTablesMultiset | src/main/java/org/example/ParsingJsonFile.java:52-58 | permuting the files permutes their local tables |
| ParsingJsonFile.TwoBooksFile | src/main/java/org/example/ParsingJsonFile.java:84-107 | a file of two books with plain genre and author reads, with both attributes and one count per occurrence |
| ParsingJsonFile.OneBookFile | src/main/java/org/example/ParsingJsonFile.java:84-107 | a file of one book with plain genre and author reads, with both attributes and one count each |
| ParsingJsonFile.TwoFilesRead | src/main/java/org/example/ParsingJsonFile.java:61-74 | two readable `.json` files aggregate to the union of their attributes with counts summed |
| ParsingJsonFile.ScenarioListing | src/main/java/org/example/ParsingJsonFile.java:39 | a non-`.json` entry between two `.json` files is skipped, and order is kept |
| ParsingJsonFile.EndToEndScenario | src/test/java/org/example/AppTest.java:23-36 | two files (Romance by John Doe and Jane Smith; Dystopian by Herman Melville) read with `genre` and `author` and 2 threads give Romance 2, Dystopian 1 and 1 for each author |
| ParsingJsonFile.EndToEndScenarioGeneric | src/test/java/org/example/AppTest.java:23-36 | the same expectations for any distinct plain genre and author strings |
| XmlStatistic.InsertDesc | src/main/java/org/example/XmlStatistic.java:58 | inserting into a list of non-increasing counts keeps it non-increasing and adds exactly that entry |
| XmlStatistic.SortDesc | src/main/java/org/example/XmlStatistic.java:57-58 | the sorted list is a permutation of the entries, with non-increasing counts |
| XmlStatistic.SortDescIdempotent | src/main/java/org/example/XmlStatistic.java:58 | an already non-increasing list is left as it is |
| XmlStatistic.SortDescTwice | src/main/java/org/example/XmlStatistic.java:58 | sorting twice is sorting once |
| XmlStatistic.EntryListPermutation | src/main/java/org/example/XmlStatistic.java:57-58 | any permutation of the attribute's entry list is again exactly its (value, count) entries, each value once |
| XmlStatistic.OnceInEntryList | src/main/java/org/example/XmlStatistic.java:57 | each entry occurs exactly once in the entry list |
| XmlStatistic.EntriesOf | src/main/java/org/example/XmlStatistic.java:57 | the entry set copied into a list holds each value of the map exactly once, with its count, and nothing else |
| XmlStatistic.ItemsOf | src/main/java/org/example/XmlStatistic.java:83-96 | one item per sorted entry, in order, carrying the value and a digit string for the count |
| XmlStatistic.ItemsRoundTrip | src/main/java/org/example/XmlStatistic.java:83-96 | reading the items back (value and decimal count) gives exactly the sorted entries |
| XmlStatistic.ReportFileName | src/main/java/org/example/XmlStatistic.java:60 | the name is the folder, then `/statistics_by_`, then the attribute, then `.xml` |
| XmlStatistic.FileNameRoundTrip | src/main/java/org/example/XmlStatistic.java:60 | the attribute can be read back from its file name |
| XmlStatistic.FileNameInjective | src/main/java/org/example/XmlStatistic.java:60 | distinct attributes get distinct file names in the same folder |
| XmlStatistic.GenerateSingleXmlFile | src/main/java/org/example/XmlStatistic.java:45-63 | no report exactly when the attribute's map is empty; otherwise a report for that attribute whose sorted entries are a non-increasing permutation of its map, whose items render them, and whose file name is the one derived from folder and attribute |
| XmlStatistic.Reportable | src/main/java/org/example/XmlStatistic.java:49-54 | only attributes of the table can get a report |
| XmlStatistic.AttributesOf | src/main/java/org/example/XmlStatistic.java:33-35 | the attributes reported are exactly those of some report |
| XmlStatistic.GenerateAllXmlFiles | src/main/java/org/example/XmlStatistic.java:29-36 | an attribute gets a report exactly when it is in the table with a non-empty map; each gets one report, and each report is valid for the table and folder |
| XmlStatistic.ReportedExactly | src/main/java/org/example/XmlStatistic.java:31-35 | reports covering the reportable attributes are reports for exactly the attributes with at least one value |

## Left out

- Thread pool, futures and thread safety are not modelled. This covers `ExecutorService`, `Future.get`, the atomicity of `ConcurrentHashMap` and `AtomicInteger`, and the `println` progress logging. Aggregation is the sequential fold the collection loop performs, so the result does not depend on scheduling.
- `executor.shutdown()` is not modelled; it is resource cleanup with no effect on the result.
- An `InterruptedException` from `Future.get` is not modelled. Every failure is a file's own failure, wrapped as `FailedToParse`.
- The Jackson tokenizer mechanics are abstracted. The unmodelled parts are:
  - `createParser`, `nextToken` and `getCurrentName`;
  - arrays whose elements are not objects;
  - nested objects and arrays as field values;
  - JSON `null`, booleans and floating-point numbers.

  A file is either unreadable, not an array, or an array of objects of text-or-integer fields.
- A JSON syntax error after the opening `[` has no error of its own. Jackson throws on it and the run fails; the model can only express such a file as `Unreadable`, whose read fails with `ReadFailed`.
- `ParsingJsonFile.FieldText`: for a field other than `year_published` holding a number, `getText()` returns the token's literal text. The model takes that literal to be the canonical decimal rendering.
- `Tokenizer.Split`: Java's `split` also drops trailing empty strings. The model keeps them; since empty pieces are never counted, no count differs.
- XML writing, indentation and file output are not modelled. `writeXml` is reduced to the list of (value, decimal count) items in sorted order.
- `printStats` is not modelled; it is console output.
- `Main.java` is not part of this model. It is the interactive prompt, timing and wiring.
- `Statistics.AddValue`: counts are unbounded `nat`. Java's `AtomicInteger` would wrap past 2^31 - 1, which no realistic input reaches.
- `Statistics.Merge`: sums are unbounded `nat`, as for `AddValue`.
- `XmlStatistic.EntriesOf`: `HashMap` iteration order is unspecified, so the model picks entries in an arbitrary order. As a result, `XmlStatistic.SortDesc` fixes no particular order among equal counts.
- `XmlStatistic.GenerateAllXmlFiles` visits attributes in an arbitrary order, for the same reason.
- `ParsingJsonFile.CollectFirstFailure`: only the first failing task in submission order is reported; later failures are not listed.
- The code has no check for an empty attribute list: an empty list reads every file and records nothing, and the model does the same.
