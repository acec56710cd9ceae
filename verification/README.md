# IPFRS console: a verified model

A Dafny model of the algorithmic core of the IPFRS web console (`ui/src`), of the command
suggestions of the IPFRS shell and of the batch operations of `ipfrs-core`, with proofs about it.
`dafny verify dfyconfig.toml` checks the whole project.

| file | what it models |
|---|---|
| `Doubles.dfy`, `Thrift.dfy`, `Footer.dfy`, `FooterColumns.dfy`, `FooterReader.dfy` | the Parquet footer decoder: numbers, wire format, decoder and meaning of a footer, what the columns are, the reader with its cursor |
| `Csv.dfy` | the CSV preview |
| `EditDistance.dfy` | edit distance and command suggestions of the shell |
| `Base32.dfy`, `CidLinks.dfy`, `LinkSoundness.dfy` | CID text, the DAG-CBOR link scanner, and when its reports are those of the tree |
| `Occurrences.dfy`, `Ranges.dfy`, `Highlight.dfy`, `Similarity.dfy` | search, highlighting, similarity scores |
| `Manifest.dfy`, `Store.dfy`, `StoreContents.dfy`, `StoreLocality.dfy`, `StoreLaws.dfy`, `StoreQuota.dfy`, `StoreUndo.dfy` | the bucket store as a state machine |
| `ActivityLog.dfy`, `ConsoleState.dfy`, `UndoSession.dfy`, `Console.dfy` | the activity log, the console as objects beside a log, undoing, and its handlers as methods |
| `Folders.dfy`, `FolderMarkers.dfy` | virtual folders |
| `Batch.dfy` | parallel deduplication and verification |
| `Prelude.dfy`, `Text.dfy`, `Sorting.dfy` | shared vocabulary |

Code that updates variables, arrays or objects step by step is a method or a class whose `ensures`
ties it to a function; the results are then proved about that function. Inputs from outside
(uploaded CIDs, clock readings, failures, case mapping, UTF-8 decoding, locale collation, the
order of critical sections, the way a parallel iterator splits) are parameters, and every result
holds for all their values. Square roots are parameters too, with what is required of them stated.

## Results worth knowing

- The footer decoder never looks at the trailing `PAR1`: `Footer.FooterRoundTrip` holds for any
  last four bytes, although the layout comment of the file names them as magic.
- 64-bit integers are read into doubles; `Doubles.ToDouble` rounds as IEEE does (`Doubles.ToDoubleNearest`), so the general
  round trip is about rounded numbers and `FooterColumns.RecordRoundTrip` says when they are exact.
- `levenshtein_distance` sizes its matrix in bytes and fills it per character. It is the edit
  distance exactly when both strings are ASCII or they are equal (`EditDistance.ComputedIsDistanceIff`);
  a consequence is that no typo suggestion is ever made for a non-ASCII input.
- The documentation of `verify_blocks_parallel` promises an error for the first invalid block. Any
  block that gives an error can be the one whose error is returned (`Batch.EveryErrorCanWin`); the
  promise holds under every split iff no other block gives a different error
  (`Batch.FirstInvalidAnsweredIff`).
- The order in which `unique_cids_parallel` returns the CIDs depends on the schedule, unless equal
  CIDs stand together in the input (`Batch.OrderFixedIffGrouped`).
- The link scanner reports links that only stand inside byte strings
  (`CidLinks.QuotedLinksAreReportedToo`). `LinkSoundness.ScannedExactlyIff` says exactly when it
  reports the links of a tree and nothing else, in particular when the tree has no tag bytes
  outside its links (`LinkSoundness.QuietTreesAreScannedExactly`).
- Undoing a renaming can leave two objects under one key (`StoreLaws.UndoneRenamingCanCollide`);
  `StoreLaws.RunDistinct` gives the exact condition.
- A retried upload ignores the quota (`StoreQuota.RetryIgnoresQuota`), and so do imports, restored
  objects and restored versions; `StoreQuota.RunWithinQuota` gives the exact condition.
- With a quota, undoing a deletion need not be neutral (`StoreUndo.QuotaBreaksUndo`);
  `StoreUndo.UndoNeutralIff` gives the exact condition.
- The search loop does not end on an empty term (`Occurrences.SearchEndsIff`).
- Taking an entry off the activity log makes room, so an entry can outlive 80 later ones;
  `ActivityLog.EntryStaysIff` says exactly how long it stays.
- A similarity score of doubles can pass 1 by rounding (`Similarity.RoundedCosine` says by how much
  at most).

## Model

| member | source | states |
|---|---|---|
| Thrift.SkipsValue | ui/src/lib/preview.ts:240-251 | skipping any well-formed value, nested to any depth, moves the cursor by exactly the length of its encoding |
| Thrift.SkipsFields | ui/src/lib/preview.ts:253-260 | the same for a structure with any fields |
| Thrift.SkipsElements | ui/src/lib/preview.ts:262-266 | the same for lists and sets |
| Thrift.SkipsPairs | ui/src/lib/preview.ts:268-273 | the same for maps |
| Thrift.ReadI16 | ui/src/lib/preview.ts:203-207 | a signed 16-bit integer is read back from its big-endian bytes |
| Thrift.ReadI32 | ui/src/lib/preview.ts:209-214 | the same for 32 bits |
| Thrift.ReadI64 | ui/src/lib/preview.ts:216-221 | the same for 64 bits, before rounding to a double |
| Thrift.ValueEnd | ui/src/lib/preview.ts:240-251 | skipping ends on every buffer, by remaining bytes and remaining element count, and never moves backwards |
| Thrift.StructEnd | ui/src/lib/preview.ts:253-260 | the same for structures |
| FooterReader.ThriftReader.ReadByte | ui/src/lib/preview.ts:198-201 | reads the byte under the cursor or fails at the end |
| FooterReader.ThriftReader.ReadI64 | ui/src/lib/preview.ts:216-221 | the two halves give the 64-bit integer, rounded to a double |
| FooterReader.ThriftReader.ReadBinary | ui/src/lib/preview.ts:229-237 | a string with its length, or the empty string when the length does not fit |
| FooterReader.ThriftReader.SkipValue | ui/src/lib/preview.ts:240-251 | ends on every buffer with the cursor where the value ends, or fails; the cursor never moves backwards |
| FooterReader.ThriftReader.SkipStruct | ui/src/lib/preview.ts:253-260 | the same for the structure loop |
| FooterReader.ThriftReader.SkipListOrSet | ui/src/lib/preview.ts:262-266 | the same for the list loop |
| FooterReader.ThriftReader.SkipMap | ui/src/lib/preview.ts:268-273 | the same for the map loop |
| FooterReader.ThriftReader.ReadSchemaElement | ui/src/lib/preview.ts:276-294 | the loop reads the schema element that starts at the cursor |
| FooterReader.ThriftReader.ReadRowGroup | ui/src/lib/preview.ts:297-307 | the loop reads the row group that starts at the cursor |
| FooterReader.ThriftReader.ReadSchema | ui/src/lib/preview.ts:341-359 | the schema list, keeping the columns read before an error |
| FooterReader.ThriftReader.ReadRowGroups | ui/src/lib/preview.ts:362-370 | the row-group list, keeping the sum reached before an error |
| FooterReader.ThriftReader.ReadField | ui/src/lib/preview.ts:337-373 | one turn of the main loop after the type byte |
| FooterReader.ReadFooter | ui/src/lib/preview.ts:327-379 | the main loop ends on every byte string and keeps what was read before an error |
| FooterReader.ParseParquet | ui/src/lib/preview.ts:310-380 | the file decoder ends on every byte string and computes the decoding function |
| Doubles.ToDoubleNearest | ui/src/lib/preview.ts:216-221 | the number that is read is the nearest double, and of two equally near ones the even one |
| Doubles.ToDoubleExact | ui/src/lib/preview.ts:216-221 | integers up to 2^53 are not changed by rounding |
| Doubles.ToDoubleExactIff | ui/src/lib/preview.ts:216-221 | an integer is not changed by rounding iff it is a multiple of the spacing of doubles at its magnitude |
| Doubles.FirstInexact | ui/src/lib/preview.ts:216-221 | 2^53 + 1 is read as 2^53 |
| Footer.ElementRead | ui/src/lib/preview.ts:276-294 | an encoded schema element, with any other fields in it, is read as the last value of each known field |
| Footer.GroupRead | ui/src/lib/preview.ts:297-307 | an encoded row group is read as the sum of its 64-bit fields 3 |
| Footer.SchemaRead | ui/src/lib/preview.ts:345-359 | an encoded schema list is read as its named leaves, in order |
| Footer.GroupsRead | ui/src/lib/preview.ts:367-370 | an encoded list of row groups is read as the sum of their sizes |
| Footer.SummaryRead | ui/src/lib/preview.ts:333-379 | an encoded metadata structure is read field by field into its summary, from any starting summary |
| Footer.FooterRoundTrip | ui/src/lib/preview.ts:310-380 | every file whose footer encodes a metadata structure, with any well-formed fields in any order, decodes to the meaning of that structure, not truncated |
| Footer.SummaryCut | ui/src/lib/preview.ts:375-377 | a structure cut off between two fields is read up to there and marked truncated |
| Footer.SchemaCut | ui/src/lib/preview.ts:345-359 | a schema list with fewer elements than announced keeps the columns of those it has |
| Footer.GroupsCut | ui/src/lib/preview.ts:367-370 | the same for the sizes of row groups |
| Footer.CutFooter | ui/src/lib/preview.ts:310-380 | a file whose footer ends between two fields decodes to what these fields mean, truncated |
| Footer.RecordMeaning | ui/src/lib/preview.ts:339-373 | unknown fields before, between and after the four known ones change nothing |
| Footer.GroupsSizeExact | ui/src/lib/preview.ts:297-307 | the size is the exact sum while magnitudes stay within 2^53 |
| FooterColumns.ElementDescribed | ui/src/lib/preview.ts:276-294 | a schema element is a column iff its last 32-bit field 5 is absent or 0 and its last binary field 4 decodes to a non-empty text; its name is that text, its type and repetition follow the last 32-bit fields 1 and 3 by the tables |
| FooterColumns.SchemaColumnsAre | ui/src/lib/preview.ts:345-359 | the columns of a schema list are those of exactly these elements, in list order |
| FooterColumns.MeaningColumns | ui/src/lib/preview.ts:341-359 | the same for any metadata structure |
| FooterColumns.RecordRoundTrip | ui/src/lib/preview.ts:310-380 | a record among unknown fields comes back: version, row count, the columns of the named leaves with types and repetitions, number of row groups and sum of their sizes |
| FooterColumns.NotParquetIff | ui/src/lib/preview.ts:310-314 | exactly files shorter than 12 bytes or without PAR1 in front are not taken for Parquet |
| FooterColumns.WireCodes | ui/src/lib/preview.ts:179-181 | the type codes by number |
| Csv.SplitCsvLine | ui/src/lib/preview.ts:400-417 | the loop with its quote flag and look-ahead computes the splitting function |
| Csv.LineRoundTrip | ui/src/lib/preview.ts:400-417 | splitting a written line, each field bare or quoted, gives the fields trimmed, and exactly the fields when none has outer white space |
| Csv.DetectsWritten | ui/src/lib/preview.ts:391-398 | the delimiter of a written line is recognised when the other two do not occur |
| Csv.MostFrequentDelimiter | ui/src/lib/preview.ts:391-398 | the guess is the most frequent of the three delimiters, on ties tab before comma before semicolon |
| Csv.LinesOfJoin | ui/src/lib/preview.ts:420-420 | lines joined by any line ends, with empty lines anywhere and the last one not ended, are split at the same places |
| Csv.JoinOfLines | ui/src/lib/preview.ts:420-420 | every text is its lines joined: nothing is lost |
| Csv.NonEmptyPicks | ui/src/lib/preview.ts:420-420 | exactly the empty lines are dropped |
| Csv.TableRoundTrip | ui/src/lib/preview.ts:419-426 | a written table comes back (header, first rows up to the limit, number of rows, delimiter), with empty lines anywhere and the last line ended or not |
| Csv.EmptyPreviewIff | ui/src/lib/preview.ts:421-421 | the empty preview is given exactly for texts without a non-empty line |
| Text.TrimSplits | ui/src/lib/preview.ts:416-416 | trimming takes away outer white space, all of it and nothing else |
| EditDistance.NumberedMatrix | ipfrs_source/crates/ipfrs-cli/src/shell.rs:23-30 | the matrix after its first two loops |
| EditDistance.LevenshteinDistance | ipfrs_source/crates/ipfrs-cli/src/shell.rs:20-43 | what the matrix holds in its corner, for every pair of strings |
| EditDistance.DistanceIsEditDistance | ipfrs_source/crates/ipfrs-cli/src/shell.rs:32-42 | the recurrence is the length of a shortest script of insertions, deletions and substitutions |
| EditDistance.NoShorterScript | ipfrs_source/crates/ipfrs-cli/src/shell.rs:32-42 | no script is shorter |
| EditDistance.ShortestScript | ipfrs_source/crates/ipfrs-cli/src/shell.rs:32-42 | some script is as short |
| EditDistance.DistanceZero | ipfrs_source/crates/ipfrs-cli/src/shell.rs:32-42 | zero iff equal |
| EditDistance.DistanceSymmetric | ipfrs_source/crates/ipfrs-cli/src/shell.rs:32-42 | symmetric |
| EditDistance.Triangle | ipfrs_source/crates/ipfrs-cli/src/shell.rs:32-42 | triangle inequality for all three strings |
| EditDistance.ComputedIsDistanceIff | ipfrs_source/crates/ipfrs-cli/src/shell.rs:20-43 | the code computes the edit distance iff both strings are ASCII or they are equal |
| EditDistance.NonAsciiCounterexample | ipfrs_source/crates/ipfrs-cli/src/shell.rs:21-23 | a one-character string of two bytes for which it does not |
| EditDistance.FindCompletion | ipfrs_source/crates/ipfrs-cli/src/shell.rs:509-513 | the first command that properly extends the input |
| EditDistance.FindTypo | ipfrs_source/crates/ipfrs-cli/src/shell.rs:516-520 | the first command for which the matrix gives one |
| EditDistance.SuggestCommand | ipfrs_source/crates/ipfrs-cli/src/shell.rs:502-523 | the first known command that completes the input, else the first one edit from an ASCII input, in the listed order; none iff there is no such command |
| EditDistance.WidthIsUtf8 | ipfrs_source/crates/ipfrs-cli/src/shell.rs:21-22 | the length of a character is that of its UTF-8 encoding |
| Base32.EncodeStream | ui/src/lib/inspect.ts:10-24 | the streaming encoder with its 32-bit wrapping accumulator emits the unpadded text of RFC 4648 section 6 |
| Base32.LetterTable | ui/src/lib/inspect.ts:8-8 | the alphabet |
| Base32.EncodeLength | ui/src/lib/inspect.ts:10-24 | the text has ceil(8n/5) characters |
| Base32.DecodeEncode | ui/src/lib/inspect.ts:10-24 | a decoder recovers every byte |
| Base32.EncodeInjective | ui/src/lib/inspect.ts:10-24 | different byte strings of any lengths have different texts |
| Base32.DemoCidInjective | ui/src/lib/ipfrs.ts:463-483 | the demo CID of a 32-byte digest has 59 characters: `bafybei` and a text from which the digest is decoded; it identifies the digest |
| CidLinks.ReadWritten | ui/src/lib/inspect.ts:71-80 | a byte-string header in any of its four forms is read back |
| CidLinks.WrittenAsRead | ui/src/lib/inspect.ts:71-80 | a length that is read stands in the buffer in one of the four forms |
| CidLinks.ScanCidLinks | ui/src/lib/inspect.ts:87-102 | the scan reports exactly the names of the links that stand in the block, each once, in the order of the first offset at which their link stands |
| CidLinks.ReportedMonotone | ui/src/lib/inspect.ts:87-102 | what is reported of a block is reported of every block that contains it |
| CidLinks.NamesIdentifyCids | ui/src/lib/inspect.ts:99-99 | names are equal iff the CIDs are |
| CidLinks.LinksAreReported | ui/src/lib/inspect.ts:87-102 | every CIDv1 link of every DAG-CBOR tree is reported, wherever its encoding stands |
| CidLinks.QuotedLinksAreReportedToo | ui/src/lib/inspect.ts:82-102 | links quoted in a byte string are reported although the tree has none |
| LinkSoundness.ConcatTags | ui/src/lib/inspect.ts:87-90 | the tag bytes of a concatenation are the expected ones iff those of each part are and none straddles the border |
| LinkSoundness.QuietIff | ui/src/lib/inspect.ts:82-102 | a condition read off the tree node by node holds iff the tag bytes stand in its encoding only where its links start |
| LinkSoundness.ReadMinimal | ui/src/lib/inspect.ts:71-80 | every minimal header: lengths from 2^31 come out negative, from 2^32 not at all |
| LinkSoundness.TreeLinkRead | ui/src/lib/inspect.ts:89-99 | where a link of a tree starts the scanner takes that CID, and only if it is a CIDv1 |
| LinkSoundness.ScannedExactlyIff | ui/src/lib/inspect.ts:87-102 | the scan of a tree reports exactly its CIDv1 links iff no tag bytes outside its links are followed by a CID that it does not link to |
| LinkSoundness.QuietTreesAreScannedExactly | ui/src/lib/inspect.ts:87-102 | in particular when the condition read off the tree holds |
| Occurrences.FindAllOccurrences | ui/src/lib/search.ts:54-62 | the loop ends for a non-empty term and computes the greedy positions |
| Occurrences.SearchEndsIff | ui/src/lib/search.ts:54-62 | the loop, turn by turn, ends iff the term is not empty |
| Occurrences.TermAdvances | ui/src/lib/search.ts:54-62 | each turn with a non-empty term advances within the text and ends with the greedy positions |
| Occurrences.GreedyOrdered | ui/src/lib/search.ts:54-62 | positions are occurrences, increasing and not overlapping |
| Occurrences.GreedyFirst | ui/src/lib/search.ts:54-62 | each position is the first occurrence after the one before it, and none follows the last |
| Occurrences.GreedyMaximal | ui/src/lib/search.ts:54-62 | every occurrence overlaps a reported one |
| Occurrences.GreedyMaximum | ui/src/lib/search.ts:54-62 | no set of separate occurrences is larger |
| Occurrences.Subsequence | ui/src/lib/search.ts:37-43 | true iff increasing positions spell the needle |
| Ranges.SortByStart | ui/src/lib/search.ts:78-78 | a stable sorted copy with the same objects, also when one object stands in the list twice |
| Sorting.SortStable | ui/src/lib/search.ts:78-78 | sorting by a total preorder orders, permutes and keeps the order of what compares equal |
| Ranges.MergeRanges | ui/src/lib/search.ts:76-89 | the in-place merge gives the merged values of what the ranges were, although it overwrites shared objects that may still be to come |
| Ranges.MergedCover | ui/src/lib/search.ts:76-89 | exactly the same positions are covered; for non-empty ranges the result is ordered with gaps |
| Ranges.CanonicalUnique | ui/src/lib/search.ts:76-89 | ordered ranges with gaps are determined by what they cover |
| Ranges.MergedIsCanonicalForm | ui/src/lib/search.ts:76-89 | two lists of non-empty ranges merge to the same list iff they cover the same positions |
| Ranges.MergedIdempotent | ui/src/lib/search.ts:76-89 | merging twice is merging once |
| Highlight.BuildHighlights | ui/src/lib/search.ts:65-74 | the merged ranges of the occurrences of all terms |
| Highlight.AllRangesCover | ui/src/lib/search.ts:65-74 | a position is covered iff a reported occurrence of some term covers it |
| Highlight.Highlighted | ui/src/components/SmartResults.tsx:37-52 | for ranges in order the parts concatenate to the text and mark exactly what is covered, also when ranges pass the end |
| Highlight.RenderKey | ui/src/lib/search.ts:65-89 | both together: the rendered text is the key, and a character is marked iff an occurrence covers its position |
| Similarity.CharNgrams | ui/src/lib/search.ts:95-105 | each gram of two or three characters is counted as often as there are positions at which it stands, and nothing else is counted |
| Similarity.CosineSums | ui/src/lib/search.ts:107-115 | the three sums, whatever the order of the keys |
| Similarity.CauchySchwarz | ui/src/lib/search.ts:107-117 | the inequality for any two integer vectors |
| Similarity.DotBound | ui/src/lib/search.ts:107-117 | the square of the dot product is at most the product of the norms |
| Similarity.CosineInUnitInterval | ui/src/lib/search.ts:116-117 | with exact square roots the score lies between 0 and 1 (doubles can pass 1 by rounding) |
| Similarity.SelfSimilarity | ui/src/lib/search.ts:116-117 | with an exact square root the score of a text with itself is 1 (in doubles 1 up to rounding) |
| Similarity.RoundedCosine | ui/src/lib/search.ts:116-117 | when roots, product and quotient each err by a factor of at most f, the score is at most f^4 |
| Similarity.Embed | ui/src/lib/knowledge.ts:48-60 | coordinate k is the signed number of trigrams hashed to it, before normalisation |
| Similarity.HashValues | ui/src/lib/knowledge.ts:53-57 | the hash gives the published FNV-1a value of "foo", and a value with the top bit clear |
| Similarity.SignIsTopBit | ui/src/lib/knowledge.ts:59-59 | bit 63 of the hash decides the sign |
| Similarity.Cosine | ui/src/lib/knowledge.ts:69-73 | the loop computes the dot product, and no number when the first vector is longer |
| Similarity.SignedDotBound | ui/src/lib/knowledge.ts:69-73 | the same inequality for signed vectors |
| Folders.InsideIffStarts | ui/src/lib/buckets.ts:71-78 | a key stands in a folder iff it starts with the folder's prefix, empty names included |
| Folders.DeriveEntries | ui/src/lib/buckets.ts:67-102 | the pass gives the specified rows: folders before files, each file named by its key after the prefix, a row for exactly the objects directly under the prefix and the first segments of the others, both in the order of the collation |
| Folders.FolderRowCounts | ui/src/lib/buckets.ts:78-93 | count and size of a folder row are those of all objects, markers included, under its prefix |
| Folders.FolderIsDeeper | ui/src/lib/buckets.ts:87-93 | folder prefixes get longer and stay within the longest key, so following them ends |
| Folders.WalkVisitsAll | ui/src/lib/buckets.ts:67-102 | following the prefixes of the returned folder rows from the root and taking the objects of the file rows visits each object that is not a marker exactly as often as the bucket holds it |
| FolderMarkers.CreatedFolderShows | ui/src/App.tsx:433-455 | after a folder is created a returned row is named by the first segment of the trimmed name without its outer slashes, and a walk visits what it visited before |
| Store.RenamedStaysInFolder | ui/src/App.tsx:599-602 | a renamed object stays in its folder, under a name without slashes |
| StoreContents.RenamedKeyIs | ui/src/App.tsx:599-602 | the new name is the trimmed text with exactly its slashes left out; there is none iff nothing is left |
| StoreContents.FolderNameIs | ui/src/App.tsx:435-437 | a folder name is the trimmed text without the slashes at its ends; there is none iff nothing is left |
| StoreContents.FindIsFirst | ui/src/App.tsx:329-329 | the object found is the first with the key |
| StoreContents.FilterPicks | ui/src/App.tsx:345-345 | filtering keeps exactly the objects that satisfy the condition, in order |
| StoreContents.PutUploads | ui/src/App.tsx:329-346 | an upload: the other objects in order, then the new one with its fields; its versions are the replaced content in front of the old versions, or none without versioning |
| StoreContents.PutAllIsBatch | ui/src/App.tsx:271-357 | a batch uploads its stored files one after the other, failed ones change nothing |
| StoreContents.IncomingAdds | ui/src/App.tsx:261-262 | incoming space is the sum over all files, failed ones included |
| StoreContents.RestoredPromotes | ui/src/App.tsx:551-566 | the restored object has the chosen CID, size and type of the first version with it, the new time, the same key and pin, and as versions the old content in front of the others in order |
| StoreContents.MergeIsTable | ui/src/App.tsx:712-714 | a merge is the insertion-ordered table: keys in order of first appearance, each with its last object |
| StoreContents.ValidPicks | ui/src/App.tsx:709-711 | the objects taken from a manifest are all entries with key and CID, in order |
| StoreContents.ImportFinds | ui/src/App.tsx:709-714 | after an import a key holds the last entry with it, or what it held |
| StoreLaws.MergeDistinct | ui/src/App.tsx:712-714 | merging gives distinct keys from any lists |
| StoreLaws.PutDistinct | ui/src/App.tsx:329-347 | an upload keeps keys distinct |
| StoreLaws.RekeyDistinct | ui/src/App.tsx:734-738 | undoing a renaming keeps keys distinct iff source and target are not both present |
| StoreLaws.StepDistinct | ui/src/App.tsx:329-739 | every step keeps keys distinct, except exactly a colliding undo of a renaming |
| StoreLaws.RunDistinct | ui/src/App.tsx:329-739 | keys stay distinct throughout a run iff no undone renaming collides |
| StoreLaws.UndoneRenamingCanCollide | ui/src/App.tsx:734-738 | rename, upload under the old name, undo: two objects under one key |
| StoreQuota.QuotaHolds | ui/src/App.tsx:259-347 | every list persisted by an accepted batch stays within the quota, replacements and repeated names included |
| StoreQuota.RetryIgnoresQuota | ui/src/App.tsx:413-421 | content larger than the quota is turned down as a batch and stored by a retry |
| StoreQuota.RetryWithinQuotaIff | ui/src/App.tsx:413-421 | after a retry the bucket is within the quota iff the other objects and the content fit |
| StoreQuota.MergeSize | ui/src/App.tsx:712-714 | what a merge weighs: the objects under other keys and the incoming table |
| StoreQuota.StepWithinQuota | ui/src/App.tsx:246-739 | a step keeps a bucket within its quota iff it is not a retry, import, restored object or restored version that overfills it, by sizes |
| StoreQuota.RunWithinQuota | ui/src/App.tsx:246-739 | a run stays within the quota throughout iff no step of those four kinds overfills the bucket where it is taken |
| StoreLaws.FindPut | ui/src/App.tsx:329-346 | after an upload its key holds the new object and no other key changes |
| StoreLaws.NewObjectCids | ui/src/App.tsx:329-345 | with versioning, an upload adds its CID to those of the key and loses none |
| StoreLaws.RestoredCids | ui/src/App.tsx:551-566 | restoring a version loses and invents no CID |
| StoreLaws.HistoryOverRuns | ui/src/App.tsx:329-574 | over any run that only uploads to and restores a key, whatever happens to others, its CIDs are those it had and those uploaded to it |
| StoreLaws.HistoryFromEmpty | ui/src/App.tsx:329-574 | from an empty bucket they are exactly those ever uploaded |
| StoreLaws.NewestFirstOverRuns | ui/src/App.tsx:329-574 | with a clock that never goes back the versions stay newest first |
| StoreLocality.StepInside | ui/src/App.tsx:246-739 | what a step does to the keys of a part depends on that part alone, if the quota decides alike or nothing is stored |
| StoreLocality.StepOutside | ui/src/App.tsx:246-739 | a step leaves other keys alone |
| StoreLocality.RunInside | ui/src/App.tsx:246-739 | a run that never touches some keys does to the others what it does without the objects under those keys, if the quota makes no difference at any step |
| StoreLocality.AdmittedIsHarmless | ui/src/App.tsx:259-268 | in a run of which the quota turns down nothing it makes no difference |
| StoreLocality.RunOutside | ui/src/App.tsx:246-739 | such a run leaves the objects under those keys as they are |
| StoreUndo.TableMerge | ui/src/App.tsx:730-732 | restored objects go over those of the list |
| StoreUndo.UndoDeletion | ui/src/App.tsx:639-733 | undoing a bulk deletion after any work on other keys gives the table of that work without the deletion, if the quota makes no difference in it |
| StoreUndo.UndoNeutralIff | ui/src/App.tsx:259-733 | with a clock that moves on, undoing agrees after every prefix of the work iff at every step the quota decides alike with and without the deleted objects or the batch stores nothing |
| StoreUndo.UndoDeletionAdmitted | ui/src/App.tsx:639-733 | in particular when the quota turns down none of the work, or there is no quota |
| StoreUndo.UndoSingleDeletion | ui/src/App.tsx:458-733 | both for a single deletion and the object it logs |
| StoreUndo.QuotaBreaksUndo | ui/src/App.tsx:259-268 | with a quota, a deletion can admit an upload that is otherwise turned down |
| StoreUndo.UndoRenaming | ui/src/App.tsx:596-739 | undoing a renaming after any work on other keys gives the very list of that work without it; at once, the identical list |
| ActivityLog.RunValid | ui/src/lib/activity.ts:44-60 | over any run of the log the ids fall from the front, none is beyond the last one given out, and at most 80 entries are kept |
| ActivityLog.EntryStaysIff | ui/src/lib/activity.ts:44-60 | after any run of logging, taking off and clearing, an entry is there iff it was never taken off and at no time 80 later entries that had not been taken off were there |
| ActivityLog.EntryStaysUntilPushedOut | ui/src/lib/activity.ts:44-52 | where nothing is taken off, a new entry stays exactly until 80 later ones have been logged |
| ConsoleState.HandledIsRun | ui/src/App.tsx:246-755 | a run of handlers is a run of steps on the objects beside a run of operations on the log |
| ConsoleState.HandledKeeps | ui/src/App.tsx:246-755 | throughout a run of handlers the log stays valid, and keys stay distinct throughout iff no undone renaming collides |
| ConsoleState.OfferedIff | ui/src/App.tsx:725-755 | an entry is still offered after a run of handlers iff none took it off and the later entries never filled the log |
| ConsoleState.LoggedDeletionUndone | ui/src/App.tsx:639-755 | the entry a bulk deletion logs, undone after any handlers on other keys, gives the table of those handlers without the deletion if the quota makes no difference, and at every moment only then; it is still offered exactly under the condition on the log, and no longer afterwards |
| ConsoleState.LoggedSingleDeletionUndone | ui/src/App.tsx:458-755 | the same for a single deletion |
| ConsoleState.LoggedRenamingUndone | ui/src/App.tsx:596-755 | the same for a renaming, with the very list and whatever the quota |
| UndoSession.SameTableIff | ui/src/App.tsx:730-732 | lists with distinct keys have the same table iff they hold the same objects |
| UndoSession.SessionUndone | ui/src/App.tsx:458-755 | a session of deletions and renamings, of the same keys or not, that logs n <= 80 entries is undone by undoing the newest entry n times: same table, distinct keys, and the log is what it was, up to the oldest entries that the session pushed out |
| Console.BucketConsole.LogActivity | ui/src/lib/activity.ts:48-52 | a new entry with a new id goes to the front of the capped log |
| Console.BucketConsole.RemoveActivity | ui/src/lib/activity.ts:54-56 | exactly the entries with the id are taken off |
| Console.BucketConsole.ClearActivity | ui/src/lib/activity.ts:58-60 | the log is emptied, the ids go on |
| Console.BucketConsole.UploadFiles | ui/src/App.tsx:246-363 | nothing when the sizes exceed the quota; else the started files are uploaded in turn, logged iff something was stored; quota and distinct keys are kept |
| Console.BucketConsole.RetryUpload | ui/src/App.tsx:371-431 | the other objects in order, then the new one with its fields and versions; nothing is logged |
| Console.BucketConsole.CreateFolder | ui/src/App.tsx:433-455 | an object without content is appended under the marker key and logged; nothing happens for an empty name or an existing marker |
| Console.BucketConsole.DeleteObject | ui/src/App.tsx:458-476 | the key holds nothing, every other key what it held; the object that undoes it is on top of the log |
| Console.BucketConsole.TogglePin | ui/src/App.tsx:478-503 | exactly the pin of the key's objects changes, and it is logged |
| Console.BucketConsole.RestoreVersion | ui/src/App.tsx:544-574 | the first object with the key gets the chosen version field by field, all other positions stay, and it is logged; nothing happens when the version is missing |
| Console.BucketConsole.RenameObject | ui/src/App.tsx:596-620 | exactly the key changes and the way back is logged, or nothing happens when the name is empty or taken |
| Console.BucketConsole.BulkDelete | ui/src/App.tsx:639-653 | the selected keys hold nothing, the others what they held; the removed objects are on top of the log |
| Console.BucketConsole.Merge | ui/src/App.tsx:712-714 | the two table loops give the insertion-ordered table, with distinct keys |
| Console.BucketConsole.ImportManifest | ui/src/App.tsx:703-722 | every key holds the last valid entry with it, or what it held; the valid entries are all that are objects; it is logged; a file without a list changes nothing |
| Console.BucketConsole.UndoActivity | ui/src/App.tsx:725-755 | carries the entry out backwards and takes it off the log; keys stay distinct iff it does not collide |
| Batch.SectionsInvariant | ipfrs_source/crates/ipfrs-core/src/batch.rs:145-156 | after any critical sections exactly one position per seen text has been kept |
| Batch.KeptRanFirst | ipfrs_source/crates/ipfrs-core/src/batch.rs:145-156 | kept is exactly the position whose section ran first among those with its text |
| Batch.UniqueCidsParallel | ipfrs_source/crates/ipfrs-core/src/batch.rs:141-160 | one execution under a given order of critical sections |
| Batch.UniqueUnderEverySchedule | ipfrs_source/crates/ipfrs-core/src/batch.rs:141-160 | under every order the result selects input positions in order and holds each distinct CID exactly once |
| Batch.SchedulesAgree | ipfrs_source/crates/ipfrs-core/src/batch.rs:141-160 | all orders report the same CIDs |
| Batch.OrderFixedIffGrouped | ipfrs_source/crates/ipfrs-core/src/batch.rs:141-160 | all orders return the same sequence iff equal CIDs stand together in the input |
| Batch.VerifyUnderEverySplit | ipfrs_source/crates/ipfrs-core/src/batch.rs:83-102 | under every split and early stop: success iff every block verifies to true, a block's own error iff some block gives one |
| Batch.EveryErrorCanWin | ipfrs_source/crates/ipfrs-core/src/batch.rs:83-102 | for any block that gives an error there is a split that returns this error |
| Batch.FirstInvalidAnsweredIff | ipfrs_source/crates/ipfrs-core/src/batch.rs:80-102 | every split answers for the first invalid block iff no block gives a different error |

## Left out

- React rendering, hooks, toasts, keyboard shortcuts and the navigation history: user interface, or facts that one branch shows.
- Gateway requests, local storage encoding, blobs and clipboard: input and output; storage is a field and uploads are given CIDs.
- Interleaving of an upload with other handlers between its awaits: each handler is one step here, so lost updates of a concurrent change are not captured.
- Buckets other than the current one, their creation and deletion, and the undoing of a bucket deletion: the last only puts back the logged list.
- The demo data of an object (`dag`, `proof`, `providers`), and imported objects that lack a size or a date.
- SHA-256, JSON, UTF-8 decoding, Unicode case mapping and locale collation: parameters.
- Normalisation of embedding vectors, `buildQueryEmbedding` and `fnv1a32`: square roots and a second hash of the same shape; the integer inequality is proved instead.
- `slug`, `renderMarkdown`, `searchIndex`, scores and snippets of `smartSearch`: would add members without a further law.
- `readDouble`, which the decoder never calls, and the type code 1, which `skipValue` does not handle as a value.
- Cells of a CSV field that mix quoted and bare stretches: the round trip is about fields written whole in one of the two forms.
- Highlight.RenderKey: needs non-empty terms, with which alone the original ends (its callers drop empty ones), and speaks of positions in the lower-cased key; these are positions of the key itself only when the case mapping keeps lengths.
- Highlight.BuildHighlights: needs non-empty terms for the same reason.
- Occurrences.FindAllOccurrences: needs a non-empty term, because with an empty one the original loop does not end (`Occurrences.SearchEndsIff`); its callers drop empty terms.
- Similarity.Embed: integers instead of single-precision floats, exact up to 2^24 trigrams per coordinate.
- Similarity.CosineInUnitInterval: about exact square roots; the doubles of the original can exceed 1 by rounding, which `Similarity.RoundedCosine` bounds.
- Similarity.SelfSimilarity: about an exact square root; in doubles the score of a text with itself can be just above or below 1.
- Console.BucketConsole.ImportManifest: the file is given parsed; objects that have a key and a CID but lack other fields are not modelled.
- Console.BucketConsole.UndoActivity: does not model the undoing of a bucket deletion, which puts back the logged list whole.
- Console.BucketConsole.LogActivity: entries carry their id and undo action, not their kind, bucket, summary and time; entries about other buckets are entries without an undoing here, and the counter of ids is not restarted by a reload.
- StoreUndo.UndoNeutralIff: supposes that a batch never stores a file at the very time of the object it replaces; with equal times a repeated upload of the same content could go unnoticed.
- Strings are sequences of whole characters, while the original indexes UTF-16 units: there, the surrogates of a needle can match across two characters in `subsequence`.
- Very deep nesting overflows the original's call stack, which `parseParquet` catches and reports as `truncated`; the model's recursion has no limit.
- Compression, Arrow and statistics of `ipfrs-core`, and the rest of the command line: thin layers over libraries.
