# A verified model of bsondb

bsondb is an embedded document database: BSON documents in an append-only, memory-mapped
data file, B+Tree index files beside it, and a Python collection layer that keeps the two in
step. This project models those parts in Dafny and proves what they promise.
`dafny verify dfyconfig.toml` checks all of it.

The layers, from the bottom:

- `KeyOrder`, `Doubles`, `Tree`, `TreeInsert`, `TreeSearch`, `TreeRuns`: the B+Tree as a value.
  Insertion, lookup, range and delete are related to one sorted list of entries, to a map for
  unique indexes, and to every run of calls.
- `PageFile`, `BTreeFile`: the same tree as pages whose slots, counts and links are edited in
  place. Each method is proved to do what the value-level step does.
- `Utf8`, `Grammar`, `Validator`, `Codec`, `Encoder`, `Decoder`, `Calendar`: the BSON codec. The
  validator is the grammar, the encoder and decoder are inverse, the date formulas are a
  bijection. A string is held as its UTF-8 bytes, a double as its eight bytes. `Faults`,
  `EncodedForm`, `Instants` and `Rejections` say the same from outside: which documents encode,
  to which bytes, what a count of milliseconds means, and why bytes are rejected.
- `RecordFile`, `DataFile`, `FileForm`, `CrashRuns`, `PhantomRecord`: the data file as bytes that stand for a
  record list, with ordered stores, crashes between stores, recovery, the scanner, and whole
  sequences of appends, tombstones, crashes and recoveries.
- `IndexKeys`, `Query`, `Updates`, `Agreement`, `CollectionState`, `CollectionRuns`, `Search`,
  `NonUniqueFind`, `FailedMutations`: filters and update operators, and what indexes and records
  have to do with each other, on values. `KeyMeaning`, `Equality`, `Filters` and
  `OperatorEffects` say what a key, an equal value, a match and an update are, in terms of values
  alone.
- `StoredRows`, `Handles`, `Collection`: the collection as one data file object and several
  B+Tree objects, changed in the order the Python code changes them.

`Agrees` is the relation everything at the collection level rests on: every live record has its
live entry in every index, and no entry was made for anything but a record. `Exact` adds that no
live entry is left over from a dead record.

- Every mutation keeps `Agrees` except one: an insertion that meets a value without a key (a
  string, say) before any index refuses the document. It raises half way, and the document stays
  live, entered in the indexes before that one only (`CollectionState.AddKeepsIff`). Deleting it
  restores the agreement (`CollectionState.DeletingRepairs`).
- Unique indexes stay exact, except after an update for which the file could not grow: its old
  record is dead by then and keeps its entries.
- An index that is not unique may keep a left-over entry, because its delete can miss. The
  left-over itself does no harm, since searches skip dead records. But its cause, an entry in a
  leaf before the one its key descends to, also hides live documents from a search through the
  index: `Search.IndexSearchIsScan` says exactly when, `NonUniqueFind.FindMissesDocuments` how.
  It takes 181 records: with 180 or fewer in the file, dead ones included, every search through
  an index is complete (`Search.FindIsScan`).
- An update refused by a unique index leaves the old document deleted
  (`CollectionRuns.UpdateLosesIff`, `FailedMutations.LostByUpdate`). One that writes to no path
  related to an indexed one is never refused (`Updates.UnrelatedNeverRefused`).

## Where the code and its documentation differ

- `include/custom_bson/btree.h:48` gives the keys of a child as a half-open interval. A leaf split
  may cut a run of equal keys, so a child may end with keys equal to the separator on its right
  (`TreeRuns.SplitTreeNotHalfOpen`). The closed interval always holds, and
  `TreeInsert.ChildInterval` says exactly when the half-open one does.
- `include/custom_bson/btree.h:143-145` promises every live match from a lookup. On an index that
  is not unique, entries of a run in leaves before the descended one are missed
  (`TreeRuns.NonUniqueLookupMisses`); `TreeSearch.LookupCompleteIff` says exactly when. What a
  user sees is a `find` that returns fewer documents than there are.
- `python/bsondb/query.py:35-37` says that "tags.name" matches a list of documents. The code
  drops such a segment (`Query.NameOverListIsIgnored`), so it decides otherwise exactly when the
  list is not empty and the description finds something (`Query.NameOverListIff`).
- `python/bsondb/query.py:33-35` says that a numeric segment indexes into a list. The code follows
  the rest of the path in every other element as well, so the number makes no difference to any
  match (`Filters.PathThroughList`): "list.n" decides as described exactly when element n gives
  the operand or no element does (`Filters.IndexOverListIff`).
- `python/bsondb/collection.py:157-163` says that a failed insert never leaves a partially indexed
  document. Only DuplicateKeyError is rolled back: `FailedMutations.HalfInserted` is a document in
  one index of two, `CollectionState.AddKeepsIff` says exactly when it happens, and
  `Search.HalfInsertedMissed` what a search then misses.
- `python/bsondb/query.py:213-214` says that `_id` is immutable and that writing it raises. Only
  the path "_id" itself is tested: "_id.x" replaces an `_id` that is no dictionary
  (`Updates.IdReplaced`). Updates without such a path keep it (`Updates.IdKept`).
- Recovery is described as a logical truncation. The bytes of a torn append stay behind the
  recovered end of data (`RecordFile.TailAfterCrash`, `RecordFile.TornTailHappens`), so a second
  crash does not start from a zero tail. Committed records survive that
  (`CrashRuns.CommittedSurvive`), but bytes of a document that was dropped can come back as a
  record nobody appended (`PhantomRecord.NobodyAppendedIt`).

## Model

| member | source | states |
|---|---|---|
| KeyOrder.CmpIsRankOrder | src/c_engine/btree.c:120-147 | the comparison of two keys has the sign of the difference of one integer per key, whatever the tags |
| KeyOrder.CmpIsTotalPreorder | src/c_engine/btree.c:120-147 | so the comparison is reflexive, antisymmetric in sign and transitive on keys without NaN |
| Doubles.DoublesInOrder | src/c_engine/btree.c:134-141 | the keys of two floats compare as the numbers do: below, equal or above as the signed magnitude of one is of the other, the two zeros equal, the infinities at the ends |
| Doubles.MagnitudeSteps | src/c_engine/btree.c:134-141 | from one float to the next the magnitude grows by one unit in the last place, 2^-1074 below the second binade and twice as much in each one after it |
| Doubles.MagnitudesKnown | src/c_engine/btree.c:134-141 | it is 0 for the zeros, 1 for 1.0, and infinity continues it as 2^1024 |
| Doubles.NaNIff | python/bsondb/index.py:58-60 | the values refused as NaN are those with every exponent bit set and some fraction bit |
| TreeInsert.InsertRefinesList | src/c_engine/btree.c:482-675 | an insert that is not refused turns the left-to-right leaf contents into the same list with the new live entry directly after the last entry whose key is not above the new key, through leaf splits, internal splits and root growth |
| TreeInsert.InsertBelowFlat | src/c_engine/btree.c:482-643 | the same for the recursive descent below any page |
| TreeInsert.InsertKeepsShape | src/c_engine/btree.c:495-643 | an insert keeps all leaves at one depth, counts within 180 and 190, halves at least 90 and 95, and each separator equal to the first key on its right |
| TreeInsert.InsertNumbersPages | src/c_engine/btree.c:169-182 | page numbers in the tree stay distinct and are exactly the numbers handed out so far |
| TreeInsert.ChildInterval | include/custom_bson/btree.h:48-49 | in a sorted tree every key below child i lies in the closed interval of the separators around it; the half-open interval holds exactly when the last key below the child is below its right separator |
| TreeInsert.SplitSizes | src/c_engine/btree.c:521-610 | a leaf splits at its 181st entry into 91 and 90; an internal page at its 191st key into 95 and 95, the key between them moving up |
| TreeInsert.Occupancy | src/c_engine/btree.c:521-543 | a tree of height h below the root holds at least 90 * 96^h entries |
| TreeInsert.HeightBound | src/c_engine/btree.c:612-636 | a tree with two or more levels holds at least 2 * 90 * 96^(levels - 2) entries, dead ones included |
| TreeSearch.DescentReachesRunEnd | src/c_engine/btree.c:366-380 | the descended leaf is a stretch of the list that contains the last entry not above the key, although descent goes right on equality |
| TreeSearch.LookupCompleteIff | src/c_engine/btree.c:406-425 | a lookup reports every live match exactly when no live match lies in a leaf before the descended one |
| TreeSearch.LookupCompleteWithoutEqualSeparator | src/c_engine/btree.c:406-425 | it does whenever no separator met on the way down equals the key |
| TreeSearch.LiveIsReached | src/c_engine/btree.c:391-404 | in a unique tree no live entry of a key lies before the leaf the key descends to, even when dead entries of the key do |
| TreeSearch.UniqueLookupExact | src/c_engine/btree.c:406-425 | in a unique tree a lookup reports exactly the live offsets of the key |
| TreeSearch.DuplicateIsGlobal | src/c_engine/btree.c:391-404 | the uniqueness check, started at the descended leaf, finds a live entry exactly when there is one anywhere |
| TreeSearch.InsertKeepsLastLive | src/c_engine/btree.c:489-499 | inserting a key without live entry keeps the rule that of equal keys only the last may be live |
| TreeSearch.DeleteMarksOne | src/c_engine/btree.c:457-476 | a delete changes at most one dead flag and keeps the shape |
| TreeSearch.UniqueDeleteExact | src/c_engine/btree.c:457-476 | in a unique tree a delete marks the live entry asked for exactly when no earlier entry from the descended leaf on carries the same key and offset |
| TreeSearch.RangeExact | src/c_engine/btree.c:427-455 | a range scan returns exactly the live entries of the interval in key order: always without or with an exclusive low bound, and with an inclusive one if no live entry of that key precedes the descended leaf |
| TreeSearch.RangeCompleteIff | src/c_engine/btree.c:427-455 | for any bounds: with an inclusive low bound the scan is exactly the interval if and only if no live entry of that key precedes the descended leaf or the key is not below the high bound |
| TreeSearch.UniqueRangeExact | src/c_engine/btree.c:427-455 | on unique trees every range scan is exact |
| TreeSearch.UniqueRangeReports | src/c_engine/btree.c:427-455 | in a unique tree a range scan reports a record exactly when a live entry of it compares above, or not below, the low bound and below, or not above, the high bound, as each is exclusive or inclusive |
| TreeSearch.IntervalGrows | src/c_engine/btree.c:427-455 | each live entry in bounds adds its own record, at the end |
| TreeSearch.LookupGrows | src/c_engine/btree.c:406-425 | a lookup gets a record for each live entry that compares equal, in order |
| TreeRuns.StepKeepsWf | src/c_engine/btree.c:645-675 | insert, delete and lookup keep every structural rule of an index file |
| TreeRuns.ReachableHeightBound | src/c_engine/btree.c:612-636 | the height bound holds in every reachable index |
| TreeRuns.StepRefinesModel | src/c_engine/btree.c:645-675 | one call on a unique index answers as one call on a map from keys to offsets, and leaves what the map is left with exactly when it is no delete stopped by an older dead entry of its pair |
| TreeRuns.UniqueIndexIsAMapIff | src/c_engine/btree.c:645-675 | over every run a unique index holds what the map holds after each of its calls exactly when no delete of the run is stopped that way |
| TreeRuns.UniqueIndexIsAMap | src/c_engine/btree.c:645-675 | then it answers every further call as the map does |
| TreeRuns.NoPairTwiceNeverShadowed | src/c_engine/btree.c:457-476 | a run that inserts no (key, offset) pair twice has no such delete |
| TreeRuns.PairTwiceFails | src/c_engine/btree.c:457-476 | a pair inserted, deleted, inserted and deleted stays live |
| TreeRuns.SplitTreeNotHalfOpen | include/custom_bson/btree.h:48-49 | after 181 insertions of one key the left leaf ends with a key equal to its right separator |
| TreeRuns.NonUniqueLookupMisses | include/custom_bson/btree.h:143-145 | the promise to report every live match fails on non-unique trees: after 181 insertions of one key a lookup reports 90 entries and a delete of the first one does nothing |
| BTreeFile.Page.FindInsertAt | src/c_engine/btree.c:495-498 | the insertion position is after the last key not above the new one |
| BTreeFile.Page.FindPair | src/c_engine/btree.c:457-476 | the first slot with the key and offset, or the end of the leaf |
| PageFile.ChainFromLeaf | src/c_engine/btree.c:406-425 | following the leaf links from the descended leaf visits exactly the leaves from there on, in tree order |
| PageFile.FlatFromLeaf | src/c_engine/btree.c:406-425 | the slots of those pages are the list from the descended leaf on |
| PageFile.MatchesInFile | src/c_engine/btree.c:158-182 | every page of the tree lies inside the mapped pages |
| PageFile.MarkedMatches | src/c_engine/btree.c:457-476 | setting the dead flag in one slot makes the pages spell out the tree with that entry dead |
| BTreeFile.BTree.constructor | src/c_engine/btree.c:184-245 | a new index file stands for the empty index |
| BTreeFile.BTree.AllocatePage | src/c_engine/btree.c:158-182 | the next page number is mapped, other pages keep their contents |
| BTreeFile.BTree.DescendToLeaf | src/c_engine/btree.c:366-380 | the page reached is the descended leaf of the tree |
| BTreeFile.BTree.KeyHasLiveEntry | src/c_engine/btree.c:391-404 | the chain walk finds a live entry of the key exactly when there is one on the chain, its early return included |
| BTreeFile.BTree.LookupKey | src/c_engine/btree.c:406-425 | the page walk returns what the tree lookup returns |
| BTreeFile.BTree.RangeKeys | src/c_engine/btree.c:427-455 | the page walk returns what the tree range scan returns |
| BTreeFile.BTree.DeleteKey | src/c_engine/btree.c:457-476 | the page edit performs the delete step and nothing else |
| BTreeFile.BTree.InsertRecursive | src/c_engine/btree.c:482-643 | the page edits of a descent, its splits and re-fetched pages, spell out the grown tree; a refusal changes no page |
| BTreeFile.BTree.InsertKey | src/c_engine/btree.c:645-675 | the whole insertion performs the insert step, with its reply, new root included |
| Utf8.EncodingAccepted | src/c_engine/bson_engine.c:125-167 | every encoding of a Unicode scalar value passes the checks on one character |
| Utf8.AcceptedIsEncoding | src/c_engine/bson_engine.c:125-167 | whatever passes them is the encoding of a scalar value: no overlong form, no surrogate, nothing above U+10FFFF |
| Utf8.AcceptedIsChar | src/c_engine/bson_engine.c:125-167 | the checks on one character are the byte ranges of section 4 of RFC 3629 |
| Utf8.Validate | src/c_engine/bson_engine.c:125-167 | the loop accepts a byte string exactly when it is a concatenation of encodings of scalar values |
| Grammar.ParseSound | src/c_engine/bson_engine.c:501-524 | what the bounds-checked walk accepts is a printed well-formed tree |
| Grammar.ParseComplete | src/c_engine/bson_engine.c:501-524 | every printed well-formed tree is accepted, at any offset and with any larger bound |
| Grammar.ValidatorIsGrammar | src/c_engine/bson_engine.c:526-543 | a buffer validates exactly when it derives from the document grammar with 11 types, UTF-8 keys, depth up to 100 and length up to 16 MiB |
| Grammar.SerInjective | src/c_engine/bson_engine.c:526-543 | a valid buffer has one syntax tree only |
| Grammar.BoundDoesNotMatter | src/c_engine/bson_engine.c:173-220 | a nested document parses alike under its own bound and under any larger one |
| Validator.Iter.ReadI32 | src/c_engine/bson_engine.c:65-72 | a bounds-checked little-endian read that moves the cursor only on success |
| Validator.Iter.ReadCString | src/c_engine/bson_engine.c:100-113 | the bytes up to the first NUL before the bound, or an unterminated string |
| Validator.Iter.SkipValue | src/c_engine/bson_engine.c:252-370 | the cursor ends where the value of that type ends, or the walk's error is reported |
| Validator.Iter.Advance | src/c_engine/bson_engine.c:227-382 | one step of the iterator is one step of the grammar's walk, status codes included |
| Validator.ReadFrame | src/c_engine/bson_engine.c:173-220 | the frame checks give the offset of the end byte or the walk's error |
| Validator.ValidateRecursive | src/c_engine/bson_engine.c:501-524 | the recursive validator succeeds and fails as the walk does, with its status, and terminates |
| Validator.ValidateDocument | src/c_engine/bson_engine.c:526-543 | it accepts exactly the printed well-formed trees |
| Rejections.FrameRejected | src/c_engine/bson_engine.c:173-220 | which status a document gets for its length field: too short, too large, or longer than what is there |
| Rejections.ValueRejected | src/c_engine/bson_engine.c:252-370 | which status a value gets: unsupported or invalid for its type byte, an invalid length for its length field; and where an accepted value ends |
| Rejections.ValueTruncated | src/c_engine/bson_engine.c:252-350 | a value of a supported type with a good length is truncated exactly when its bytes are not all there |
| Rejections.ElementRejected | src/c_engine/bson_engine.c:227-250 | when a document ends, lacks its end byte, or has a key without terminator or not UTF-8 |
| Rejections.DepthRejected | src/c_engine/bson_engine.c:501-524 | the 101st level is rejected for its depth, and no level above it |
| Rejections.BufferRejected | src/c_engine/bson_engine.c:526-543 | bytes after the document are rejected, and a buffer of fewer than 5 |
| Faults.FaultlessIff | src/python_bindings/_bson_core.c:224-416 | what a document that can be encoded is like: at every place the key has no NUL, an int fits 64 bits, strings and binaries fit their length field, and dicts and lists are at most 100 levels down |
| Faults.ErrorIsFirstFault | src/python_bindings/_bson_core.c:224-416 | the encoding walk meets no error of its own exactly when no place of the value has a fault, and otherwise meets the fault of the first place in reading order |
| Faults.FirstErrorIff | src/python_bindings/_bson_core.c:224-416 | it meets the error s exactly when some place has the fault s and no place before it has any |
| Faults.EncodedIsReadBack | src/python_bindings/_bson_core.c:224-416 | every document without a fault that fits 16 MiB is encoded to bytes that validate and decode to the same values under the same keys in the same order, datetimes to the millisecond |
| EncodedForm.DictForm | src/python_bindings/_bson_core.c:363-396 | the bytes of a dict: its whole length in four bytes, lowest first, its elements and a zero byte |
| EncodedForm.FieldsInOrder | src/python_bindings/_bson_core.c:363-396 | the elements follow one another in the order of the dict |
| EncodedForm.FieldForm | src/python_bindings/_bson_core.c:224-361 | the bytes of an element of each type: type byte, key, zero byte and value, True as 1, an int in four bytes if it fits and in eight if not, strings with their length and terminator, a list as the dict of its decimal indexes |
| EncodedForm.DecimalForm | src/python_bindings/_bson_core.c:398-416 | the keys of a list are the decimal digits of the index, highest first, without leading zeros |
| Codec.SetInPlace | src/python_bindings/_bson_core.c:586-633 | a repeated key keeps the place of the first |
| Rejections.FlatRejected | src/python_bindings/_bson_core.c:460-584 | which status a validated value still gets from the decoder, and what each other one decodes to |
| Rejections.ItemsDecoded | src/python_bindings/_bson_core.c:635-673 | a list decodes to the values of its elements in order, whatever their keys, or fails with the first failure |
| Rejections.FieldsDecoded | src/python_bindings/_bson_core.c:586-633 | a dict holds under each key the value of the last element with that key, or fails with the first failure |
| Codec.NormalIsIdentity | src/python_bindings/_bson_core.c:123-172 | nothing is lost exactly when every datetime is in whole milliseconds |
| Codec.ValidatedIsWalkable | src/c_engine/bson_engine.c:526-543 | once a buffer has validated, decoding can fail only on string terminators, UTF-8 of string values, or the datetime range |
| Encoder.Writer.Put | src/c_engine/bson_engine.c:580-607 | bytes are appended, or the document size limit is reported and the contents are unchanged |
| Encoder.Writer.EndDocument | src/c_engine/bson_engine.c:635-645 | the terminator is added and the length field at the patch offset holds the document's length |
| Encoder.EncodeElement | src/python_bindings/_bson_core.c:224-361 | the bytes of one element, or the error met first: its own error if what is written before it fits, otherwise the size limit |
| Encoder.EncodeDocumentBody | src/python_bindings/_bson_core.c:363-396 | the bytes of a document, its length patched in afterwards |
| Encoder.EncodeArrayBody | src/python_bindings/_bson_core.c:398-416 | the bytes of an array, elements keyed by their decimal index |
| Encoder.Encode | src/python_bindings/_bson_core.c:418-450 | encoding succeeds exactly when no place of the document has a fault and it fits 16 MiB, and then gives its printed tree; otherwise it reports the first fault, or that the document is too large if the bytes before the fault do not fit |
| Decoder.WalkFollowsTree | src/python_bindings/_bson_core.c:460-673 | the decoder's walk over a validated document visits the tree the validator saw, although its bounds differ |
| Decoder.WalkIsDecodeSpec | src/python_bindings/_bson_core.c:675-700 | walking a validated buffer gives what decoding its tree gives |
| Decoder.ReadValue | src/python_bindings/_bson_core.c:460-584 | the value at an element is the walk's value or its error |
| Decoder.ReadDocument | src/python_bindings/_bson_core.c:586-633 | the dict built in the loop is the walk's, repeated keys keeping their place |
| Decoder.ReadArray | src/python_bindings/_bson_core.c:635-673 | the list built in the loop is the walk's |
| Decoder.Decode | src/python_bindings/_bson_core.c:675-700 | decoding a buffer gives the values of its syntax tree, or the validator's or a payload error |
| Calendar.CivilOfDays | src/python_bindings/_bson_core.c:94-114 | the date of the day number of a valid date is that date |
| Calendar.DaysOfCivil | src/python_bindings/_bson_core.c:94-114 | the day number of the date of a day is that day, and the date is valid |
| Calendar.NextDay | src/python_bindings/_bson_core.c:94-101 | the next calendar date under the 4/100/400 rule has the next day number |
| Calendar.DaysStepThroughCalendar | src/python_bindings/_bson_core.c:103-114 | the next day number has the next calendar date |
| Calendar.DaysFromCivilRanges | src/python_bindings/_bson_core.c:94-101 | the intermediate ranges stated in the comments hold for every valid date |
| Calendar.CivilFromDaysRanges | src/python_bindings/_bson_core.c:103-114 | the intermediate ranges stated in the comments hold for every day number |
| Calendar.YearFitsInt | src/python_bindings/_bson_core.c:103-114 | the year of any day derived from int64 milliseconds fits a C int |
| Calendar.YearOfEraInverts | src/python_bindings/_bson_core.c:103-114 | the year-of-era formula with its three corrections inverts the count of days before a year |
| Calendar.FloorDivIsFloor | src/python_bindings/_bson_core.c:116-121 | division rounds toward minus infinity for divisors of either sign |
| Calendar.DateTimeRoundTrip | src/python_bindings/_bson_core.c:123-215 | a datetime written as milliseconds is read back cut to whole milliseconds |
| Calendar.EpochMsRoundTrip | src/python_bindings/_bson_core.c:174-215 | milliseconds are readable exactly in years 1 to 9999 and are then written back unchanged |
| Instants.CountsInOrder | src/python_bindings/_bson_core.c:123-172 | the count of milliseconds of one datetime is below another's exactly when it is earlier by the clock and the calendar, and the same exactly when both are the same to the millisecond |
| Instants.CountSteps | src/python_bindings/_bson_core.c:123-172 | it grows by 1 for a millisecond, 1000 for a second, 60000 for a minute, 3600000 for an hour and 86400000 for a day, from 0 at the start of 1970 |
| FileForm.CountersForm | src/c_engine/storage.c:160-166 | the header holds the end of the data at byte 16, the live count at 24 and the total at 32, eight bytes each, lowest first |
| FileForm.RecordForm | src/c_engine/storage.c:193-200 | the records follow one another from byte 64 on, each a status byte, 1 if live and 2 if not, and its document |
| FileForm.HeaderIff | src/c_engine/storage.c:81-115 | a file is opened exactly if it has 64 bytes, the magic bytes and version 1 |
| FileForm.CapacityForm | src/c_engine/storage.c:175-192 | a file grows to the first doubling of its size that fits, rounded up to 4096 bytes |
| Rejections.ScanRejected | src/c_engine/scanner.c:22-60 | what the scanner answers: the end, a bad length, a record cut short, the next live record |
| RecordFile.RecAt | src/c_engine/storage.c:234-262 | each record of the list lies at its offset with its status byte, document and length |
| RecordFile.RecoverReads | src/c_engine/storage.c:130-158 | the recovery walk reads back every record of a well-formed file, then whatever follows |
| RecordFile.RecoverClean | src/c_engine/storage.c:130-169 | on a clean file recovery keeps every record and changes no byte |
| RecordFile.RecoverUnchangedIff | src/c_engine/storage.c:130-169 | recovery changes nothing exactly when what follows the records does not read as one more record |
| RecordFile.CountedHolds | src/c_engine/storage.c:160-166 | the counters recovery writes are the true counts |
| RecordFile.AppendCrashKeeps | src/c_engine/storage.c:130-200 | whatever bytes lie behind the data: stopping an append after any of its byte stores and recovering keeps every earlier record, followed by exactly what the stored bytes and those behind them read as, all validated, with true counters |
| RecordFile.AppendCrashAddsIff | src/c_engine/storage.c:130-200 | it adds at most one record exactly when no second record can be read behind the first; once the record is stored whole, it is that record and whatever could be read behind its place before the call |
| RecordFile.AppendCrashSafe | src/c_engine/storage.c:193-200 | with zeros behind the data a stopped append adds at most one record, live and validated |
| RecordFile.TombstoneCrashKeeps | src/c_engine/storage.c:207-232 | whatever bytes lie behind the data: stopping a tombstone after any store and recovering gives the list with or without it, and no more exactly when no record can be read behind the data |
| RecordFile.TombstoneCrashSafe | src/c_engine/storage.c:226-228 | with zeros behind the data it gives the list with or without it, with true counters |
| RecordFile.TailAfterCrash | src/c_engine/storage.c:160-166 | the zeros after the data are restored exactly when nothing was stored or what was stored reads as a record |
| RecordFile.TornTailHappens | src/c_engine/storage.c:193-200 | otherwise they are not, and every append has such a point |
| CrashRuns.EventKeeps | src/c_engine/storage.c:130-232 | an append, a tombstone, either of them stopped after any store and recovered, and a bare recovery each keep the file well formed and every record in it, dead only if the event tombstones it |
| CrashRuns.CommittedSurvive | src/c_engine/storage.c:130-232 | over any sequence of those events every record keeps its document and offset, and is live exactly if it was and no event stored its tombstone |
| CrashRuns.AcknowledgedSurvives | src/c_engine/storage.c:175-205 | an append that returned an offset is found there after any further events |
| CrashRuns.WithoutTornAppends | src/c_engine/storage.c:130-232 | from a zero tail and without stopped appends each event does to the records what it is meant to and crashes change nothing |
| PhantomRecord.NobodyAppendedIt | include/custom_bson/storage.h:68-72 | a document carried in a binary field of an append that was stopped becomes a live record after one more append and one more crash, on every file with a zero tail and room, and for every valid document of at most 16 MiB less 16 bytes |
| DataFile.ScanIsNextLive | src/c_engine/scanner.c:22-64 | on a well-formed file the scanner steps to the next live record and reports no error |
| DataFile.AppendedHolds | src/c_engine/storage.c:175-205 | the bytes an append leaves stand for the list with the new record |
| DataFile.AppendedIsAllWrites | src/c_engine/storage.c:193-200 | they are the last state of the ordered stores that a crash may cut short |
| DataFile.BuriedHolds | src/c_engine/storage.c:226-228 | the bytes a tombstone leaves stand for the list with that record dead |
| DataFile.Scanner.Next | src/c_engine/scanner.c:22-64 | one step on any bytes, malformed ones included |
| DataFile.DataFile.constructor | src/c_engine/storage.c:65-80 | a new file has its header, holds no records and has a zero tail |
| DataFile.DataFile.OpenExisting | src/c_engine/storage.c:81-115 | size, magic and version decide whether the file opens; for writing, a dirty file is recovered, a clean one keeps its records, and the file is marked dirty; for reading no byte changes |
| DataFile.DataFile.RecoverRecords | src/c_engine/storage.c:130-169 | the loop keeps the leading valid records and sets the three counters for them, changing no other byte |
| DataFile.DataFile.Append | src/c_engine/storage.c:175-205 | the new record is last in the list at the old end of data, and the file stays well formed exactly if its length prefix is its length; growth keeps the bytes; a failed resize changes nothing |
| DataFile.DataFile.Tombstone | src/c_engine/storage.c:207-232 | it succeeds exactly before the end of data on a byte that is a record status, and stores the status and then the counter as it then reads, whatever the offset; at a record the record dies, once; otherwise no byte changes |
| DataFile.DataFile.Read | src/c_engine/storage.c:234-262 | what the bytes at any offset say, or not found; at a record its status and the place of its document |
| DataFile.DataFile.NextLiveOffset | src/python_bindings/_storage_core.c:199-233 | the offset of the next live record after the given one |
| DataFile.DataFile.LiveScan | src/python_bindings/_storage_core.c:199-233 | repeated single steps meet exactly the live records, in offset order |
| IndexKeys.ResolveIndexValue | python/bsondb/index.py:72-84 | the value at a path, null when it is missing |
| IndexKeys.KeyEqualityIsValueEquality | python/bsondb/index.py:49-69 | two keys compare equal exactly when the values are equal within one type, datetimes to the millisecond |
| KeyMeaning.KeyForm | python/bsondb/index.py:49-69 | which values have a key, its 13 bytes, and which error the others raise |
| KeyMeaning.KeysInValueOrder | python/bsondb/index.py:49-69 | one key compares below another exactly when its value is smaller: null, bools, ints, floats, datetimes and object ids in this order of types, and within one by value, time or first differing byte |
| IndexKeys.StoringKeepsKeys | python/bsondb/collection.py:163-170 | the key computed before encoding is the key of what decoding returns |
| IndexKeys.StoringKeepsIndexable | python/bsondb/collection.py:163-170 | and there is one before exactly if there is one after |
| Equality.EqualIffSameMeaning | python/bsondb/query.py:65-73 | two values are == exactly when they mean the same and hold no NaN; a number means its exact value, whatever its type, a dict a map and a list a sequence of meanings |
| Equality.ValuesEqualIff | python/bsondb/query.py:65-73 | a candidate equals the operand exactly when they mean the same, no NaN is in them, and both or neither is a bool |
| Equality.PlainEqual | python/bsondb/query.py:65-73 | strings, bytes, object ids, datetimes, null and lists of them are equal only to themselves |
| Equality.DictsEqual | python/bsondb/query.py:65-73 | dicts are equal exactly when they have the same keys, in any order, with equal values under them |
| Equality.NumbersEqualIff | python/bsondb/query.py:65-73 | an int equals a float exactly when the float is finite and its magnitude is the int's; True equals no number |
| Filters.MatchesIff | python/bsondb/query.py:128-152 | a filter matches exactly when every clause holds; otherwise the first that does not decides, by raising or by no match |
| Filters.PathEnd | python/bsondb/query.py:41-44 | at the end of a path a list counts as a whole and by its elements |
| Filters.PathThroughDict | python/bsondb/query.py:46-51 | in a dict a segment is a key; a missing key, and any segment in a scalar, leads nowhere |
| Filters.PathThroughList | python/bsondb/query.py:53-62 | over a list any segment, number or not, collects what the rest of the path collects from each element; the number adds no candidate |
| Filters.RaisingSegment | python/bsondb/query.py:55-56 | a segment of two or more minus signs and digits raises on any list |
| Filters.NumeralIsIndex | python/bsondb/query.py:55-56 | decimal numerals are read as their number, with a minus sign as the negative |
| Filters.IndexOnlyNumerals | python/bsondb/query.py:55 | a segment is no index exactly if it is not minus signs followed by digits |
| Filters.IndexOverListIff | python/bsondb/query.py:33-38 | "list.n" matches whenever any element gives the operand, so it decides as described exactly when element n gives it or none does |
| Query.ListFreeResolves | python/bsondb/query.py:29-62 | without lists on the path there is one candidate, the value the index stores, or none |
| Query.MatchIsKeyMatch | python/bsondb/query.py:102-155 | without lists an equality clause holds exactly when the indexed value equals the operand, and then the keys agree exactly when int does not meet float |
| Query.NameOverListIsIgnored | python/bsondb/query.py:32-40 | over a list a segment that is no index does not matter, contrary to the description |
| Query.NameOverListIff | python/bsondb/query.py:32-40 | over a list of documents, a last segment that is no index and any operand but a document, the code decides as described exactly when the list is empty or the description finds nothing |
| Query.FilterOverList | python/bsondb/query.py:128-152 | so a filter on such a path matches only an empty list, and only null |
| Query.NameInListNotFound | python/bsondb/query.py:32-40 | for instance [{name: v}] is not found by its name |
| Updates.SetPathAt | python/bsondb/query.py:179-188 | a dotted path that was set leads to the value |
| Updates.SetPathElsewhere | python/bsondb/query.py:179-188 | a path that neither leads through the set one nor is led through by it leads where it did |
| Updates.SetPathSame | python/bsondb/query.py:179-188 | setting changes the document exactly when the value is not there already |
| Updates.UnsetPathAt | python/bsondb/query.py:191-199 | a path that was removed leads nowhere |
| Updates.UnsetPathElsewhere | python/bsondb/query.py:191-199 | removing leaves unrelated paths alone |
| Updates.RemovedPlace | python/bsondb/query.py:191-199 | a field is taken out of its place, the others keep their order |
| OperatorEffects.SetTakesEffect | python/bsondb/query.py:211-241 | a $set path leads to its value, if no later $set, no $unset and no $inc has to do with it |
| OperatorEffects.UnsetTakesEffect | python/bsondb/query.py:211-241 | an $unset path leads nowhere, whatever was set there, if no $inc has to do with it |
| OperatorEffects.IncTakesEffect | python/bsondb/query.py:211-241 | an $inc path leads to the sum of its delta and what the document had there, or what the same update set there, or 0 if it was missing or removed |
| OperatorEffects.RaisesIff | python/bsondb/query.py:211-241 | an update whose $inc paths are related to no other path raises exactly when it sets `_id` to another value, removes or increments `_id`, increments what is no number or by what is none, or the float sum raises |
| Updates.ApplyOperators | python/bsondb/query.py:211-241 | the three loops, $set, $unset and $inc in that order, and where they raise |
| Updates.AppliedElsewhere | python/bsondb/query.py:211-241 | an update does not change what a path leads to that none of its own paths is related to |
| Updates.AppliedValid | python/bsondb/query.py:211-241 | what it makes of a document of values is a document of values |
| Updates.IdKept | python/bsondb/query.py:211-241 | an update that does not raise keeps `_id` if none of its paths leads into `_id` |
| Updates.IdReplaced | python/bsondb/query.py:211-241 | setting "_id.rest" never raises, and keeps `_id` exactly when it is a dictionary with that value in place; any other `_id` is replaced |
| Updates.UnrelatedNeverRefused | python/bsondb/collection.py:184-210 | an update whose paths are related to no indexed path is never refused by a unique index |
| Agreement.ExactMeansEqualPairs | python/bsondb/collection.py:157-182 | an agreeing index is exact when its live (key, offset) pairs are those of the live rows |
| Agreement.InsertAgrees | python/bsondb/collection.py:163-170 | entering a new live row keeps the agreement and exactness |
| Agreement.DeleteAgrees | python/bsondb/collection.py:177-182 | deleting a row's entry keeps the agreement whether or not the delete finds it |
| Agreement.DeleteExact | python/bsondb/collection.py:177-182 | it leaves no entry behind exactly when the pair does not lie before the descended leaf; in a unique index it never does |
| Agreement.RollbackFinds | python/bsondb/collection.py:171-175 | on any tree the delete of a rollback finds the entry just inserted |
| Agreement.RollbackRestoresPairs | python/bsondb/collection.py:171-175 | a rollback leaves exactly the live pairs there were before the insertion |
| Agreement.RollbackAgrees | python/bsondb/collection.py:171-175 | after a rollback and the tombstone the index agrees with the rows |
| CollectionState.AddKeeps | python/bsondb/collection.py:228-239 | inserting, accepted or refused, keeps every index in agreement and every exact index exact |
| CollectionState.AddKeepsIff | python/bsondb/collection.py:157-175 | a failed insert leaves no partially indexed document exactly when no value without a key is met before an index refuses |
| CollectionState.RaisedNotCovered | python/bsondb/collection.py:157-175 | otherwise the document stays, live, and the indexes from there on have no entry for it |
| FailedMutations.HalfInserted | python/bsondb/collection.py:157-175 | an instance: two indexes and a document whose second field is a string, say; it is live, the first index has its entry, the second none |
| FailedMutations.HalfInsertedNotFound | python/bsondb/collection.py:101-111 | with the fields the other way round the scan finds the document by its second field and the second index does not |
| CollectionState.DeletingRepairs | python/bsondb/collection.py:381-396 | deleting such a document raises too, but leaves what a refusal would have left: the indexes agree with the records again |
| CollectionState.RemovedIsDrop | python/bsondb/collection.py:177-182 | for a document with keys everywhere that deletion is the ordinary one |
| CollectionState.RefusedIff | python/bsondb/collection.py:228-239 | unless it stops half way, an insert is refused exactly when a unique index has its key for a live document |
| CollectionState.RefusedCollides | python/bsondb/collection.py:228-239 | and that document is still live afterwards |
| CollectionState.EnteringByKeys | python/bsondb/collection.py:157-175 | a document enters every index exactly if it has a key for each and no unique one has that key for a live document; at the first index of which this is not true it is refused if it has a key there and the insertion stops half way if not |
| CollectionState.DropKeeps | python/bsondb/collection.py:381-387 | deleting keeps the agreement and the exactness of unique indexes |
| CollectionState.DropExactIff | python/bsondb/collection.py:381-387 | on any index exactness survives exactly when the delete can see its pair |
| CollectionState.ChangeKeeps | python/bsondb/collection.py:184-210 | an update that does not stop half way keeps the agreement and exactness even when it is refused and the old document is lost |
| CollectionRuns.BuildSucceedsIff | python/bsondb/index.py:184-202 | building an index succeeds exactly when every live document has a key on the path and, for a unique one, no two share it; the result agrees and is exact |
| CollectionRuns.HowMadeIff | python/bsondb/index.py:164-208 | create_index finds the index there exactly if there is one of that path, direction and uniqueness, its name taken exactly if there is one of other uniqueness, and fails to build exactly if there is neither and some live document has no key or, for a unique one, two share one |
| CollectionRuns.AddIndexKeeps | python/bsondb/index.py:164-208 | creating an index keeps the agreement, and changes nothing when the index or one of its name is there or the build raises |
| CollectionRuns.RebuildSucceeds | python/bsondb/collection.py:483-489 | rebuilding the indexes after compaction never raises |
| CollectionRuns.CompactKeeps | python/bsondb/collection.py:451-489 | compaction keeps the live documents in order, leaves no dead record and makes every index exact |
| CollectionRuns.AddRefines | python/bsondb/collection.py:228-239 | an insert does to the live documents what it does to a list with uniqueness constraints |
| CollectionRuns.PerformRefines | python/bsondb/collection.py:184-239 | so does every other call; a refused update removes the old document |
| CollectionRuns.UpdateLosesIff | python/bsondb/collection.py:184-210 | an updated document moves to the end of the list, or is lost without a replacement, the latter exactly when the new one clashes with one of the others |
| FailedMutations.LostByUpdate | python/bsondb/collection.py:184-210 | an instance: a unique index, {name: v} and {name: w}, and an update of the first to {name: w}; only {name: w} is left |
| CollectionRuns.CollectionRefinesList | python/bsondb/collection.py:157-239 | over every run of inserts, updates, deletes, index builds and compactions in which no insert stops half way, the live documents are the list's and each index agrees; the live pairs of a unique index are those of the live documents |
| Search.RouteIff | python/bsondb/collection.py:127-155 | an index is asked exactly for a filter of one equality clause on an indexed path whose operand has a key, and then the first index on the path |
| Search.ScanRaisesIff | python/bsondb/collection.py:113-125 | a scan raises exactly when the filter raises on some live document |
| Search.LookedUp | python/bsondb/collection.py:103-111 | a live document is among the offsets a lookup reports exactly when its key is the one looked up and its entry does not lie before the descended leaf |
| Search.IndexSearchIsScan | python/bsondb/collection.py:101-155 | without lists on the path, searching through any index, unique or not, returns the rows of the full scan in its order exactly when no live document holds the operand under the other numeric type and no matching document has its entry before the descended leaf |
| Search.LookupComplete | python/bsondb/collection.py:127-155 | the lookup is complete on unique indexes and where no separator equals the key |
| Search.HidesNothing | python/bsondb/collection.py:127-155 | no entry lies before the descended leaf in a unique index, nor where no separator equals the key |
| Search.FewRecords | python/bsondb/collection.py:127-155 | an index has at most one entry per record of the data file, dead ones included, and is a single leaf up to 180 records |
| Search.FindIsScan | python/bsondb/collection.py:101-155 | so find is the full scan there, and on any index of a file of at most 180 records |
| NonUniqueFind.FindMissesDocuments | python/bsondb/collection.py:101-155 | create_index on a field and 181 times insert_one of one value: the scan finds 181 documents, find through the index 90 |
| Search.HalfInsertedMissed | python/bsondb/collection.py:157-175 | after an insert that stopped at one index the full scan sees the document, and no lookup in that index or a later one reports it |
| Search.FindReturns | python/bsondb/collection.py:101-125 | a search returns live rows that match, in file order, whichever way it goes; through an index, exactly those among the offsets the lookup reports |
| StoredRows.EncodingIsStored | python/bsondb/collection.py:228-234 | what an insert writes decodes to the document and encodes to the same bytes again |
| StoredRows.SameBytesIff | python/bsondb/collection.py:198-202 | two documents encode alike exactly when they are equal once stored |
| Handles.EnterAll | python/bsondb/collection.py:157-175 | all indexes take the document; or, after a refusal, the ones before have their entry taken back; or, at a value without a key, those before keep it |
| Handles.RemoveAll | python/bsondb/collection.py:177-182 | the document's entry is deleted from every index, or from those before the first at which it has no key |
| Collection.Collection.constructor | python/bsondb/collection.py:63-65 | a new collection has no records and no indexes |
| Collection.Collection.InsertOne | python/bsondb/collection.py:228-239 | bytes and pages change as the state-level insert: the document is the last record, dead exactly if refused; it is not encoded exactly if it has a fault or is too large, with that status, and finds no room exactly if the file cannot grow; the indexes agree with the records exactly if it was not half done |
| Collection.Collection.UpdateRecord | python/bsondb/collection.py:184-210 | they change as the state-level update, with the same outcomes; it is skipped exactly when the stored form is the same, and no room and encoding errors come exactly as on an insert |
| Collection.Collection.RemoveRecord | python/bsondb/collection.py:381-396 | on any collection, half-inserted documents included, bytes and pages change as the state-level removal; it raises exactly when the document has no key at some indexed path |
| Collection.Collection.DeleteRecord | python/bsondb/collection.py:381-387 | where the indexes agree it does not raise and is the state-level delete |
| Collection.Collection.FindMatches | python/bsondb/collection.py:101-155 | the search over bytes and pages returns what the state-level search returns |
| Collection.Collection.FullScan | python/bsondb/collection.py:113-125 | the step-by-step scan returns exactly the live documents the filter matches, in file order, and raises exactly when the filter raises on one |
| Collection.Collection.ScanOffsets | python/bsondb/collection.py:103-111 | reading what the index reported, skipping dead records and filtering again, gives the rows at those offsets that match |
| Collection.Collection.BuildIndex | python/bsondb/index.py:190-195 | the build loop inserts every live document and stops exactly where the state-level build does |
| Collection.Collection.CopyLive | python/bsondb/collection.py:463-474 | the new file holds the live documents in order, all live |
| Collection.Collection.CreateIndex | python/bsondb/index.py:144-208 | the answer is "there already", "name taken" or "build raised" exactly in those cases of what indexes and documents there are, and nothing changes; otherwise the index is added |
| Collection.Collection.Compact | python/bsondb/collection.py:451-489 | the new file holds the live documents, its live counter is its total, and every index is rebuilt over it; it does not fail on a file of up to 2^60 bytes |
| Collection.Collection.DeleteMany | python/bsondb/collection.py:389-396 | exactly the rows found are dead afterwards, and their number is returned |
| Collection.Collection.UpdateMany | python/bsondb/collection.py:336-353 | each row found that the update alters is dead and its new document follows at the end, in order; the counts are those; where it stops early, why, after which row, and what it leaves of that one; a refusal means that a live document holds the key, and no room that the file cannot grow |
| Collection.Collection.UpdateManyWith | python/bsondb/collection.py:336-353 | the same with $set, $unset and $inc, for any update |

## Left out

- BTreeFile.BTree.InsertKey: slots beyond a page's count, the byte layout of a page and of the index header are not modelled, because no later step reads them before writing them.
- BTreeFile.BTree.AllocatePage: always succeeds; the code has no rollback for a failed allocation inside a split.
- DataFile.DataFile.Append: a resize fails exactly above a fixed mapping size, in place of an operating-system error.
- DataFile.DataFile.OpenExisting: flushing and the mapping itself.
- RecordFile.AppendCrashKeeps: a crash is a stop between byte stores in program order; page-cache reordering is not modelled.
- Agreement.DeleteExact: on an index that is not unique the leftover is characterised, not excluded, because the code leaves it.
- Collection.Collection.InsertOne: generating a missing `_id` is left to the caller. Of later calls on a collection in which an insert stopped half way only the deletion of that document is modelled (Collection.Collection.RemoveRecord).
- Collection.Collection.UpdateRecord: when the file cannot grow, the old record is already dead and its index entries stay; only then a unique index may keep a leftover.
- Collection.Collection.UpdateManyWith: the sum of a float and a number is a parameter, because rounding is not modelled; the test that an update has a known shape, and upserting, which is InsertOne with a document from elsewhere.
- Updates.ApplyOperators: documents are values, so the write through nested dictionaries in place is a rebuilt path.
- Collection.Collection.FindMatches: collects the whole result, where the Python generator is consumed step by step; the one-document variants take its first result.
- Collection.Collection.CreateIndex: explicit index names, which the collection's method does not offer, and the key type tag of the header.
- Collection.Collection.Compact: the indexes stand in the order of their creation; the code goes through them in the order of their file names.
- Query.MatchIsKeyMatch: filters are lists of equality clauses; the comparison, set and logical operators are not modelled, nor digits outside ASCII in list positions.
- Encoder.Encode: tuples, byte arrays, aware datetimes, strings with lone surrogates and failed memory allocation.
- CollectionRuns.CollectionRefinesList: runs in which no insert stops half way, because after one the indexes no longer agree.
- Faults.EncodedIsReadBack: datetimes are naive; sub-millisecond parts are cut, as `Codec.Normal` says.
- Page layout of `platform_mmap.c`, `cursor.py`, `client.py`, `database.py`, `results.py`, and ObjectId generation: operating-system calls and thin wrappers.
