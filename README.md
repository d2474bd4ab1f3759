# Onyx database core, modelled in Dafny

This project models the core of the Onyx embedded/remote object database
(`onyx-database-parent`) and proves properties of the model:

- **FileStore**: the single-file store behind every persistent map. Its
  space allocator keeps a `TreeSet` of reclaimed regions ordered by size
  only. An allocation takes the smallest region strictly larger than the
  request (best fit). The remainder goes back into the set only when it is
  more than 20 bytes. With no such region, the file grows at its end and
  the 8-byte header at offset 0 is rewritten with the new size. Reads are
  guarded by the tracked file size.
- **LongCodec**: the big-endian, two's-complement `long` that the header
  holds.
- **CriteriaEval**: how a query's criteria tree becomes the map of matching
  references. It covers scanning, keeping the starting results, OR as a
  union, AND as successive narrowing, and an empty answer for a terminated
  query.
- **Pagination**: the result window (`firstRow`/`maxResults`) used by
  hydration, attribute hydration, delete queries and update queries, and
  the two hydration loops.
- **QueryMutation**: delete and update queries over one entity's record,
  index and relationship tables. It models the order of the index,
  relationship and record steps, the skipping of references without a
  record, and the agreement of the indexes with the records.
- **Validation**: `validateEntity` (non-null, String size and identifier
  checks, reporting the first collected failure). It also models
  `validateQuery`, which checks each attribute update, coerces the value
  and attaches the attribute descriptor and the index controller to the
  update in place.
- **SchemaContext**: the default schema context. It covers:
  - the write-ahead-log (WAL) file it journals into, with rotation past
    20 MiB;
  - the memoised data files;
  - the descriptor cache;
  - the partition index given to each new partition value;
  - shutdown.
- **RestService**, **JsonListener**: the REST route table with its
  case-insensitive lookup, and the JSON request handler. The handler maps
  each service to a request-body type and invokes it. It answers 200 with
  the result, or 303 with an exception response.
- **JavaStrings**: the few `String`/`Integer` behaviours the code above
  relies on: `equalsIgnoreCase`, `compareTo` (the order `Arrays.sort` puts
  a listing in), `replace(".wal", "")`, `Integer.valueOf` and the decimal
  rendering of an integer.

Imperative code is modelled imperatively:
- `FileChannelStore`, `DefaultSchemaContext`, the record store of the
  query controller, `AttributeUpdate` and the HTTP exchange are classes
  whose methods update fields;
- the window loops, the partition-entry search and the maximum-index loop
  are `while` loops with invariants;
- each method is proved against a specification function, and the
  source's promises are lemmas about those functions.

## Model

| member | source | states |
|---|---|---|
| LongCodec.ToLong | onyx-database/src/com/onyx/map/store/FileChannelStore.java:365-367 | The result is a Java `long` congruent to the input modulo 2^64, and equal to it when the input is already a `long`. |
| LongCodec.WriteLong | onyx-database/src/com/onyx/map/store/FileChannelStore.java:367 | Writing a `long` into the header produces exactly 8 bytes. |
| LongCodec.ReadLong | onyx-database/src/com/onyx/map/store/FileChannelStore.java:119-121 | Reading 8 header bytes always yields a value in the range of a Java `long`. |
| LongCodec.DecodeEncodeUnsigned | onyx-database/src/com/onyx/map/store/FileChannelStore.java:119-121 | Decoding the k base-256 digits of a number below 256^k gives that number back. |
| LongCodec.ReadWriteLong | onyx-database/src/com/onyx/map/store/FileChannelStore.java:110-125 | The file size written into the header by allocate is the size setSize reads back. |
| FileStore.Higher | onyx-database/src/com/onyx/map/store/FileChannelStore.java:349 | `TreeSet.higher`: in a size-ordered set, the position of the first region strictly larger than the request, or the end. No region before it is larger, and a region of exactly the requested size is never chosen. |
| FileStore.RemoveAt | onyx-database/src/com/onyx/map/store/FileChannelStore.java:353 | `TreeSet.remove`: one region fewer, no new region. The set stays size-ordered and no longer has a region of the removed region's size. |
| FileStore.RemoveAtFacts | onyx-database/src/com/onyx/map/store/FileChannelStore.java:353 | After removing the k-th region, a region is in the set iff it was in before and is not that region. |
| FileStore.RemoveAtSize | onyx-database/src/com/onyx/map/store/FileChannelStore.java:353 | Removing a region does not change whether any other size is present. |
| FileStore.TreeAdd | onyx-database/src/com/onyx/map/store/FileChannelStore.java:354-359 | `TreeSet.add` under the size-only comparator keeps the set ordered and adds at most the given region. |
| FileStore.TreeAddSameSize | onyx-database/src/com/onyx/map/store/FileChannelStore.java:445-449 | Adding a region whose size is already present leaves the set unchanged: equal size counts as equal. |
| FileStore.TreeAddNewSize | onyx-database/src/com/onyx/map/store/FileChannelStore.java:382-388 | Adding a region of a new size grows the set by one, and the region and every old region are members. |
| FileStore.AllocateSpec | onyx-database/src/com/onyx/map/store/FileChannelStore.java:343-373 | The allocation rule keeps the reclaim set size-ordered. |
| FileStore.Reuse | onyx-database/src/com/onyx/map/store/FileChannelStore.java:349-360 | Reusing a region, with or without putting its remainder back, keeps the reclaim set size-ordered. |
| FileStore.DeallocateSpec | onyx-database/src/com/onyx/map/store/FileChannelStore.java:382-388 | Deallocation leaves the file size unchanged and keeps the reclaim set size-ordered. |
| FileStore.Bytes | onyx-database/src/com/onyx/map/store/FileChannelStore.java:318-336 | Reading `size` bytes at a position yields exactly those bytes of the file. An offset never written reads as 0. |
| FileStore.Span | onyx-database/src/com/onyx/map/store/FileChannelStore.java:343-373 | A region's offsets are exactly those in [position, position + size). |
| FileStore.WriteAt | onyx-database/src/com/onyx/map/store/FileChannelStore.java:163-175 | A write stores each byte at its offset. Every other offset keeps its content, and no offset outside the written range appears. |
| FileStore.FileChannelStore.Open | onyx-database/src/com/onyx/map/store/FileChannelStore.java:82-125 | An empty file reserves the 8-byte header and records size 8. An existing file takes its size from the header. The reclaim set starts empty. |
| FileStore.FileChannelStore.Read | onyx-database/src/com/onyx/map/store/FileChannelStore.java:318-336 | A position at or past the file size gives null. Below the size, a negative size (the buffer allocation) or a negative position (`FileChannel.read`) is an IllegalArgumentException. Otherwise the result is the stored bytes. |
| FileStore.FileChannelStore.ReadObject | onyx-database/src/com/onyx/map/store/FileChannelStore.java:214-255 | Null past the end, and IllegalArgumentException for a negative size or position. Otherwise the bytes are decoded by the object's own reader for an ObjectSerializable type, or unwrapped by the buffer. |
| FileStore.FileChannelStore.ReadWithSerializer | onyx-database/src/com/onyx/map/store/FileChannelStore.java:265-310 | Like ReadObject, including the null and IllegalArgumentException cases, except that a positive serializer id selects the serializer-specific unwrap. |
| FileStore.FileChannelStore.Write | onyx-database/src/com/onyx/map/store/FileChannelStore.java:163-205 | At a negative position `FileChannel.write` throws IllegalArgumentException and nothing is written. Otherwise the bytes are stored at the position, and the number of bytes written is returned. |
| FileStore.FileChannelStore.Allocate | onyx-database/src/com/onyx/map/store/FileChannelStore.java:343-373 | The new reclaim set, file size and position are those of the allocation rule. Reuse leaves the content untouched. Growth rewrites the header with the new size. The store stays valid. |
| FileStore.FileChannelStore.Deallocate | onyx-database/src/com/onyx/map/store/FileChannelStore.java:382-388 | The freed region is added to the reclaim set as the rule says. |
| FileStore.AllocateBestFit | onyx-database/src/com/onyx/map/store/FileChannelStore.java:343-360 | When a region strictly larger than the request exists, the returned position is that of a smallest such region, and the file does not grow. |
| FileStore.AllocateGrows | onyx-database/src/com/onyx/map/store/FileChannelStore.java:363-372 | With no larger region, the position is the old file size and the file grows by exactly the request. |
| FileStore.GrowthIsAdjacent | onyx-database/src/com/onyx/map/store/FileChannelStore.java:363-372 | Two growth allocations in a row return adjacent ranges. |
| FileStore.AllocateSplitsLargeRemainder | onyx-database/src/com/onyx/map/store/FileChannelStore.java:349-359 | When the chosen region exceeds the request by more than 20 bytes, the region leaves the set and its remainder is put back. The remainder is lost when its size is already present. |
| FileStore.ReuseReclaim | onyx-database/src/com/onyx/map/store/FileChannelStore.java:353-358 | After such a split, the reclaim set is the old one without the chosen region plus the remainder. |
| FileStore.SplitAt | onyx-database/src/com/onyx/map/store/FileChannelStore.java:353-358 | Removing a region and adding a remainder of a different size has the membership and size effects listed for the split. |
| FileStore.AllocateConsumesSmallRemainder | onyx-database/src/com/onyx/map/store/FileChannelStore.java:349-360 | When the chosen region exceeds the request by at most 20 bytes, the whole region is consumed and nothing is put back. |
| FileStore.DeallocateSameSizeCollapses | onyx-database/src/com/onyx/map/store/FileChannelStore.java:382-388 | Freeing a region whose size is already reclaimed changes nothing: that space is never reused. |
| FileStore.DeallocateNewSizeInserts | onyx-database/src/com/onyx/map/store/FileChannelStore.java:382-388 | Freeing a region of a new size makes it reclaimed and loses nothing. |
| FileStore.OpenEstablishesInvariant | onyx-database/src/com/onyx/map/store/FileChannelStore.java:110-125 | Opening an empty file allocates the header at position 0, and the space invariant holds with the header live. |
| FileStore.AllocateGrowthKeepsInvariant | onyx-database/src/com/onyx/map/store/FileChannelStore.java:363-372 | Growth keeps every live and reclaimed region inside the file and pairwise non-overlapping. |
| FileStore.ReuseShrinksFree | onyx-database/src/com/onyx/map/store/FileChannelStore.java:349-360 | After reuse, the reclaimed regions are some of the old ones other than the chosen region, plus possibly its remainder. |
| FileStore.ReuseKeepsRegionsApart | onyx-database/src/com/onyx/map/store/FileChannelStore.java:349-360 | Carving the allocation and its remainder out of a free region keeps all regions disjoint and inside the file. |
| FileStore.AllocateReuseKeepsInvariant | onyx-database/src/com/onyx/map/store/FileChannelStore.java:343-360 | Reuse keeps the space invariant, with the allocated region live. |
| FileStore.DeallocateKeepsInvariant | onyx-database/src/com/onyx/map/store/FileChannelStore.java:382-388 | Freeing a live region keeps the space invariant. |
| CriteriaEval.AllRecords | onyx-database/src/com/onyx/fetch/PartitionQueryController.java:76-78 | A query without criteria uses "identifier NOT_EQUAL" with no children. |
| CriteriaEval.Eval | onyx-database/src/com/onyx/fetch/PartitionQueryController.java:80-125 | A leaf is its scan, merged into the starting results when they are kept. Without AND children, the scanned keys and the kept starting keys are all in the result. |
| CriteriaEval.OrFold | onyx-database/src/com/onyx/fetch/PartitionQueryController.java:101-114 | Folding OR children never loses a key of the running result. |
| CriteriaEval.KeysToSelf | onyx-database/src/com/onyx/fetch/PartitionQueryController.java:106-111 | OR results are put with each key mapped to itself. |
| CriteriaEval.GetIndexesForCriteria | onyx-database/src/com/onyx/fetch/PartitionQueryController.java:71-131 | The loops compute exactly the recursive evaluation (scan, starting results, ORs, ANDs). A terminated query answers an empty map. |
| CriteriaEval.PutAll | onyx-database/src/com/onyx/fetch/PartitionQueryController.java:90-99 | The put loop yields the old map overridden by every entry of the new one. |
| CriteriaEval.OrFoldGrows | onyx-database/src/com/onyx/fetch/PartitionQueryController.java:101-114 | OR folding never loses a key and adds every key of every OR child. |
| CriteriaEval.OrIsUnion | onyx-database/src/com/onyx/fetch/PartitionQueryController.java:80-114 | Without AND children, the result contains the scanned keys, the starting keys (unless replacing) and the keys of every OR child. |
| CriteriaEval.EvalWithinStart | onyx-database/src/com/onyx/fetch/PartitionQueryController.java:116-123 | With a scanner that only returns what it is given, evaluating on starting results yields a subset of them. |
| CriteriaEval.OrFoldWithin | onyx-database/src/com/onyx/fetch/PartitionQueryController.java:101-114 | OR folding over a subset of the starting results stays within them. |
| CriteriaEval.AndFoldWithin | onyx-database/src/com/onyx/fetch/PartitionQueryController.java:116-123 | AND folding stays within the running result. |
| CriteriaEval.AndNarrows | onyx-database/src/com/onyx/fetch/PartitionQueryController.java:116-123 | AND children only narrow what the node's own scan and its ORs produced. |
| CriteriaEval.AndFoldReplaces | onyx-database/src/com/onyx/fetch/PartitionQueryController.java:116-123 | The AND fold (`AndFold`) replaces rather than merges: its outcome is exactly what the last AND child gives on the running result handed to it. |
| CriteriaEval.Indexes | onyx-database/src/com/onyx/fetch/PartitionQueryController.java:71-99 | A terminated query answers an empty map. A query without criteria answers the identifier NOT_EQUAL scan, merged into the starting results when they are kept. |
| Pagination.Limit | onyx-database/src/com/onyx/fetch/PartitionQueryController.java:155-158 | A count that is not positive, or exceeds the number of keys, means all keys. Any other count is kept. |
| Pagination.Lo | onyx-database/src/com/onyx/fetch/PartitionQueryController.java:165-192 | The window's first position lies within the keys, and is the start when the start is in range. |
| Pagination.Hi | onyx-database/src/com/onyx/fetch/PartitionQueryController.java:165-192 | The window's end lies between its first position and the number of keys. |
| Pagination.HydrateResultsWithIndexes | onyx-database/src/com/onyx/fetch/PartitionQueryController.java:143-195 | The list holds the entities of the keys in the window, in iteration order, sorted first when order-by clauses are given. |
| Pagination.HydrateAll | onyx-database/src/com/onyx/fetch/PartitionQueryController.java:205-208 | The two-argument form hydrates every key. |
| Pagination.RecordReadsEach | onyx-database/src/com/onyx/fetch/PartitionQueryController.java:288-325 | A hydrated record has exactly the requested attributes, each read through the entry's key or value as its property says. |
| Pagination.HydrateQueryAttributes | onyx-database/src/com/onyx/fetch/PartitionQueryController.java:240-331 | The results are the initial map with the record of each window entry put under its key, later entries overriding. Nothing is put when no attribute is requested. |
| Pagination.ReadRecord | onyx-database/src/com/onyx/fetch/PartitionQueryController.java:288-325 | The inner loop builds the record of the requested attributes. |
| Pagination.HydratedNothingRequested | onyx-database/src/com/onyx/fetch/PartitionQueryController.java:288-325 | With no attribute requested, the results are left as they were. |
| Pagination.HydratedKeys | onyx-database/src/com/onyx/fetch/PartitionQueryController.java:273-328 | With some attribute requested, exactly the window's keys are added. |
| Pagination.HydratedPerEntry | onyx-database/src/com/onyx/fetch/PartitionQueryController.java:273-328 | For distinct keys, each window key holds its entry's record and other keys keep their values. |
| Pagination.WindowAll | onyx-database/src/com/onyx/fetch/PartitionQueryController.java:155-158 | With no start and no count, the window is all keys. |
| Pagination.WindowSize | onyx-database/src/com/onyx/fetch/PartitionQueryController.java:155-192 | For a start inside the keys, the window holds min(count, n - start) keys, or all remaining ones for an unspecified count. |
| Pagination.WindowPastEnd | onyx-database/src/com/onyx/fetch/PartitionQueryController.java:165-192 | A start at or past the end gives an empty window. |
| Pagination.WindowNegativeStart | onyx-database/src/com/onyx/fetch/PartitionQueryController.java:165-178 | A negative start is clamped to 0, and the window ends at the limit plus the start, or at 0 when that sum is negative. |
| Pagination.PagesTile | onyx-database/src/com/onyx/fetch/PartitionQueryController.java:155-192 | For any non-negative start and positive page size, consecutive pages follow each other without gap or overlap, also past the end of the keys. |
| Pagination.MapSeqAppend | onyx-database/src/com/onyx/fetch/PartitionQueryController.java:165-192 | Hydrating a concatenation of keys is concatenating the hydrations. |
| Pagination.PagesConcatenate | onyx-database/src/com/onyx/fetch/PartitionQueryController.java:143-195 | For any non-negative start and positive page size, two consecutive pages give the same entities, in order, as one page of twice that size. |
| Pagination.DeleteQueryWindow | onyx-database-tests/test/embedded/queries/DeleteQueryTest.java:40-54 | firstRow 2 and maxResults 1 over four matches select exactly the third record. |
| QueryMutation.RecordStore.constructor | onyx-database/src/com/onyx/fetch/PartitionQueryController.java:341-403 | The store starts with the given tables and an empty step log. |
| QueryMutation.RecordStore.DeleteRecord | onyx-database/src/com/onyx/fetch/PartitionQueryController.java:373-396 | One record's index entries, relationships and record are deleted, in that order. |
| QueryMutation.RecordStore.DeleteRecordsWithIndexes | onyx-database/src/com/onyx/fetch/PartitionQueryController.java:341-403 | Every record in the window is deleted, in order, and the count returned is the window size. |
| QueryMutation.RecordStore.DeleteNext | onyx-database/src/com/onyx/fetch/PartitionQueryController.java:373-396 | Deleting the next record of the window extends the tables and the log of the deletions before it by exactly that record's deletion. |
| QueryMutation.RecordStore.UpdateRecord | onyx-database/src/com/onyx/fetch/PartitionQueryController.java:465-566 | The attributes are set and the old index entries removed, then the record is saved, then its new index entries saved. |
| QueryMutation.RecordStore.RemoveOldIndexEntries | onyx-database/src/com/onyx/fetch/PartitionQueryController.java:465-504 | The first instruction loop sets each attribute and removes the record from each indexed attribute's index. |
| QueryMutation.RecordStore.SaveNewIndexEntries | onyx-database/src/com/onyx/fetch/PartitionQueryController.java:539-561 | The second loop puts the saved value of each indexed attribute into its index. |
| QueryMutation.RecordStore.UpdateRecordsWithValues | onyx-database/src/com/onyx/fetch/PartitionQueryController.java:415-570 | From the window start, references with a record are updated until the window size is reached. References without a record are passed over uncounted. The count is the number updated. |
| QueryMutation.RecordStore.VisitReference | onyx-database/src/com/onyx/fetch/PartitionQueryController.java:452-566 | One step of the walk updates the record of the reference exactly when it is stored. |
| QueryMutation.RecordStore.WalkStep | onyx-database/src/com/onyx/fetch/PartitionQueryController.java:435-566 | One position of the walk: before the window it is skipped; at the window's end the walk stops with everything visited; otherwise it is visited. The references visited so far stay exactly those `Selected` picks, and the tables and log match their updates. |
| QueryMutation.Selected | onyx-database/src/com/onyx/fetch/PartitionQueryController.java:435-566 | An update visits at most the window size of references. |
| QueryMutation.SelectedWalked | onyx-database/src/com/onyx/fetch/PartitionQueryController.java:435-566 | Every reference an update visits has a stored record and lies in the stretch of keys walked. |
| QueryMutation.SelectedFull | onyx-database/src/com/onyx/fetch/PartitionQueryController.java:435-443 | Once the window size is reached, later keys add nothing. |
| QueryMutation.SelectedAllPresent | onyx-database/src/com/onyx/fetch/PartitionQueryController.java:435-566 | When every walked key is stored, the update visits exactly the window. |
| QueryMutation.SelectedMissesNothing | onyx-database/src/com/onyx/fetch/PartitionQueryController.java:452-457 | Short of the window size, no stored key walked past is skipped. |
| QueryMutation.UpdateAll | onyx-database/src/com/onyx/fetch/PartitionQueryController.java:506-536 | Updating never adds or removes a record and leaves the relationship table alone. |
| QueryMutation.DeleteAllRemoves | onyx-database/src/com/onyx/fetch/PartitionQueryController.java:373-396 | Deleting a run of references removes all of them from the record, index and relationship tables at once. |
| QueryMutation.DeleteAll | onyx-database/src/com/onyx/fetch/PartitionQueryController.java:373-396 | Deleting references removes exactly them from the record and relationship tables, and keeps the set of indexed attributes. |
| QueryMutation.ApplySetsLast | onyx-database/src/com/onyx/fetch/PartitionQueryController.java:465-476 | The last instruction for an attribute determines its value. |
| QueryMutation.ApplyKeepsOthers | onyx-database/src/com/onyx/fetch/PartitionQueryController.java:465-476 | Attributes named by no instruction keep their values. |
| QueryMutation.Apply | onyx-database/src/com/onyx/fetch/PartitionQueryController.java:465-476 | Every instructed attribute is present after the update, and no attribute is lost. |
| QueryMutation.DeletedFromFacts | onyx-database/src/com/onyx/fetch/PartitionQueryController.java:479-495 | Removing old entries touches only this record, only in indexed attributes, and removes it there. |
| QueryMutation.SavedToFacts | onyx-database/src/com/onyx/fetch/PartitionQueryController.java:539-561 | Saving puts this record, with the saved value, in every indexed attribute's index and changes nothing else. |
| QueryMutation.DeleteKeepsIndexesAgree | onyx-database/src/com/onyx/fetch/PartitionQueryController.java:373-396 | A delete keeps every index entry equal to the current value of a stored record. |
| QueryMutation.UpdateKeepsIndexesAgree | onyx-database/src/com/onyx/fetch/PartitionQueryController.java:465-561 | An update keeps every index entry equal to the current value of a stored record. |
| QueryMutation.DeleteOrder | onyx-database/src/com/onyx/fetch/PartitionQueryController.java:373-398 | Per deleted record, its indexes go first, then its relationships, then the record. |
| QueryMutation.DeletionStepsAreDeletions | onyx-database/src/com/onyx/fetch/PartitionQueryController.java:479-495 | The steps before the save only remove index entries. |
| QueryMutation.SaveStepsAreSaves | onyx-database/src/com/onyx/fetch/PartitionQueryController.java:539-561 | The steps after the save only add index entries. |
| QueryMutation.UpdateOrder | onyx-database/src/com/onyx/fetch/PartitionQueryController.java:465-561 | Every index-entry removal precedes the record save, which precedes every index-entry save. |
| QueryMutation.DeleteQueryExample | onyx-database-tests/test/embedded/queries/DeleteQueryTest.java:40-54 | Four distinct matches with first row 2 and at most one result: one record is deleted and three remain. |
| Validation.ClassOf | onyx-database/src/com/onyx/helpers/ValidationHelper.java:170-200 | `getClass()` of a value is never a primitive class. |
| Validation.Supertypes | onyx-database/src/com/onyx/helpers/ValidationHelper.java:189-196 | Every value is an instance of java.lang.Object. Strings are also Serializable, Comparable and CharSequence. Boxed numbers are Serializable, Comparable and Number, and an object is an instance of its own class and the classes it is assignable to. |
| Validation.IsInstance | onyx-database/src/com/onyx/helpers/ValidationHelper.java:189-196 | `Class.cast` succeeds for the value's own class and for Object, and never for a primitive class. |
| Validation.Lookup | onyx-database/src/com/onyx/helpers/ValidationHelper.java:133-146 | The attribute found has the requested name. None means no attribute has it. |
| Validation.CheckAttribute | onyx-database/src/com/onyx/helpers/ValidationHelper.java:38-74 | Non-null fails iff the attribute is not nullable and its value is null. A size violation happens iff a non-null String is longer than a size above -1. NoSuchField is reported iff the attribute is absent from the entity and is a non-nullable or String one. The attribute passes iff none of these holds. |
| Validation.CheckIdentifier | onyx-database/src/com/onyx/helpers/ValidationHelper.java:77-95 | A generated identifier always passes. Otherwise an identifier field absent from the entity is NO_SUCH_FIELD, a null value is IDENTIFIER_REQUIRED (exactly when the field is present and null), and a non-null value passes. |
| Validation.AttributeViolations | onyx-database/src/com/onyx/helpers/ValidationHelper.java:38-74 | No violation is collected iff every attribute passes. The first collected one belongs to the first failing attribute. |
| Validation.AsEntityException | onyx-database/src/com/onyx/helpers/ValidationHelper.java:97-108 | An EntityException is rethrown as is. Anything else is wrapped as UNKNOWN_EXCEPTION. |
| Validation.ValidateEntity | onyx-database/src/com/onyx/helpers/ValidationHelper.java:33-111 | True iff every attribute check and the identifier check pass. Otherwise the first collected failure is thrown. |
| Validation.FirstNullNonNullableReported | onyx-database/src/com/onyx/helpers/ValidationHelper.java:45-108 | The first non-nullable attribute holding null, with all earlier attributes passing, is the one reported. |
| Validation.FirstOverlongStringReported | onyx-database/src/com/onyx/helpers/ValidationHelper.java:56-108 | The first over-long String, with all earlier attributes passing, is reported as a size violation. |
| Validation.FirstViolationIsAt | onyx-database/src/com/onyx/helpers/ValidationHelper.java:38-74 | The first collected violation is the check result of the first failing attribute. |
| Validation.IdentifierReportedLast | onyx-database/src/com/onyx/helpers/ValidationHelper.java:77-108 | The missing identifier is reported only when every attribute passes. |
| Validation.UnboundedStringPasses | onyx-database/src/com/onyx/helpers/ValidationHelper.java:56-69 | A nullable String of size -1 never fails. |
| Validation.Coerce | onyx-database/src/com/onyx/helpers/ValidationHelper.java:170-200 | Null, the same class and a boxed/primitive pair are kept. An Integer for a Long or long becomes a Long. Anything else is cast, which succeeds for any supertype of the value; a failed cast (always, for a primitive type) is a type mismatch naming both classes. |
| Validation.CheckUpdate | onyx-database/src/com/onyx/helpers/ValidationHelper.java:127-201 | A missing attribute is AttributeMissing. A null for a non-nullable attribute is AttributeNonNull. A non-String value for a String attribute is a type mismatch, and an over-long String is AttributeSize. An accepted update names an attribute other than the identifier (ignoring case), and carries the coerced value. |
| Validation.CheckUpdateAsWritten | onyx-database/src/com/onyx/helpers/ValidationHelper.java:127-201 | As written, the only non-entity exception is the NullPointerException, thrown exactly for a null value of a nullable String attribute. |
| Validation.NumberCastAccepted | onyx-database/src/com/onyx/helpers/ValidationHelper.java:189-196 | An Integer, Long or Double for an attribute declared as java.lang.Number is accepted unchanged. |
| Validation.NullStringUpdateThrows | onyx-database/src/com/onyx/helpers/ValidationHelper.java:153-162 | As written, a null update of a nullable String attribute throws a NullPointerException, while the corrected check accepts it. |
| Validation.CheckUpdateAgreesAsWritten | onyx-database/src/com/onyx/helpers/ValidationHelper.java:127-201 | Outside that one case, the corrected check throws and accepts exactly as written. |
| Validation.NullAcceptedWhenNullable | onyx-database/src/com/onyx/helpers/ValidationHelper.java:148-151 | Null is accepted unchanged for every nullable attribute other than the identifier. |
| Validation.IdentifierUpdateRefused | onyx-database/src/com/onyx/helpers/ValidationHelper.java:165-168 | Updating the identifier, in any letter case, is refused once the null and String checks pass. |
| Validation.IntegerWidenedToLong | onyx-database/src/com/onyx/helpers/ValidationHelper.java:184-188 | An Integer given for a Long or long attribute is stored as a Long of the same value. |
| Validation.PrimitiveMismatch | onyx-database/src/com/onyx/helpers/ValidationHelper.java:189-196 | A non-Boolean value for a `boolean` attribute is a type mismatch. |
| Validation.AttributeUpdate.constructor | onyx-database/src/com/onyx/helpers/ValidationHelper.java:127-141 | An update starts with its field and value and no descriptor or index controller attached. |
| Validation.FirstFailure | onyx-database/src/com/onyx/helpers/ValidationHelper.java:127-201 | The position of the first refused update: all before it pass, and it fails unless it is the end. |
| Validation.ValidateUpdate | onyx-database/src/com/onyx/helpers/ValidationHelper.java:127-200 | One update gets its descriptor and index controller and is checked. An accepted update carries the coerced value, a refused one keeps its value. |
| Validation.Names | onyx-database/src/com/onyx/helpers/ValidationHelper.java:129 | The field names of the updates, in order. |
| Validation.Values | onyx-database/src/com/onyx/helpers/ValidationHelper.java:131 | The values of the updates, in order. |
| Validation.ValidateQuery | onyx-database/src/com/onyx/helpers/ValidationHelper.java:121-204 | No updates is true. Otherwise the updates are checked in order and the first refusal is thrown, or true is returned. |
| Validation.ValidateUpdates | onyx-database/src/com/onyx/helpers/ValidationHelper.java:127-203 | Updates before the first refusal carry their coerced values and all are prepared. Updates from the refusal on keep their values. Field names never change. |
| Validation.ValidateNext | onyx-database/src/com/onyx/helpers/ValidationHelper.java:127-201 | One iteration checks and prepares the update at its position, in the way ValidateUpdate does. The updates before it stay checked and the ones after it untouched. A refused update keeps its value. |
| Validation.FirstFailureIs | onyx-database/src/com/onyx/helpers/ValidationHelper.java:127-201 | A position before which all updates pass and at which one fails is the first failure. |
| Validation.FirstFailureFrom | onyx-database/src/com/onyx/helpers/ValidationHelper.java:127-201 | The same, counted from any starting position. |
| SchemaContext.WalDirectory | onyx-database/src/com/onyx/persistence/context/impl/DefaultSchemaContext.java:375-378 | The WAL directory is the location, then "/wal/". A null location renders as "null". |
| SchemaContext.WalNameRoundTrip | onyx-database/src/com/onyx/persistence/context/impl/DefaultSchemaContext.java:313-319 | The name of WAL file i parses back to i. |
| SchemaContext.Names | onyx-database/src/com/onyx/persistence/context/impl/DefaultSchemaContext.java:306 | `File.list` yields the name of each file, in order. |
| SchemaContext.Find | onyx-database/src/com/onyx/persistence/context/impl/DefaultSchemaContext.java:321 | A file found has the name. None means no file has it. |
| SchemaContext.CreateNewFile | onyx-database/src/com/onyx/persistence/context/impl/DefaultSchemaContext.java:321-324 | Creates an empty file only when none has the name. No file is lost and names stay distinct. |
| SchemaContext.ListedIndexAsWritten | onyx-database/src/com/onyx/persistence/context/impl/DefaultSchemaContext.java:306-317 | As written, an empty listing gives 0. Otherwise the index is parsed from the name that sorts last as a string, and no listed name sorts after it. It is a NumberFormatException iff that name is not a number. |
| SchemaContext.WalStartIndexNotLatest | onyx-database/src/com/onyx/persistence/context/impl/DefaultSchemaContext.java:306-317 | With "9.wal" and "10.wal" listed, the as-written rule resumes at 9, not at 10. |
| SchemaContext.ListedIndex | onyx-database/src/com/onyx/persistence/context/impl/DefaultSchemaContext.java:306-317 | Corrected: fails iff some name is not a number. Otherwise it is at least every listed index, and 0 for an empty listing. |
| SchemaContext.ListedIndexIsListed | onyx-database/src/com/onyx/persistence/context/impl/DefaultSchemaContext.java:306-317 | The index the corrected rule reads from a non-empty listing is the index of one of the listed names. |
| SchemaContext.ListedIndexIsMax | onyx-database/src/com/onyx/persistence/context/impl/DefaultSchemaContext.java:306-317 | A listed index that no other listed index exceeds is the one the corrected rule reads. |
| SchemaContext.SwitchTo | onyx-database/src/com/onyx/persistence/context/impl/DefaultSchemaContext.java:319-342 | Switching to an index opens that WAL file on a new channel: the file then exists and the channel is not closed. |
| SchemaContext.OpenListed | onyx-database/src/com/onyx/persistence/context/impl/DefaultSchemaContext.java:293-328 | The first opening. A fault before the index update, or a listing error, changes nothing and is passed on. Otherwise the listed index is added to the journal index first, so a failure to create the file leaves only the index advanced, and a failure to open it leaves the index advanced and the file created; both are TRANSACTION_FAILED_TO_OPEN_FILE. Without a fault that WAL file is created if missing and opened. No file is lost and names stay distinct. |
| SchemaContext.RotateIfFull | onyx-database/src/com/onyx/persistence/context/impl/DefaultSchemaContext.java:330-343 | A closed channel, or a failing force or close, is TRANSACTION_FAILED_TO_OPEN_FILE and changes nothing. An open file of at most 20 MiB is kept. A larger one is closed and the index advanced by one, so a failure to create or open the next file leaves the index advanced and the closed channel referenced. Otherwise the created file of the next index is opened. No file is lost and names stay distinct. |
| SchemaContext.AcquireWith | onyx-database/src/com/onyx/persistence/context/impl/DefaultSchemaContext.java:286-356 | Without a fault, an acquisition succeeds on an open channel that is not closed, and on a first opening whose listing is read; a listing error is passed on unchanged. A closed channel fails with TRANSACTION_FAILED_TO_OPEN_FILE and changes nothing. Every error is that or the listing error. On success a file is open on a live channel. The journal stays valid and no file is lost. |
| SchemaContext.AcquireSucceeds | onyx-database/src/com/onyx/persistence/context/impl/DefaultSchemaContext.java:306-327 | With the corrected listing rule and no I/O fault, a first acquisition succeeds iff every file in the WAL directory has a WAL name. |
| SchemaContext.AcquireAsWrittenSucceeds | onyx-database/src/com/onyx/persistence/context/impl/DefaultSchemaContext.java:306-327 | With the as-written listing rule and no I/O fault, a first acquisition over a non-empty directory succeeds iff the name that sorts last has a WAL name. |
| SchemaContext.RotationRule | onyx-database/src/com/onyx/persistence/context/impl/DefaultSchemaContext.java:331-345 | With no fault and a live channel, a file of at most 20 MiB is kept unchanged. A larger one is replaced by the file of the next index. |
| SchemaContext.OpensLatestWal | onyx-database/src/com/onyx/persistence/context/impl/DefaultSchemaContext.java:306-327 | The first acquisition opens a WAL file with an index no smaller than any existing one. |
| SchemaContext.RetryAddsListingTwice | onyx-database/src/com/onyx/persistence/context/impl/DefaultSchemaContext.java:306-327 | When creating the new WAL file fails after the index update, the index stays advanced by the listed index, and the retry adds the listed index a second time, landing at least two listed indices past the start. |
| SchemaContext.FailedRotationSticks | onyx-database/src/com/onyx/persistence/context/impl/DefaultSchemaContext.java:284-356 | When rotating a full file fails at the create or the open, the index is advanced and the channel left closed, and every later acquisition then fails with TRANSACTION_FAILED_TO_OPEN_FILE and changes nothing. |
| SchemaContext.WalResumesFullFile | onyx-database/src/com/onyx/persistence/context/impl/DefaultSchemaContext.java:306-343 | With 9.wal and 10.wal over 20 MiB and 11.wal still small, the first as-written acquisition after start-up resumes at 9, rotates once to 10 and journals into the already-full 10.wal (the next acquisition rotates to 11.wal). The corrected one opens 11.wal at once. |
| SchemaContext.ThreeWalsListed | onyx-database/src/com/onyx/persistence/context/impl/DefaultSchemaContext.java:306-317 | That listing reads as index 9 as written, and as 11 by the corrected rule. |
| SchemaContext.SystemDescriptors | onyx-database/src/com/onyx/persistence/context/impl/DefaultSchemaContext.java:676-684 | The system descriptors include SystemEntity, SystemAttribute and SystemPartitionEntry. |
| SchemaContext.NewDescriptor | onyx-database/src/com/onyx/persistence/context/impl/DefaultSchemaContext.java:663-668 | A new descriptor is for the class. It has a partition value iff the class is partitioned, and that value is the partition id's text. |
| SchemaContext.FirstWithValue | onyx-database/src/com/onyx/persistence/context/impl/DefaultSchemaContext.java:721-739 | The first partition entry carrying the value, or None when no entry does. |
| SchemaContext.AssignPartition | onyx-database/src/com/onyx/persistence/context/impl/DefaultSchemaContext.java:721-751 | No partition value changes nothing. Otherwise the value ends up with an entry, and either the counter is kept or it moves to counter + 1 with a last entry for the value at that index. |
| SchemaContext.PartitionValueReused | onyx-database/src/com/onyx/persistence/context/impl/DefaultSchemaContext.java:721-739 | A value that already has an entry keeps it, and the counter does not move. |
| SchemaContext.PartitionIndexFresh | onyx-database/src/com/onyx/persistence/context/impl/DefaultSchemaContext.java:741-751 | A new value gets counter + 1. Indexes stay distinct and bounded by the counter, and the value then has an entry. |
| SchemaContext.DataFile | onyx-database/src/com/onyx/persistence/context/impl/DefaultSchemaContext.java:453-481 | `computeIfAbsent`: the key maps to the result, only that key can be added, and existing entries keep their builders. A new builder has the path location + "/" + key. |
| SchemaContext.DataFileMemoised | onyx-database/src/com/onyx/persistence/context/impl/DefaultSchemaContext.java:477-481 | Asking again returns the same builder and changes nothing. |
| SchemaContext.DataFilePerPartition | onyx-database/src/com/onyx/persistence/context/impl/DefaultSchemaContext.java:477-481 | Two partition values of one class share a data file iff they are equal. |
| SchemaContext.EmptyCacheSeeds | onyx-database/src/com/onyx/persistence/context/impl/DefaultSchemaContext.java:670-704 | The first descriptor ever cached installs the system descriptors and seeds the counter. |
| SchemaContext.MaxOrZero | onyx-database/src/com/onyx/persistence/context/impl/DefaultSchemaContext.java:687-704 | The counter seed is at least 0 and every index value, and is 0 or one of them. |
| SchemaContext.DescriptorFor | onyx-database/src/com/onyx/persistence/context/impl/DefaultSchemaContext.java:645-769 | A cached descriptor is answered and nothing changes. Otherwise the new descriptor is cached with the system descriptors, and the class's system entity is stored while the others keep theirs; without a partition value it is stored unchanged. |
| SchemaContext.DescriptorKeepsIndexesBelow | onyx-database/src/com/onyx/persistence/context/impl/DefaultSchemaContext.java:687-751 | When the stored entries' indices are values of the partition-entry index, the system entity stored has distinct indices none above the new counter, and the counter covers every index value. |
| SchemaContext.FindPartitionEntry | onyx-database/src/com/onyx/persistence/context/impl/DefaultSchemaContext.java:721-739 | The search loop finds an entry iff one carries the value, and answers the first one's index. |
| SchemaContext.MaxIndex | onyx-database/src/com/onyx/persistence/context/impl/DefaultSchemaContext.java:687-704 | The loop computes the counter seed. |
| SchemaContext.DefaultSchemaContext.constructor | onyx-database/src/com/onyx/persistence/context/impl/DefaultSchemaContext.java:268-274 | Journal index 0, no WAL channel, and empty caches and counter. |
| SchemaContext.DefaultSchemaContext.GetTransactionFile | onyx-database/src/com/onyx/persistence/context/impl/DefaultSchemaContext.java:286-356 | The journal becomes the one Acquire gives for the fault, including an index already advanced when a create or open then fails. On failure that error is returned; otherwise the path of the open WAL file. |
| SchemaContext.DefaultSchemaContext.OpenListedWal | onyx-database/src/com/onyx/persistence/context/impl/DefaultSchemaContext.java:293-328 | The first opening is OpenListed with the corrected listing rule, for the given fault: the failure it reports and the state it leaves are exactly OpenListed's. |
| SchemaContext.DefaultSchemaContext.OpenWalAt | onyx-database/src/com/onyx/persistence/context/impl/DefaultSchemaContext.java:316-327 | Past the listing, the index update, file creation and channel opening leave exactly the state and failure OpenListed gives for that listed index. |
| SchemaContext.DefaultSchemaContext.RotateIfFullWal | onyx-database/src/com/onyx/persistence/context/impl/DefaultSchemaContext.java:330-343 | The rotation rule applied to the open file, for the given fault: the failure and state are exactly RotateIfFull's. |
| SchemaContext.DefaultSchemaContext.ReplaceFullWal | onyx-database/src/com/onyx/persistence/context/impl/DefaultSchemaContext.java:331-342 | Closing a full file, advancing the index, creating and opening the next file leave exactly the state and failure RotateIfFull gives. |
| SchemaContext.DefaultSchemaContext.GetDataFile | onyx-database/src/com/onyx/persistence/context/impl/DefaultSchemaContext.java:477-481 | The memoised data file of the descriptor. |
| SchemaContext.DefaultSchemaContext.GetDescriptorForEntity | onyx-database/src/com/onyx/persistence/context/impl/DefaultSchemaContext.java:645-769 | The descriptor answered and the new cache, counter and system entities are exactly those of DescriptorFor. |
| SchemaContext.DefaultSchemaContext.AssignPartitionIndex | onyx-database/src/com/onyx/persistence/context/impl/DefaultSchemaContext.java:721-751 | The partition entry search, else a new entry with the next counter value. |
| SchemaContext.DefaultSchemaContext.GetPartitionDataFile | onyx-database/src/com/onyx/persistence/context/impl/DefaultSchemaContext.java:497-514 | Null without a location, changing nothing. Partition 0 gives the base data file. No entry for the id is an error and changes nothing. Otherwise the data file of the descriptor DescriptorFor gives for the entry's value; the data files and descriptor cache are updated exactly as those say. |
| SchemaContext.DefaultSchemaContext.Shutdown | onyx-database/src/com/onyx/persistence/context/impl/DefaultSchemaContext.java:387-430 | The kill switch is set, the WAL channel is closed but stays referenced, and the data-file, descriptor and controller caches are emptied. The journal index, files and counter are kept. |
| RestService.Path | onyx-remote-driver/src/com/onyx/request/pojo/RestServicePath.java:9-21 | Every service path starts with "/" and is not empty after it. |
| RestService.Ordinal | onyx-remote-driver/src/com/onyx/request/pojo/RestServicePath.java:9-21 | `values()` lists every constant, at its ordinal. |
| RestService.OrdinalOf | onyx-remote-driver/src/com/onyx/request/pojo/RestServicePath.java:9-21 | The constant at each position of `values()` has that position as its ordinal. |
| RestService.ValueOfPath | onyx-remote-driver/src/com/onyx/request/pojo/RestServicePath.java:29-40 | Answers the first service whose path equals the name ignoring case. It fails, with the source's message, iff no service matches. |
| RestService.FindFrom | onyx-remote-driver/src/com/onyx/request/pojo/RestServicePath.java:31-35 | The loop answers the first constant, from a given position on, whose path equals the name ignoring case. It answers none iff no constant from there on matches. |
| RestService.IndexFrom | onyx-remote-driver/src/com/onyx/request/pojo/RestServicePath.java:31-35 | The same search over the list of paths: the first matching position at or after the start, or none iff nothing there matches. |
| RestService.PathIdentifiesService | onyx-remote-driver/src/com/onyx/request/pojo/RestServicePath.java:9-21 | No two services' paths are equal ignoring case. |
| RestService.ValueOfPathRoundTrip | onyx-remote-driver/src/com/onyx/request/pojo/RestServicePath.java:29-40 | Looking up a service's own path, in any letter case, gives that service. |
| JsonListener.GetClassForEndpoint | onyx-remote-database/src/com/onyx/server/JSONDatabaseMessageListener.java:50-93 | The body type of each service is the type its handler casts the body to. |
| JsonListener.BodyTypeMatchesHandler | onyx-remote-database/src/com/onyx/server/JSONDatabaseMessageListener.java:50-130 | Each body type is used by exactly its group of services: an entity request for save, delete, the finds and exists, a query for the three executes, a list for the batch save and delete, the initialize body for initialize and the relationship body for saving relationships. |
| JsonListener.InvokeHandler | onyx-remote-database/src/com/onyx/server/JSONDatabaseMessageListener.java:95-130 | Exceptions pass through. The batch and relationship services answer null, and the others answer the endpoint's result. |
| JsonListener.ErrorResponse | onyx-remote-database/src/com/onyx/server/JSONDatabaseMessageListener.java:167-183 | An EntityException is sent with its own class name. Anything else is wrapped as UnknownDatabaseException. |
| JsonListener.Process | onyx-remote-database/src/com/onyx/server/JSONDatabaseMessageListener.java:146-163 | An unknown path fails with IllegalArgumentException, and success implies a known path. |
| JsonListener.Exchange.constructor | onyx-remote-database/src/com/onyx/server/JSONDatabaseMessageListener.java:133-138 | A fresh exchange carries the path and content, with nothing sent and not ended. |
| JsonListener.SendResponse | onyx-remote-database/src/com/onyx/server/JSONDatabaseMessageListener.java:209-226 | When serialisation succeeds, the JSON content type and status are set and the bytes sent. Otherwise the exchange is untouched. |
| JsonListener.FailureOf | onyx-remote-database/src/com/onyx/server/JSONDatabaseMessageListener.java:144-183 | There is no failure iff processing succeeds and the success response serialises. |
| JsonListener.HandleRequest | onyx-remote-database/src/com/onyx/server/JSONDatabaseMessageListener.java:144-193 | Success sends 200 with the answer. A failure sends 303 with the exception response, or nothing when that cannot be serialised. The exchange is ended on every path. |
| JsonListener.UnknownPathAnswersUnknownDatabase | onyx-remote-database/src/com/onyx/server/JSONDatabaseMessageListener.java:146-182 | A path no service has is answered as UnknownDatabaseException. |
| JsonListener.EntityExceptionKeepsClassName | onyx-remote-database/src/com/onyx/server/JSONDatabaseMessageListener.java:163-171 | A handler's EntityException is answered under its own class name. |
| JsonListener.VoidServiceAnswersNull | onyx-remote-database/src/com/onyx/server/JSONDatabaseMessageListener.java:119-165 | A completed batch or relationship save answers 200 with null. |
| JavaStrings.ToLower | onyx-remote-driver/src/com/onyx/request/pojo/RestServicePath.java:32 | Folding maps A-Z to a-z and leaves other characters. |
| JavaStrings.EqualsIgnoreCaseReflexive | onyx-remote-driver/src/com/onyx/request/pojo/RestServicePath.java:32 | Every string equals itself ignoring case. |
| JavaStrings.EqualsIgnoreCaseSymmetric | onyx-remote-driver/src/com/onyx/request/pojo/RestServicePath.java:32 | Equality ignoring case is symmetric. |
| JavaStrings.EqualsIgnoreCaseTransitive | onyx-remote-driver/src/com/onyx/request/pojo/RestServicePath.java:32 | Equality ignoring case is transitive. |
| JavaStrings.NotEqualsIgnoreCaseAt | onyx-database/src/com/onyx/helpers/ValidationHelper.java:165 | Strings that differ at a position after folding are not equal ignoring case. |
| JavaStrings.LexLessIrreflexive | onyx-database/src/com/onyx/persistence/context/impl/DefaultSchemaContext.java:307 | No name sorts before itself. |
| JavaStrings.LexLessTotal | onyx-database/src/com/onyx/persistence/context/impl/DefaultSchemaContext.java:307 | Of two distinct names, exactly one sorts first. |
| JavaStrings.LexLessTransitive | onyx-database/src/com/onyx/persistence/context/impl/DefaultSchemaContext.java:307 | The `compareTo` order is transitive. |
| JavaStrings.LexMax | onyx-database/src/com/onyx/persistence/context/impl/DefaultSchemaContext.java:307-315 | The last name of a sorted listing is a listed name that no listed name sorts after. |
| JavaStrings.StripWal | onyx-database/src/com/onyx/persistence/context/impl/DefaultSchemaContext.java:315 | `replace(".wal", "")` never lengthens, introduces no character, and leaves a string without '.' unchanged. |
| JavaStrings.StripWalSuffix | onyx-database/src/com/onyx/persistence/context/impl/DefaultSchemaContext.java:315-319 | Stripping "<stem>.wal", for a stem without a dot, gives the stem. |
| JavaStrings.NatToString | onyx-database/src/com/onyx/persistence/context/impl/DefaultSchemaContext.java:319 | The decimal rendering is non-empty digits without a sign or a dot. |
| JavaStrings.IntToString | onyx-database/src/com/onyx/persistence/context/impl/DefaultSchemaContext.java:319 | The rendering of an index has no dot. |
| JavaStrings.DigitsValueNatToString | onyx-database/src/com/onyx/persistence/context/impl/DefaultSchemaContext.java:315-319 | The value of the rendered digits is the number. |
| JavaStrings.ParseInt | onyx-database/src/com/onyx/persistence/context/impl/DefaultSchemaContext.java:316 | `Integer.valueOf` answers only non-empty input and only values in the range of `int`. |
| JavaStrings.ParseIntToString | onyx-database/src/com/onyx/persistence/context/impl/DefaultSchemaContext.java:316-319 | Parsing an int's rendering gives the int back. |
| JavaStrings.ParseIntRejectsNonDigit | onyx-database/src/com/onyx/persistence/context/impl/DefaultSchemaContext.java:316 | A non-digit after the sign is a NumberFormatException. |

## Left out

- Locks, `synchronized`, atomics and the scheduler: the model is sequential, and each operation runs alone.
- Physical file I/O is modelled as a map from offset to byte. Channel failures are modelled as the `IoFault` parameter of `getTransactionFile`, naming the stage (first opening or rotation) and the step (before the index update, at file creation, at channel opening) that throws; a failing close is treated like a failing force, before the index update. The I/O exceptions that FileChannelStore swallows are not modelled.
- Record decoding and serializers are function parameters of the read methods. ObjectBuffer's internal layout beyond the 8-byte header is not modelled.
- FileStore.FileChannelStore.Allocate: allocation requests are not bounded to an `int`, and the `long` file size is not wrapped at 2^63.
- The table scanners, the sort of `sort(...)`, the record lookup and the attribute reader are function parameters of the query controller's operations.
- Relationship hydration, relationship deletion details, cascade rules and `RelationshipHelper` are not modelled. A delete records only the step that deletes a record's relationships.
- QueryMutation.RecordStore.UpdateRecordsWithValues: the branch that moves a record to another partition is not modelled. A saved record keeps its reference.
- QueryMutation.RecordStore.DeleteRecordsWithIndexes: a reference without a stored record is counted and deleted like any other, and removing its absent entries changes nothing. What the relationship and record controllers do with the resulting null entity is not modelled.
- Pagination.Hi: `count + start` is computed on unbounded integers; the `int` overflow of that sum is not modelled.
- The query's termination flag is modelled as constant during one evaluation, so a query cancelled midway is not modelled.
- `LinkedHashMap` and `THashMap` iteration orders are modelled as the sequence of entries in iteration order, which is passed in.
- JavaStrings.ParseInt: only ASCII digits are read, where `Integer.valueOf` also accepts other Unicode decimal digits; JavaStrings.LexLess likewise compares `char` values as Unicode scalar values, not the UTF-16 code units of `String.compareTo`. WAL names are ASCII, so the two agree on them.
- JavaStrings.ToLower: case folding covers ASCII letters only, which includes every service path and identifier name used here.
- Validation.ValidateQuery: it requires the update instructions to be distinct objects, because an aliased instruction would be checked twice against a value it already rewrote.
- SystemEntity re-creation on schema change, `checkIndexChanges`, `checkValidRelationships` and `saveEntity` inside `getDescriptorForEntity` are not modelled. The stored system entity and the values of the partition-entry index are parameters.
- System classes are assumed to use the file name "system".
- File.separator is modelled as "/".
- The record, relationship and index controller caches are modelled as sets.
- SchemaContext.DefaultSchemaContext.GetTransactionFile: the journal index is an unbounded integer, so the wrap of the `AtomicLong` is not modelled.
- SchemaContext.DefaultSchemaContext.GetTransactionFile: the context resumes by the corrected rule, the greatest index of the listing (`Acquire`), and not by the last name of the string-sorted listing (`AcquireAsWritten`), so for 9.wal and 10.wal full and 11.wal partial it journals into 11.wal, where the first acquisition after start-up in the source journals into the already-full 10.wal (the next acquisition rotates to 11.wal). It also fails the first acquisition with a NumberFormatException when any listed name is not a WAL name, where the source fails only when the name that sorts last is not one (with "+x" and "10.wal" listed the source resumes at 10).
- SchemaContext.DefaultSchemaContext.OpenListedWal: it reads the listing with the corrected `ListedIndex`, with the two differences from the source stated for GetTransactionFile; `OpenListed` over `ListedIndexAsWritten` is the as-written opening.
- Validation.ValidateUpdate: it checks with the corrected `CheckUpdate`, so a null value for a nullable String attribute is accepted and stored, where the source throws a NullPointerException (`CheckUpdateAsWritten` models that).
- Validation.ValidateUpdates: its loop checks with the corrected `CheckUpdate`, so it accepts a null value for a nullable String attribute and goes on, where the source throws a NullPointerException out of the loop.
- Validation.ValidateQuery: it answers true for an update setting a nullable String attribute to null, where the source throws a NullPointerException, because it checks with the corrected `CheckUpdate`.
- The HTTP read loop with its timeout, `dispatch` and the repetition of `handleRequest` over request channels are not modelled. One dispatched request is modelled, with its full content as the body.
- JSON mapping is a pair of parameters (decode and encode).

## Findings

| source | as written | input that shows it | evidently intended | confidence | as-written member | corrected member |
|---|---|---|---|---|---|---|
| onyx-database/src/com/onyx/helpers/ValidationHelper.java:155 | `((String) value).length()` is evaluated for a null value of a nullable String attribute, throwing a NullPointerException (not caught: only ClassCastException is) | an update setting a nullable String attribute "name" to null | a null value for a nullable attribute passes the size check | not executed | Validation.NullStringUpdateThrows | Validation.CheckUpdate |
| onyx-database/src/com/onyx/persistence/context/impl/DefaultSchemaContext.java:306-316 | the WAL start index is read from the last name of a listing sorted as strings, where "10.wal" and "11.wal" sort before "9.wal" | a WAL directory holding 9.wal and 10.wal, both over 20 MiB, and 11.wal, still small: journaling resumes at 9, rotates once to 10, so the first acquisition after start-up journals into the already-full 10.wal (the next one rotates to 11.wal) | resume at the greatest index, 11 | not executed | SchemaContext.WalResumesFullFile | SchemaContext.OpensLatestWal |
