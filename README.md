# Map/reduce storage actions and the IndexedProperties batcher

This project models two parts of RavenDB's database engine in Dafny.

**Map/reduce storage actions.** The first part is the map/reduce half of the ESENT storage layer, `DocumentStorageActions` in `MappedResults.cs`. It works on five tables:

- `mapped_results`: one row per (view, document, reduce key) produced by a map.
- `reduce_results`: one row per (view, level, bucket, reduce key) produced by a reduce step.
- `scheduled_reductions`: the queue of buckets that still need reducing.
- `reduce_keys_counts`: the number of mapped rows per reduce key.
- `reduce_keys_status`: the reduce type last performed per reduce key.

A shared etag generator numbers the rows. The model represents each table as a sequence of rows in insertion (etag) order. An ESENT index seek and its range limit become a filter on the index key. The index key of a text column is the column truncated after case folding. Each re-check the source does on a row (a case-insensitive or an ordinal comparison) is written out. The model does not define the SHA-1 hash of a reduce key, the bucket of a document, case folding, key truncation or `String.Compare`. They are function values held in an `Env`.

Each cursor loop is a Dafny method proved to compute a specification function of the tables. The properties of that function are proved in lemmas:

- paging composes;
- counters add and subtract one;
- a scan returns only rows of the index and view it was asked for;
- deleting scheduled reductions keeps the etag order;
- and so on.

A class invariant, `DocumentStorageActions.Valid`, states the following:

- every table is in etag order;
- every etag was handed out;
- every row stores the hash of its key;
- the counter and status tables hold at most one row per index key.

Every state-changing method preserves `Valid`.

**IndexedProperties batcher.** The second part is the batcher of the IndexedProperties bundle, `IndexPropertyBatcher` in `IndexedPropertiesTrigger.cs`. While an index is updated, it collects a `PropsState` per target document:

- a deleted index entry queues the document for removal of its indexed properties;
- a created entry queues the converted field values.

`Dispose` then writes these into the documents through `DocumentDatabase.Put`. The pieces are modelled as follows:

- A Lucene document is a sequence of fields.
- JSON is a small datatype. Parsing JSON, `Char.IsWhiteSpace`, the set of characters the current culture's comparison passes over (such as the soft hyphen), and the text of a JSON scalar are uninterpreted functions in a `JsonEnv`. The culture-sensitive `StartsWith("{")` is the test that the first character not passed over is `{`.
- The database is a class holding the documents and the log of `Put` calls.

Modules:

- `Common`: filters, first and last match.
- `Schema`: the rows, the result records and `Env`.
- `Lookups`: bucket, key and paging lookups.
- `Counters`: `ExecuteOnReduceKey` and the two key tables.
- `Queue`: scheduling and `GetItemsToReduce` / `DeleteScheduledReduction`.
- `Deletes`: the deletions.
- `Strategy`: `GetReduceTypesPerKeys`.
- `Debug`: the three debug scans.
- `StorageActions`: the class and its cursor loops.
- `IndexedValues`: the batcher's value conversions and the specification of `Dispose`.
- `Batcher`: the batcher and database classes.

## Model


| member | source | states |
|---|---|---|
| StorageActions.DocumentStorageActions.constructor | Raven.Database/Storage/Esent/StorageActions/MappedResults.cs:24 | a fresh storage has five empty tables and etag counter 0, and satisfies the table invariant |
| StorageActions.DocumentStorageActions.PutMappedResult | Raven.Database/Storage/Esent/StorageActions/MappedResults.cs:33-61 | appends exactly one mapped row carrying the next etag, the key's hash, the document's bucket and the timestamp; the reduce key's counter is incremented; the other tables are unchanged; the invariant is kept |
| StorageActions.DocumentStorageActions.GetKeysStats | Raven.Database/Storage/Esent/StorageActions/MappedResults.cs:63-96 | the key/count pairs of the counter rows in the view's index range, skipping `start` and yielding at most `pageSize` (at least one) |
| Lookups.KeysStats | Raven.Database/Storage/Esent/StorageActions/MappedResults.cs:63-96 | a page has at most max(pageSize, 1) entries, each the key and count of a counter row in the view's index range (the range compares the folded, truncated view name; the view is not re-checked, as in the source) |
| Lookups.KeysStatsPaging | Raven.Database/Storage/Esent/StorageActions/MappedResults.cs:63-96 | the page at `start` of size a followed by the page at `start + a` of size b is the page at `start` of size a + b |
| StorageActions.DocumentStorageActions.PutReducedResult | Raven.Database/Storage/Esent/StorageActions/MappedResults.cs:98-125 | appends exactly one reduce row with the next etag, level, bucket, source bucket and key hash; nothing else changes; the invariant is kept |
| StorageActions.DocumentStorageActions.ScheduleReductions | Raven.Database/Storage/Esent/StorageActions/MappedResults.cs:127-156 | appends one scheduled row per (key, bucket) pair in the given order, with consecutive fresh etags; the etag counter advances by the number of pairs |
| StorageActions.DocumentStorageActions.DeleteScheduledReduction | Raven.Database/Storage/Esent/StorageActions/MappedResults.cs:158-178 | deletes, through its bookmark, every row the readers recorded; a bookmark whose row is gone fails with RecordDeleted, and the deletions before it stay; on success reports the last recorded row whose etag is above the empty etag, or none |
| Queue.RetireKeeps | Raven.Database/Storage/Esent/StorageActions/MappedResults.cs:158-178 | deleting scheduled rows by bookmark leaves only rows of the original table, and keeps the table in etag order |
| Queue.RetireStops | Raven.Database/Storage/Esent/StorageActions/MappedResults.cs:163-176 | once a bookmark is found missing, no later reader row changes the table |
| Queue.LastPositiveIsLast | Raven.Database/Storage/Esent/StorageActions/MappedResults.cs:167-173 | if any recorded row has an etag above the empty one, a result is reported, and it is the last such row |
| StorageActions.DocumentStorageActions.GetItemsToReduce | Raven.Database/Storage/Esent/StorageActions/MappedResults.cs:180-238 | the readers and results computed by walking each key's scheduled rows of the view and level, stopping after `take` results |
| Queue.Fetch | Raven.Database/Storage/Esent/StorageActions/MappedResults.cs:240-252 | fetching results for a non-empty set of pairs fails exactly when the level is not 0, 1 or 2; otherwise every result belongs to one of the requested (key, bucket) pairs, and there are at least as many results as pairs |
| Queue.DistinctPairsSound | Raven.Database/Storage/Esent/StorageActions/MappedResults.cs:202-233 | every (key, bucket) pair the scan records comes from a scheduled row it read |
| Queue.KeyScanKeeps | Raven.Database/Storage/Esent/StorageActions/MappedResults.cs:202-233 | the scan keeps two relations between its bookkeeping and what it has read: the seen pairs are the distinct pairs of the rows read so far, and the collected results are exactly what fetching those pairs gives |
| Queue.KeyScanReaderPrefix | Raven.Database/Storage/Esent/StorageActions/MappedResults.cs:202-233 | the rows recorded for one key are a prefix of that key's matching scheduled rows |
| Queue.KeyScanReaderComplete | Raven.Database/Storage/Esent/StorageActions/MappedResults.cs:202-233 | a key's scan records all of its matching rows unless it stopped because `take` results were reached |
| Queue.ItemsFromGrows | Raven.Database/Storage/Esent/StorageActions/MappedResults.cs:184-237 | the per-key readers only grow: earlier readers are kept and there is at most one reader per key |
| Queue.ItemsFromReaderPrefix | Raven.Database/Storage/Esent/StorageActions/MappedResults.cs:184-237 | every reader is a prefix of its key's matching scheduled rows |
| Queue.ItemsFromReaderComplete | Raven.Database/Storage/Esent/StorageActions/MappedResults.cs:184-237 | every reader holds all of its key's matching rows, except the last one when `take` was reached |
| Queue.ItemsFromStops | Raven.Database/Storage/Esent/StorageActions/MappedResults.cs:184-237 | the walk stops before the last key only when `take` results were reached or the next key has no scheduled rows |
| Queue.ItemsFromResults | Raven.Database/Storage/Esent/StorageActions/MappedResults.cs:184-237 | the results returned are exactly the mapped or reduced results fetched for the readers' pairs |
| StorageActions.DocumentStorageActions.GetResultsForBucket | Raven.Database/Storage/Esent/StorageActions/MappedResults.cs:240-252 | level 0 reads the mapped results of the bucket, and levels 1 and 2 read the reduce results |
| StorageActions.DocumentStorageActions.GetMappedResultsForBucket | Raven.Database/Storage/Esent/StorageActions/MappedResults.cs:254-315 | the mapped rows of the view, key and bucket, or a single placeholder result when there are none |
| Lookups.MappedForBucketSound | Raven.Database/Storage/Esent/StorageActions/MappedResults.cs:254-315 | every result is a mapped row of the view, key and bucket, or else the placeholder for that key and bucket |
| StorageActions.DocumentStorageActions.RemoveReduceResults | Raven.Database/Storage/Esent/StorageActions/MappedResults.cs:318-346 | deletes exactly the reduce rows that the walk from the seek visits, and nothing else in any table |
| Deletes.RemovalWalkIsRun | Raven.Database/Storage/Esent/StorageActions/MappedResults.cs:318-346 | the walk starts at the seek on (view, level, source bucket, key hash) and visits the run of consecutive rows whose view matches ignoring case and whose source bucket matches (the level is not re-checked), keeping those whose key matches ordinally |
| Deletes.ReducedRemovalsSound | Raven.Database/Storage/Esent/StorageActions/MappedResults.cs:318-346 | every deleted row is a reduce row whose view matches ignoring case, whose source bucket matches and whose key matches ordinally |
| StorageActions.DocumentStorageActions.GetReducedResultsForBucket | Raven.Database/Storage/Esent/StorageActions/MappedResults.cs:348-406 | the reduce rows in the seeked (view, level, bucket, key hash) range whose key matches ordinally, read until the bucket changes, or a single placeholder when none qualifies |
| Lookups.ReducedForBucket | Raven.Database/Storage/Esent/StorageActions/MappedResults.cs:348-406 | at least one result, each with the requested key and bucket |
| Lookups.ReducedForBucketPlaceholder | Raven.Database/Storage/Esent/StorageActions/MappedResults.cs:355-404 | when no row of the seeked range has the key (compared ordinally), the result is exactly one placeholder for the key and bucket |
| Lookups.ReducedForBucketSound | Raven.Database/Storage/Esent/StorageActions/MappedResults.cs:348-406 | every result is the placeholder, given only when no row qualifies, or the record of a reduce row of the range whose key matches ordinally |
| Lookups.ReducedForBucketComplete | Raven.Database/Storage/Esent/StorageActions/MappedResults.cs:348-406 | every reduce row of the view, level, bucket and key (with its stored hash) is returned |
| StorageActions.DocumentStorageActions.DeleteMappedResultsForDocumentId | Raven.Database/Storage/Esent/StorageActions/MappedResults.cs:407-439 | when the seek finds nothing, nothing changes; otherwise every mapped row of the view and document is deleted and the other rows are kept, the deleted (bucket, key) pairs are added to `removed`, and one decrement runs per element of `removed` |
| Deletes.DocRowsInRange | Raven.Database/Storage/Esent/StorageActions/MappedResults.cs:407-439 | deleting the rows of the range that pass the re-check deletes exactly the rows of the view and document |
| Deletes.DocumentRowsAreHits | Raven.Database/Storage/Esent/StorageActions/MappedResults.cs:407-439 | the rows deleted are exactly the mapped rows of the view and document, in table order |
| StorageActions.DocumentStorageActions.DeleteMappedResultsForView | Raven.Database/Storage/Esent/StorageActions/MappedResults.cs:441-470 | every mapped row of the view is deleted and every other row is kept; the counter of each deleted row's key is decremented once per row |
| Deletes.ViewRowsInRange | Raven.Database/Storage/Esent/StorageActions/MappedResults.cs:441-470 | the rows left are exactly the rows of other views |
| Deletes.DecrementAllKeepsOk | Raven.Database/Storage/Esent/StorageActions/MappedResults.cs:441-470 | a run of decrements keeps both key tables at one row per index key |
| StorageActions.DocumentStorageActions.GetMappedResultsReduceKeysAfter | Raven.Database/Storage/Esent/StorageActions/MappedResults.cs:472-509 | walks the view's mapped rows from the given etag upward while fewer than `take` keys are gathered, keeping per key the record of the last row visited; the records carry no bucket (0) |
| Lookups.KeysAfterShape | Raven.Database/Storage/Esent/StorageActions/MappedResults.cs:472-509 | the results have distinct reduce keys, number at most max(take, 0), and each comes from a mapped row of the view whose etag is at least the given one |
| Lookups.KeysAfterLastWins | Raven.Database/Storage/Esent/StorageActions/MappedResults.cs:479-509 | the walk visits the range in order from its first row and stops only at its end, at `take` records, or at a row of another view (compared ordinally); each record is that of the last visited row of its key, and every visited row's key has a record |
| Lookups.UpsertReplaces | Raven.Database/Storage/Esent/StorageActions/MappedResults.cs:500 | with distinct keys, assigning a key's record displaces the earlier record of that key |
| Lookups.UpsertKeys | Raven.Database/Storage/Esent/StorageActions/MappedResults.cs:500 | the keys after the assignment are the earlier keys and the assigned one |
| Lookups.UpsertDistinct | Raven.Database/Storage/Esent/StorageActions/MappedResults.cs:500 | replacing the result of a key already present, or appending a new key, keeps the keys distinct |
| StorageActions.DocumentStorageActions.GetKeysForIndexForDebug | Raven.Database/Storage/Esent/StorageActions/MappedResults.cs:511-554 | the keys found by seeking to the view, skipping `start` distinct keys and walking the view's rows |
| Debug.KeysForIndexForDebugSpec | Raven.Database/Storage/Esent/StorageActions/MappedResults.cs:511-554 | no keys when take <= 0; at most `take` keys, without repetition, each the reduce key of a row of the view |
| Debug.KeysScanSpec | Raven.Database/Storage/Esent/StorageActions/MappedResults.cs:535-553 | the walk keeps the keys already in its HashSet, adds at most `take` more, never adds a key twice, and adds only reduce keys of the view's rows at or after the landing row |
| Debug.KeysScanComplete | Raven.Database/Storage/Esent/StorageActions/MappedResults.cs:535-553 | with `take` large enough and no later view, the keys already in the HashSet stay and every reduce key of the view's rows ends up in it |
| Debug.MoveKeyNE | Raven.Database/Storage/Esent/StorageActions/MappedResults.cs:521-530 | a move by zero keys stays in place, and any position reached is inside the index |
| StorageActions.DocumentStorageActions.GetMappedResultsForDebug | Raven.Database/Storage/Esent/StorageActions/MappedResults.cs:556-607 | the walk from the seek to (view, key): rows before it are skipped, a later view stops it, and rows whose key compares equal are returned, at most `take` |
| Debug.MappedResultsForDebugSpec | Raven.Database/Storage/Esent/StorageActions/MappedResults.cs:556-607 | no results when take <= 0; at most `take`; each result is the debug view of a mapped row whose view and key compare equal to the ones asked for |
| Debug.MappedResultsForDebugAll | Raven.Database/Storage/Esent/StorageActions/MappedResults.cs:556-607 | when no later view exists and `take` is large enough, the result is every row the per-row test accepts, in index order |
| Debug.ScanBound | Raven.Database/Storage/Esent/StorageActions/MappedResults.cs:569-606 | a cursor walk with take >= 1 returns at most `take` items, each from a row it accepted |
| Debug.ScanAll | Raven.Database/Storage/Esent/StorageActions/MappedResults.cs:569-606 | a walk that never stops early returns every accepted row in order |
| StorageActions.DocumentStorageActions.GetReducedResultsForDebug | Raven.Database/Storage/Esent/StorageActions/MappedResults.cs:609-664 | the same walk over the reduce rows, limited to one level |
| Debug.ReducedResultsForDebugSpec | Raven.Database/Storage/Esent/StorageActions/MappedResults.cs:609-664 | no results when take <= 0; at most `take`; each result comes from a reduce row of the level whose view and key compare equal |
| Debug.ReducedResultsForDebugAll | Raven.Database/Storage/Esent/StorageActions/MappedResults.cs:609-664 | when no row lies after the view and level and `take` is large enough, the result is every row of the view and level whose key matches, in index order |
| StorageActions.DocumentStorageActions.GetReduceTypesPerKeys | Raven.Database/Storage/Esent/StorageActions/MappedResults.cs:666-699 | the distinct scheduled keys of the view (ignoring case), each paired with the reduce type its mapped-item count implies |
| Strategy.ScheduledKeysSpec | Raven.Database/Storage/Esent/StorageActions/MappedResults.cs:668-691 | the collected keys are distinct ignoring case, and every scheduled key of the view is among them |
| Strategy.ScheduledKeysSound | Raven.Database/Storage/Esent/StorageActions/MappedResults.cs:668-691 | every collected key is the reduce key of a scheduled row of the view |
| Strategy.ReduceTypesUseCounts | Raven.Database/Storage/Esent/StorageActions/MappedResults.cs:693-698 | one entry per key, in order: single step when the count is below the limit, multi step otherwise; no counter changes |
| Strategy.ReduceTypesKeepOk | Raven.Database/Storage/Esent/StorageActions/MappedResults.cs:693-698 | reading the counts keeps the counter table at one row per index key |
| StorageActions.DocumentStorageActions.UpdatePerformedReduceType | Raven.Database/Storage/Esent/StorageActions/MappedResults.cs:701-712 | the key's status row gets the new reduce type, and is inserted first if missing |
| Counters.SetThenGetReduceType | Raven.Database/Storage/Esent/StorageActions/MappedResults.cs:701-712 | after the type is set, reading it back gives that type |
| StorageActions.DocumentStorageActions.SeekReduceKey | Raven.Database/Storage/Esent/StorageActions/MappedResults.cs:714-754 | the seek and walk of ExecuteOnReduceKey: an empty range, the first row of the range whose key matches ordinally, or none |
| Counters.Locate | Raven.Database/Storage/Esent/StorageActions/MappedResults.cs:714-754 | Absent exactly when no row is in the key's index range; a position exactly when some row's key matches, and it is the first such row |
| Counters.LocateAppended | Raven.Database/Storage/Esent/StorageActions/MappedResults.cs:726-737 | after the insert on an empty range, the key is found at the new row |
| Counters.OnlyRowInRange | Raven.Database/Storage/Esent/StorageActions/MappedResults.cs:714-754 | in a well-formed key table, at most one row is in any key's index range |
| Counters.LocateAfterRemove | Raven.Database/Storage/Esent/StorageActions/MappedResults.cs:867-877 | after the key's row is deleted, its range is empty |
| Counters.CounterOpsKeepOk | Raven.Database/Storage/Esent/StorageActions/MappedResults.cs:853-890 | increment, read and decrement keep both key tables at one row per index key |
| Counters.StatusOpsKeepOk | Raven.Database/Storage/Esent/StorageActions/MappedResults.cs:701-764 | reading and setting the reduce type keep the status table at one row per index key |
| StorageActions.DocumentStorageActions.GetLastPerformedReduceType | Raven.Database/Storage/Esent/StorageActions/MappedResults.cs:756-764 | the stored type of the key; a missing row is inserted and read as `Unset` (the enum's `ReduceType.None`, value 0) |
| StorageActions.DocumentStorageActions.GetMappedBuckets | Raven.Database/Storage/Esent/StorageActions/MappedResults.cs:766-792 | the buckets of the view's mapped rows for the key, in index order |
| Lookups.MappedBucketsSound | Raven.Database/Storage/Esent/StorageActions/MappedResults.cs:766-792 | every bucket returned is the bucket of a mapped row of the view and key |
| StorageActions.DocumentStorageActions.GetMappedResults | Raven.Database/Storage/Esent/StorageActions/MappedResults.cs:794-833 | for each requested key in turn, the mapped rows of the view with that key |
| Lookups.MappedResultsSound | Raven.Database/Storage/Esent/StorageActions/MappedResults.cs:794-833 | every result is the record of a mapped row of the view (ignoring case), in its key's index range, whose key is one of the requested keys compared ordinally |
| Lookups.MappedResultsComplete | Raven.Database/Storage/Esent/StorageActions/MappedResults.cs:794-833 | every mapped row of the view whose key was requested (with its stored hash) is returned |
| StorageActions.DocumentStorageActions.IncrementReduceKeyCounter | Raven.Database/Storage/Esent/StorageActions/MappedResults.cs:853-857 | only the counter table changes, as the increment function says |
| Counters.IncrementAddsOne | Raven.Database/Storage/Esent/StorageActions/MappedResults.cs:853-857 | the key's counter goes up by one; a missing row counts as 0 |
| StorageActions.DocumentStorageActions.DecrementReduceKeyCounter | Raven.Database/Storage/Esent/StorageActions/MappedResults.cs:859-879 | only the counter and status tables change, as the decrement function says |
| Counters.DecrementSubtractsOne | Raven.Database/Storage/Esent/StorageActions/MappedResults.cs:859-879 | the key's counter goes down by one, and a counter reaching zero deletes the key's counter and status rows |
| Counters.IncrementThenDecrement | Raven.Database/Storage/Esent/StorageActions/MappedResults.cs:853-879 | an increment followed by a decrement gives back the key's count |
| StorageActions.DocumentStorageActions.GetNumberOfMappedItemsPerReduceKey | Raven.Database/Storage/Esent/StorageActions/MappedResults.cs:881-890 | the key's count, with a missing row inserted at 0 and read as 0 |
| Counters.ReadCountChangesNoCount | Raven.Database/Storage/Esent/StorageActions/MappedResults.cs:881-890 | reading returns the key's count and changes no key's count |
| Batcher.IndexPropertyBatcher.constructor | Raven.Database/Bundles/IndexedProperties/IndexedPropertiesTrigger.cs:50-56 | a new batcher has nothing queued |
| Batcher.IndexPropertyBatcher.OnIndexEntryDeleted | Raven.Database/Bundles/IndexedProperties/IndexedPropertiesTrigger.cs:58-97 | when the entry key yields a document id, a Deleted state is queued for it with TryAdd; otherwise nothing changes |
| IndexedValues.TrimStart | Raven.Database/Bundles/IndexedProperties/IndexedPropertiesTrigger.cs:63 | the result is a suffix of the key that does not start with white space, and everything cut off is white space |
| IndexedValues.SkipIgnorable | Raven.Database/Bundles/IndexedProperties/IndexedPropertiesTrigger.cs:63 | the result is a suffix of the text whose first character the culture does not pass over, and every character skipped is one it passes over |
| IndexedValues.DeletedIdCases | Raven.Database/Bundles/IndexedProperties/IndexedPropertiesTrigger.cs:58-97 | a null key gives nothing; a key with no `{` is itself the id |
| IndexedValues.DeletedIdJson | Raven.Database/Bundles/IndexedProperties/IndexedPropertiesTrigger.cs:58-97 | a key starting with `{` (with `{` neither white space nor ignorable) gives the document-key property's text; an unparsable key, or one without that property, gives nothing |
| IndexedValues.DeletedIdIgnorable | Raven.Database/Bundles/IndexedProperties/IndexedPropertiesTrigger.cs:63-83 | a `{` behind an ignorable, non-white-space character (a soft hyphen, say) still takes the JSON path, so an unparsable key queues nothing and a parsed one gives its document-key property's text |
| IndexedValues.TryAddKeeps | Raven.Database/Bundles/IndexedProperties/IndexedPropertiesTrigger.cs:67-70 | TryAdd never replaces a queued state; it adds the id with the new state only when the id is absent |
| Batcher.IndexPropertyBatcher.OnIndexEntryCreated | Raven.Database/Bundles/IndexedProperties/IndexedPropertiesTrigger.cs:99-131 | without a document-key field nothing changes; otherwise the document's queued state is replaced by Values of the converted mapped fields, or is left removed when a conversion throws |
| IndexedValues.FirstField | Raven.Database/Bundles/IndexedProperties/IndexedPropertiesTrigger.cs:101 | the first field of the Lucene document with that name, or none exactly when no field has it |
| IndexedValues.FieldFor | Raven.Database/Bundles/IndexedProperties/IndexedPropertiesTrigger.cs:117-119 | the `_Range` field is preferred over the plain field; none exactly when neither exists |
| IndexedValues.PropsOfFails | Raven.Database/Bundles/IndexedProperties/IndexedPropertiesTrigger.cs:115-126 | the conversion of the mappings fails exactly when some present mapping's value cannot be converted |
| IndexedValues.PropsOfKeys | Raven.Database/Bundles/IndexedProperties/IndexedPropertiesTrigger.cs:115-126 | the property names set are exactly the targets of mappings whose field is present |
| IndexedValues.PropsOfWins | Raven.Database/Bundles/IndexedProperties/IndexedPropertiesTrigger.cs:115-126 | when several mappings share a target, the last present one sets the value |
| IndexedValues.ValueKinds | Raven.Database/Bundles/IndexedProperties/IndexedPropertiesTrigger.cs:133-170 | with `_IsArray`, the value is an array holding one copy of the selected field's single value per field named `field.name` (each element is converted from the selected field, not from the field it stands for); otherwise, `_ConvertToJson` gives the parsed object, a numeric field gives its number, and any other field gives its text |
| IndexedValues.ArrayValuesRepeatSelected | Raven.Database/Bundles/IndexedProperties/IndexedPropertiesTrigger.cs:166-170 | two fields of one name holding different text `a` and `b`, flagged as an array, give the array `[a, a]`, not `[a, b]`; Bundles/Raven.Bundles.Tests/IndexedProperties/ArrayIndexedPropertyTests.cs:66-76 (`ThenTheOrderIdsAreAdded`) expects both order ids, so the test and the code disagree, and the model follows the code |
| Batcher.IndexPropertyBatcher.Dispose | Raven.Database/Bundles/IndexedProperties/IndexedPropertiesTrigger.cs:172-227 | the documents and the log of Puts become what applying every queued state in enumeration order gives |
| IndexedValues.DisposedStore | Raven.Database/Bundles/IndexedProperties/IndexedPropertiesTrigger.cs:172-227 | no document is created or removed; documents not queued are unchanged; each queued document gets its own update (its metadata kept), or is unchanged when there is none |
| IndexedValues.DisposedPuts | Raven.Database/Bundles/IndexedProperties/IndexedPropertiesTrigger.cs:172-227 | the earlier log is kept; a Put is logged for a queued id exactly when it has an update, and with that update's data |
| Batcher.IndexPropertyBatcher.ApplyState | Raven.Database/Bundles/IndexedProperties/IndexedPropertiesTrigger.cs:177-225 | a missing document, a document of an indexed entity, or an index over all documents leaves everything unchanged; otherwise the state's update is Put when it changes something |
| IndexedValues.EntryUpdateSpec | Raven.Database/Bundles/IndexedProperties/IndexedPropertiesTrigger.cs:177-225 | skipped documents get no update; Values sets every listed property, keeps the others, and counts as a change exactly when the list is non-empty; Deleted removes every mapped target and counts as a change exactly when one was present |
| Batcher.RemoveMappedProperties | Raven.Database/Bundles/IndexedProperties/IndexedPropertiesTrigger.cs:200-210 | the body without the mapped target properties, and whether one was removed |
| IndexedValues.RemoveMappedSpec | Raven.Database/Bundles/IndexedProperties/IndexedPropertiesTrigger.cs:200-210 | exactly the properties that are no mapping's target remain, with their values, and a change is reported exactly when some target was present |
| Batcher.SetProperties | Raven.Database/Bundles/IndexedProperties/IndexedPropertiesTrigger.cs:211-220 | the body with every listed property set over it, and a change reported exactly when the list is non-empty |
| Batcher.Database.Put | Raven.Database/Bundles/IndexedProperties/IndexedPropertiesTrigger.cs:221-222 | the document gets the new body with its metadata kept, and the Put is appended to the log |
| Batcher.ConvertFields | Raven.Database/Bundles/IndexedProperties/IndexedPropertiesTrigger.cs:115-126 | the loop over the field mappings yields the conversion PropsOf specifies (whose property names, last-wins values and failure case the PropsOf lemmas state) |
| Batcher.PropsOfFailsLater | Raven.Database/Bundles/IndexedProperties/IndexedPropertiesTrigger.cs:115-126 | once a conversion has thrown, the whole conversion of the entry fails |

## Left out

- Storage is not transactional here. There is no ESENT session, no transaction, and no rollback of the deletions that `DeleteScheduledReduction` performs before a missing bookmark makes it throw. The model keeps the deletions made before the failure and reports `RecordDeleted`.
- The physical order of an ESENT index is not computed. The debug scans (`GetKeysForIndexForDebug`, `GetMappedResultsForDebug`, `GetReducedResultsForDebug`) and `RemoveReduceResults` walk the rows in the index order. They get that order as a parameter: a permutation of the table.
- In the debug scans, the index seek (`SeekGE`) is modelled with the culture comparison on view and key, not with the byte order of the engine key.
- `Api.TryMove` with a move of 0 rows is modelled as staying in place.
- `IEnumerable` results are computed eagerly. The model returns the whole sequence where the source yields lazily. Interleaving a caller's work with the enumeration is not modelled.
- The clock (`SystemTime.UtcNow`) is a `now` parameter.
- Guid etags are natural numbers from one counter shared by all tables; `Guid.Empty` is 0.
- The JSON payloads of the map and reduce results are opaque values. Their compression and `LoadMappedResults` / `LoadReducedResults` are not modelled. `loadData` only decides whether a result carries its payload.
- `HashReduceKey` (SHA-1), `MapBucket`, case folding, key truncation in the index, and `String.Compare` are uninterpreted functions. No property of collisions is relied on. One case folding stands for both `StringComparison.OrdinalIgnoreCase` and `InvariantCultureIgnoreCase`, so the model does not distinguish the two comparers.
- `GetMappedResults`: the `take` argument is accepted and unused, as in the source.
- `StorageActions.DocumentStorageActions.GetLastPerformedReduceType`: when no status row exists, `ExecuteOnReduceKey` inserts one without setting `reduce_type`, and the read takes `.Value` of that column. The table schema is not part of this model. The model assumes the column defaults to 0 (`Unset`, the enum's `ReduceType.None`); a null column would throw in the source instead.
- `DeleteMappedResultsForDocumentId`: the `removed` set and the readers' `itemsToDelete` list are returned as new values. The source mutates them in place. `removed` is a duplicate-free sequence in insertion order.
- The optimized index readers built by the callers of `GetItemsToReduce`, and the loggers, are not part of this model.
- `IndexedPropertiesTrigger.CreateBatcher` is left out. It reads the setup document and the view generator, and it is outside this model; the batcher receives them as constructor arguments.
- `ConcurrentDictionary` is modelled as a plain map with calls one at a time. Concurrent index updates are not modelled.
- Dispose enumerates the dictionary in an unspecified order. That order is a parameter of `Dispose`.
- `Batcher.IndexPropertyBatcher.OnIndexEntryDeleted`: `Value<string>` on an array or object property throws in the source. The model treats it as "no id", so nothing is queued.
- `Batcher.IndexPropertyBatcher.OnIndexEntryCreated`: an exception thrown while converting a field (an unparsable `_ConvertToJson` value) is modelled as the result `ok == false`, with the document's queued state already removed. Cast failures of `GetField` are not modelled.
- Document ids are compared as exact strings. The database itself treats ids case-insensitively.
- The etag passed to `DocumentDatabase.Put` is not modelled, so optimistic-concurrency failures are not modelled.
- JSON numbers are integers or reals, with no floating-point rounding. Lucene's numeric encoding is not modelled.
- `ForEntityNames` is an ordinal set of names.
