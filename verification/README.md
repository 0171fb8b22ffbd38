# A verified model of ejdb-go

ejdb-go is an embedded JSON database on an ordered key/value store. This project models its core in Dafny and
proves what the core promises: that every run keeps documents, indexes, counters and ids in step; that key
intervals read exactly the entries they should; that an indexed query answers like a full scan; that a streamed
or spilled window is the sorted one; that the binary codec, the filter printer and the JSON Pointer text undo
their counterparts; and that pointer edits and patches do what RFC 6901, RFC 6902 and RFC 7396 say.

The storage engine is a map from keys to values with atomic batches whose calls succeed, ordered by the encoded
bytes of its keys. Documents are trees whose numbers are int64 values or 64-bit float patterns; strings and keys
are byte strings, as in Go. What the engine holds under a document key is the document that decoding its bytes
returns. Every statement is checked by the Dafny verifier, with `dafny verify dfyconfig.toml`.

## Layout

| modules | what they hold |
|---|---|
| `Wrappers`, `Bytes`, `Numerals`, `Floats`, `Ordering`, `Sums` | options, byte order and big-endian numbers, hex and decimal text, float patterns, sorted sequences, finite sums |
| `Keys`, `IndexRange` | storage keys and their readers, `prefixEnd`, sortable index values, range bounds |
| `Document`, `Binn`, `BinnRun` | documents and what the codec makes of them; the codec as functions with its round trip; the encoder and the decoder object as they run |
| `Pointer`, `Patch` | JSON Pointer text and lookup; pointer edits, JSON Patch, Merge Patch |
| `Store` | the database as a state machine: what every operation does to engine, catalog and log |
| `StoreInvariants`, `StoreReplay`, `StoreStable`, `StoreSteps`, `StoreRuns`, `StoreIds` | the invariants, commit, documents the codec returns unchanged, every step, whole runs, document ids |
| `StoreReopen` | closing and opening again: when the engine holds the catalog |
| `StoreOutcomes`, `CatalogOutcomes` | what every document operation, and every change of collections and indexes, does to documents, NextIDs and indexes |
| `StoreEffects`, `StoreWitnesses`, `QueryWitnesses` | what committed puts do to a collection; runs from an empty database that reach the failures below |
| `Database` | the `DB` object with its fields and loops, each method proved equal to its function in `Store` |
| `FilterSyntax` | filter tokens, parser, printer, evaluation with short circuits and the truth value it gives |
| `JqValue`, `Sorter` | value comparison and the multi-key order; the window; collecting, spilling, hydrating |
| `Scan`, `Planner`, `Streaming`, `QueryRuns` | index scans, plan selection and its soundness, the streamed window, queries after whole runs |

## What the proofs found

Each of these is a place where the code falls short of what one would expect of it; the model follows the code,
and the named lemma says exactly when it happens.

- A pointer edit at a root array is lost or leaves a shifted tail, because the returned root is dropped
  (`Patch.SetKeptExactly`, `Patch.RemoveKeptExactly`; at [1, 2, 3]: `Patch.RootArrayRemoveIsLost`).
- A float that is an integer below a million is written as a float and read back as an integer, because its
  shortest text has neither point nor exponent (`Document.RereadExactly`, `Binn.StoredRoundTrip`). A put indexes the
  document it is given, later operations the one that was read back, so an index keeps agreeing with the stored
  documents if and only if both have the same values (`StoreEffects.PutKeepsAgreementExactly`; at {"a": 1.0}:
  `QueryWitnesses.FloatOneSplitsIndex`). The results about runs take documents the codec returns unchanged.
- The unique check refuses a value that its committed owner gave up earlier in the same transaction by being put
  again without it (`StoreSteps.UniqueCheckExact`; a run: `StoreWitnesses.StaleClaimRejects`). It never lets a clash
  through.
- A write outside a transaction whose document passes the unique check but cannot be encoded stays in the log, and
  from then on no transaction commits (`StoreRuns.PoisonsExactly`, `StoreRuns.PoisonedTxFails`; putting a bare number:
  `StoreWitnesses.BareNumberPoisons`).
- `PutNew` wraps around after the largest id and from then on takes the ids from the smallest upwards, replacing
  whatever is stored there (`StoreEffects.PutNewTakesEffect`; two documents in a row:
  `StoreWitnesses.PutNewOverwrites`).
- The float key of -0 sorts before that of +0 (`IndexRange.F64KeyOrder`).
- `pointerJoin` does not escape its key, so a key with `~0` or `~1` in it names another member
  (`Pointer.JoinAppendsKey`), and a query that uses an index there loses every document that has the member named by
  the key (`Planner.PlanAdmitsExactly`; `/[a~1b = 5]`: `Planner.DocumentLostAtEscapedKey`).
- A conjunction whose sides could both use an index, on paths of different length, uses neither if the plans weigh
  the same and the shorter path comes first (`Planner.ConjunctionDropsBoth`; `/[a = 1] and /b/[c = 2]`:
  `Planner.OrderOfConjunctsDecides`).
- An `in` plan yields a document once for every literal whose value it has (`Scan.InYieldsOnceExactly`;
  `/[a in [1, 1]]`: `QueryWitnesses.RepeatedLiteralRepeats`).
- A query that walks an index for its order only drops the matching documents without a value in it
  (`Planner.OrderPlanAnswersExactly`; {"a": 1} and {} ordered by /a: `QueryWitnesses.OrderDropsDocument`).
- A lone upper bound with an ascending order-by on the same path streams in descending order
  (`Streaming.StreamIsSorted`, `Streaming.StreamingExactly`; `/[a <= 10]` over two documents:
  `QueryWitnesses.LoneUpperBoundStreamsBackwards`).
- A window whose start plus limit exceeds int64 panics (`Sorter.WindowExact`; `QueryWitnesses.WindowOverflows`).
- Under a float index, two integers that are converted to the same float are matched as different and indexed as
  equal (`Planner.IntegersUnderFloatsExactly`; 2^53 and 2^53 + 1: `Planner.UnsafeLiteralDiffers`).
- A refused write can leave a new collection or a raised NextID in memory only, so that the next process does not
  see it (`StoreReopen.SingleSavesExactly`, `StoreReopen.TransactionSavesExactly`; text that is not JSON:
  `StoreReopen.RefusedPutIsForgotten`).
- A number and a string can each be below the other; for the numerals of two numbers this happens exactly when
  they are not in numeric order (`JqValue.MixedCompareExactly`, `JqValue.MixedNumeralsExactly`; 9 and "10":
  `JqValue.MixedColumnIsNoOrder`). So can null and false, and a boolean and a text that is neither "true" nor "false",
  compare differently in the two directions, and no other scalars but floats (`JqValue.ScalarsCompareExactly`).
- A nested container whose header fields are wider than needed consumes more than its declared size
  (`Binn.ConsumedIsDeclaredSize`; `Binn.WideCountOverrun`).

## Model

| member | source | states |
|---|---|---|
| `Keys.DecodeEncoded` | storage.go:424-471 | each key decoder returns exactly the keys of its own kind and rejects the encodings of all others |
| `Keys.KeyBytesInjective` | storage.go:342-393 | two different keys never have the same bytes |
| `Keys.I64BytesOrder` | storage.go:409-422 | the sign-flipped big-endian bytes of ids and dbids sort as the signed numbers |
| `Keys.DocKeysSortById` | storage.go:350-353 | documents of a collection are stored in the order of their ids |
| `Keys.ComputePrefixEnd` | storage.go:473-482 | the loop that increments the last byte below 0xff and cuts behind it computes the specified end |
| `Keys.PrefixIntervalExact` | storage.go:473-486 | [p, prefixEnd(p)) holds exactly the byte strings that start with p, carries and the all-0xff prefix included |
| `IndexRange.I64KeyRoundTrip` | db.go:2368-2379 | an int64 key has sixteen hex digits and decodes to its number |
| `IndexRange.I64KeyOrder` | db.go:2368-2379 | int64 keys sort as their numbers, for all pairs |
| `IndexRange.F64KeyRoundTrip` | db.go:2381-2403 | a float key has sixteen hex digits and decodes to its bit pattern |
| `IndexRange.F64KeyOrder` | db.go:2381-2403 | for patterns that are not NaN, float keys sort as the numbers they denote if and only if the pair is not (-0, +0) |
| `IndexRange.CompareIsByteOrder` | db.go:1713-1750 | for stored numeric values the decoded comparison is the engine's byte order |
| `IndexRange.RangeExact` | db.go:1386-1442 | the key interval of a range plan visits an entry if and only if its decoded value passes matchRange, for every inclusive and exclusive combination and for empty ranges |
| `IndexRange.RangeScanStaysInIndex` | db.go:1386-1442 | no bounds make a range scan leave its index |
| `IndexRange.IndexEntriesSort` | storage.go:379-382 | entries of a numeric index are stored by value, then by id |
| `IndexRange.UniqueEntriesSort` | storage.go:384-386 | entries of a unique numeric index are stored by value |
| `Floats.SmallIntegerExact` | jbl.go:410-412 | the patterns whose shortest text is an integer numeral are exactly those that denote an integer below a million, -0 included |
| `Floats.FromIntValue` | query.go:2544-2582 | `float64(i)` denotes the integer rounded to 53 bits, ties to even |
| `Floats.SafeIntegerCompares` | query.go:2544-2582 | an integer below 2^53 in magnitude and any int64 are ordered as their floats, and no other int64 has its float |
| `Floats.UnsafeIntegersShare` | query.go:2544-2582 | 2^53 and 2^53 + 1 have the same float |
| `Document.RereadExactly` | jbl.go:371-485 | a document is read back as it is if and only if no float at any depth is an integer below a million |
| `Document.RereadIsStable` | jbl.go:371-485 | what was read back once is read back unchanged |
| `Document.AsReadExactly` | jbl.go:410-412 | a float is read as an integer if and only if it is that integer, which lies below a million |
| `Document.OneReadsAsInteger` | jbl.go:410-412 | {"a": 1.0} is read back as {"a": 1} |
| `Binn.IntBack` | jbl.go:272-299 | every int64 survives the choice of the narrowest width |
| `Binn.NarrowestInt` | jbl.go:272-299 | the width is the least of 1, 2, 4 and 8 bytes that holds the value, and narrow types are unsigned if and only if it is not negative |
| `Binn.EveryFormReads` | jbl.go:371-409 | a number is read from every integer type that holds it, not only from the narrowest; above the int64 range it stays apart |
| `Binn.ComputeContainer` | jbl.go:335-348 | the size loop ends, at the size that counts its own field |
| `Binn.ContainerLength` | jbl.go:335-348 | the declared size is the real length |
| `Binn.HeaderBack` | jbl.go:503-517 | a written container header reads back its count and body, and the computed end is the real end |
| `Binn.EncodeSucceeds` | jbl.go:117-201 | encoding succeeds if and only if no key at any depth exceeds 255 bytes and no foreign leaf occurs |
| `Binn.ExampleObject` | jbl.go:117-201 | the 21 bytes of {"bc": [null, true, "x", -1], "a": 1} |
| `Binn.DecodeBack` | jbl.go:371-485 | below 2^31 bytes, decoding an encoded document anywhere in a buffer returns it, integral floats below a million as integers, and stops right behind it |
| `Binn.StoredRoundTrip` | jbl.go:81-115 | exactly the storable documents encode; below 2^31 bytes the encoding is accepted, and it decodes to the document if and only if no float in it is an integer below a million or without JSON text |
| `Binn.Decode` | jbl.go:371-485 | on arbitrary bytes the decoder halts, reads only inside the buffer, and its offset grows |
| `Binn.EveryTextReads` | jbl.go:413-415 | a text is read from every text type, of one byte or two, not only from the one that is written |
| `Binn.BlobReads` | jbl.go:416-418 | a blob of any type is kept apart under its type |
| `Binn.MapKeyReads` | jbl.go:436-481 | the key of a map is the numeral of a signed 32-bit number |
| `Binn.LaterMemberWins` | jbl.go:436-481 | of two members with one key the later one counts |
| `Binn.NestedWithin` | jbl.go:371-485 | every value nested in an accepted one, at any depth, lies within it |
| `Binn.ConsumedIsDeclaredSize` | jbl.go:503-517 | an accepted container consumes its declared size if and only if its header fields have minimal width, and never less |
| `Binn.AcceptedRootIsMinimal` | jbl.go:90-115 | a stored document is accepted only with a minimal root header |
| `Binn.NoTrailingBytes` | jbl.go:90-107 | the test for bytes behind the root never fails: the header check has ruled them out |
| `Binn.WideCountOverrun` | jbl.go:503-517 | an empty list that declares three bytes and consumes six |
| `BinnRun.CollectKeys` | jbl.go:178-185 | keys collected in any map order and sorted give the one sorted list; a key over 255 bytes fails |
| `BinnRun.ComputeEncode` | jbl.go:117-201 | the recursive encoder computes the specified bytes |
| `BinnRun.EncodeList` | jbl.go:168-176 | the loop over elements appends the specified payload |
| `BinnRun.EncodeObject` | jbl.go:177-197 | an object is encoded from its sorted keys |
| `BinnRun.FieldsPayload` | jbl.go:186-196 | the loop over members appends the specified payload |
| `BinnRun.Decoder.Value` | jbl.go:371-485 | the decoder object returns what the decoding function returns and leaves its offset behind the value |
| `BinnRun.Decoder.Items` | jbl.go:419-435 | the count loop of lists, with its early exit on error |
| `BinnRun.Decoder.Fields` | jbl.go:436-481 | the count loops of objects and maps; a repeated key keeps its last value |
| `BinnRun.Decoder.ContainerHeader` | jbl.go:503-517 | the header is read, checked and its end computed as specified |
| `BinnRun.Decoder.Sized` | jbl.go:564-578 | one byte, or four with the top bit dropped |
| `BinnRun.Decoder.Type` | jbl.go:487-501 | one byte, or two when bit 4 is set |
| `BinnRun.Decoder.Text` | jbl.go:519-536 | sized text that must end in a zero byte |
| `BinnRun.Decoder.Leaf` | jbl.go:371-418 | every leaf type is read with its own width and sign, a float64 as its shortest text reads |
| `BinnRun.CheckJbl` | jbl.go:109-115 | the header check that reads with a decoder of its own decides the specified predicate |
| `BinnRun.ReadStored` | jbl.go:90-107 | header check, decoding and the test for trailing bytes together compute the specified result |
| `Pointer.TokensRoundTrip` | pointer.go:10-26 | escaping, joining, splitting and the two-pass unescape return the tokens if and only if they are not the single empty token |
| `Pointer.UnescapeUndoesEscape` | pointer.go:18-26 | unescaping a token undoes escaping it |
| `Pointer.EscapeIsOnePass` | pointer.go:10-16 | the two replacements make every tilde `~0` and every slash `~1`, and nothing else |
| `Pointer.ComputeGet` | pointer.go:28-53 | the walking loop computes the lookup along the tokens |
| `Pointer.GetConcat` | pointer.go:28-53 | looking up a joined path is looking up the rest below the first part |
| `Pointer.EscapeFreeExactly` | pointer.go:18-20 | unescaping leaves a text alone if and only if it contains neither "~0" nor "~1" |
| `Pointer.JoinAppendsKey` | pointer.go:302-307 | for every base and key, pointerJoin names the key below the base if and only if the base is absolute, the key has no slash and no escape sequence, and no slash is lost between them |
| `Patch.FailedSetChangesNothing` | pointer.go:79-152 | a failed set leaves the caller's document as it was, at any depth |
| `Patch.FailedRemoveChangesNothing` | pointer.go:251-300 | a failed remove leaves the caller's document as it was, at any depth |
| `Patch.SetReadsBack` | pointer.go:79-152 | a location written by add or replace reads back the value, "-" meaning the index the element got |
| `Patch.SetLeavesRestAlone` | pointer.go:79-152 | locations that diverge from the edited one are unchanged |
| `Patch.RemoveLeavesRestAlone` | pointer.go:251-300 | the same for remove |
| `Patch.RemovedMemberIsGone` | pointer.go:251-300 | a removed object member no longer resolves |
| `Patch.RemoveUndoesAdd` | pointer.go:79-152 | remove after add restores the document if and only if the added location was new (sections 4.1 and 4.2 of RFC 6902) |
| `Patch.SetSucceedsExactly` | pointer.go:79-152 | replace succeeds if and only if something is at the path; add if and only if the parent is an object or an array with room there; the creating form also if an object on the way lacks its member |
| `Patch.RemoveSucceedsExactly` | pointer.go:251-300 | remove succeeds if and only if something is at the path |
| `Patch.SetKeptExactly` | pointer.go:67-77 | a successful set reaches the caller if and only if it does not lengthen a root array |
| `Patch.RemoveKeptExactly` | pointer.go:154-164 | a successful remove reaches the caller if and only if it does not shorten a root array |
| `Patch.RootArrayRemoveIsLost` | pointer.go:154-164 | removing the first of three root elements leaves [2, 3, 3] |
| `Patch.ComputePatch` | patch.go:25-126 | the loop over operations computes the specified patch |
| `Patch.FailureIsFinal` | patch.go:25-126 | a patch with a failing prefix fails as a whole |
| `Patch.PatchOnObject` | patch.go:25-126 | on an object root a whole patch has one outcome, whatever spare capacity slices had, and the root stays an object |
| `Patch.OpApplies` | patch.go:34-74 | on an object root, for each operation: exactly when it fails, that the value reads at its place afterwards and a removed member does not, and that everything off the path is as before |
| `Patch.MovedMemberIsGone` | patch.go:63-74 | after a move the member is gone from its old place, unless the new place is on that path |
| `Patch.MergedAt` | patch.go:211-228 | where a merge patch leads through its objects, a value that is neither object nor null reads back from the result, a null member is absent, an object is an object; a patch that is no object is the result (section 2 of RFC 7396) |
| `Patch.MergedBeside` | patch.go:211-228 | a path that leaves the patch's members reads in the result as in the target, if the target has it through objects, and otherwise leads nowhere |
| `Patch.ComputeMerge` | patch.go:211-228 | merging members in any iteration order computes the algorithm in section 2 of RFC 7396, for all targets and patches |
| `Patch.MergeIdempotent` | patch.go:211-228 | applying a merge patch twice is applying it once |
| `Store.ComputeValues` | db.go:2285-2310 | the loop with its set of values seen computes the distinct indexed values in order |
| `Store.ValuesExactly` | db.go:2285-2310 | a value is indexed if and only if an element of the array at the path normalizes to it, or what is there, if it is no array, does |
| `StoreInvariants.DropPrefixExact` | storage.go:473-482 | a range delete over a tag prefix removes the keys of that tag and dbid and nothing else |
| `StoreInvariants.LookupIsOverlay` | db.go:1062-1074 | the backward search of the log gives what applying the log in order gives |
| `StoreInvariants.CurrentIsLive` | tx.go:126-147 | a transaction reads exactly the live documents |
| `StoreInvariants.TotalValuesPut` | db.go:2113-2126 | a put changes the number of index entries by the new minus the old value count |
| `StoreReplay.AgreementDetermines` | db.go:2592-2614 | two engines that agree with the same documents hold the same index entries |
| `StoreReplay.KeepsUniqueIndex` | db.go:2568-2614 | replaying a mutation deletes and sets unique keys without removing one that another document owns |
| `StoreReplay.PutAgreesExactly` | db.go:2568-2614 | after the replay of a put an index agrees with the stored documents if and only if the document has the same values before and after the codec |
| `StoreReplay.ReplayStep` | db.go:2468-2518 | replaying one mutation of a document the codec returns unchanged keeps catalog, ownership of keys and index agreement |
| `StoreReplay.ReplayRefinesOverlay` | db.go:2468-2518 | after in-order replay of documents the codec returns unchanged every collection holds exactly the documents of the overlay, put, delete and put chains included, and all indexes agree |
| `StoreReplay.ReplaySucceedsExactly` | db.go:2468-2518 | the batch fails if and only if the log puts a document that cannot be encoded |
| `StoreReplay.ReplayWritesSequences` | db.go:2468-2518 | a commit stores NextID under the sequence key of every collection the log touches |
| `StoreStable.MergeKeepsStable` | patch.go:211-228 | a merge patch of values the codec keeps makes of such a document another |
| `StoreStable.PatchKeepsStable` | patch.go:25-126 | the same for a JSON patch |
| `StoreStable.RecordKeepsSteady` | db.go:1975-2012 | if what an operation is given is returned unchanged by the codec, so is everything in the engine and the log after it |
| `StoreSteps.LiveUnique` | db.go:2040-2100 | unique indexes are unique at every prefix of the pending log |
| `StoreSteps.UniqueCheckExact` | db.go:2040-2111 | the check reports a conflict if and only if a live document has the value or its committed owner gave it up in this transaction |
| `StoreSteps.UniqueCheckSound` | db.go:2040-2111 | a put that passes the check leaves every unique index unique |
| `StoreSteps.RecordKeepsValid` | db.go:1975-2012 | every document operation, failing or not, keeps all invariants |
| `StoreSteps.CommitExact` | db.go:2413-2421 | a commit succeeds if and only if every pending document is storable; if the codec returns those documents unchanged it leaves a clean database with the documents the transaction saw; a failed commit changes nothing |
| `StoreSteps.AbortIsTotal` | tx.go:33-56 | a transaction that reports an error leaves engine, catalog, counters, next ids, log and flags as they were |
| `StoreSteps.WriteTxExact` | tx.go:33-56 | a transaction fails exactly when its callback fails or a document is unstorable; otherwise, for documents the codec returns unchanged, its documents are the ones it saw |
| `StoreRuns.RemoveCollectionExact` | db.go:2520-2545 | dropping a collection removes all keys of it and its indexes and no other |
| `StoreRuns.RemoveIndexExact` | db.go:2547-2566 | dropping an index removes all of its keys and no other |
| `StoreRuns.RebuiltAgrees` | db.go:2168-2217 | an index built by rescanning agrees with the documents and moves no other key |
| `StoreRuns.RebuildChangesNothing` | db.go:2168-2217 | in a clean database rebuilding an index changes nothing |
| `StoreRuns.EveryRebuildChangesNothing` | db.go:2168-2217 | after every run on documents the codec returns unchanged, rebuilding an index that was maintained step by step changes nothing |
| `StoreRuns.AutoExact` | db.go:203-329 | a single write of a document the codec returns unchanged leaves a clean database if and only if it does not poison the log |
| `StoreRuns.PoisonsExactly` | db.go:203-329 | PutNew, Put, Patch and MergeOrPut leave a mutation that cannot be committed if and only if the document they are about to put is not storable and no other live document has its unique values; the other operations never do |
| `StoreRuns.PoisonedTxFails` | tx.go:33-56 | with an unstorable document in the log every transaction fails and changes nothing |
| `StoreRuns.ExecuteKeepsClean` | db.go:158-421 | every command takes a clean database to a clean database |
| `StoreRuns.EveryRunIsClean` | db.go:158-421 | after every run of index and collection changes, writes and transactions on documents the codec returns unchanged, dbids are distinct, no key is orphaned, every index holds exactly the values of the stored documents, and all counters equal what they count |
| `StoreEffects.PutTakesEffect` | db.go:222-236 | an accepted put adds or replaces exactly its document, raises NextID to its id and keeps the indexes |
| `StoreEffects.PutNewTakesEffect` | db.go:203-220 | PutNew puts its document under the id after NextID, and replaces a live document if and only if that id is in use, before and after the sequence has wrapped around |
| `StoreEffects.PutKeepsAgreementExactly` | db.go:2592-2614 | an accepted put leaves all indexes in agreement with the stored documents if and only if the document has the same values in every index before and after the codec |
| `StoreOutcomes.RecordAchieves` | tx.go:101-212 | every document operation, inside a transaction reading through the log or outside, does to the live documents what it promises (put, new id, delete, patch of the live document, merge into it), reports the right error, changes no document on failure, and leaves every other collection alone |
| `StoreOutcomes.RecordNumbers` | tx.go:101-212 | NextID after every document operation, refused ones included; indexes and other collections keep what they had; only deletes and patches of a missing collection do not create it |
| `StoreOutcomes.AutoAchieves` | db.go:203-329 | outside a transaction the same is committed, unless the write poisons the log |
| `StoreOutcomes.TransactionFails` | tx.go:33-56 | a transaction fails for its callback's sake, or because something in its log cannot be encoded, in that order |
| `StoreOutcomes.DeleteTakesEffect` | db.go:255-275 | in every clean state a delete removes its document and nothing else, keeps NextID and indexes, and commits; an absent id is an error that changes nothing |
| `CatalogOutcomes.EnsureIndexTakesEffect` | db.go:331-365 | in every clean state a valid new definition is among the indexes afterwards, in agreement with the documents, and nothing else changes; the same definition changes nothing; the other uniqueness, a shared value, a wildcard path are refused and change nothing |
| `CatalogOutcomes.ValidPathExactly` | db.go:423-440 | pointer text is an index path if and only if no token is a wildcard |
| `CatalogOutcomes.RemoveIndexTakesEffect` | db.go:375-397 | the definitions of the path and kind go, unique or not, and nothing else changes; without any, or without the collection, it is an error |
| `CatalogOutcomes.RenameTakesEffect` | db.go:183-201 | documents, NextID and indexes are found under the new name and nothing under the old; a missing source or an existing target is refused |
| `CatalogOutcomes.RemoveCollectionTakesEffect` | db.go:169-181 | the collection is gone and every other one is as before; a missing one is no error |
| `StoreWitnesses.FloatSplitsIndex` | db.go:2592-2614 | a run after which an index that takes integers only lacks an entry that a rebuild adds, and its count is too low |
| `StoreWitnesses.StaleClaimRejects` | db.go:2040-2111 | a run and a transaction in which a value nobody has any more is refused |
| `StoreWitnesses.BareNumberPoisons` | db.go:222-236 | after a put of a bare number every transaction fails and changes nothing |
| `StoreWitnesses.PutNewOverwrites` | db.go:203-220 | a run in which two calls of PutNew overwrite the two smallest ids |
| `StoreIds.PutNewOverwritesExactly` | db.go:203-220 | as long as NextID bounds the live ids, the next id names a live document if and only if the sequence is at the largest int64 and the smallest is in use |
| `StoreReopen.SingleSavesExactly` | db.go:203-329 | a single write that does not poison the log leaves the engine with the catalog in memory if and only if it is not a refused one that created its collection or raised NextID |
| `StoreReopen.TransactionSavesExactly` | tx.go:33-56 | a transaction without an error leaves the engine with the catalog in memory if and only if one of its operations took effect or none changed the catalog |
| `StoreReopen.ExecuteSavesExactly` | db.go:158-421 | every other command always does |
| `StoreReopen.EveryRunReopens` | db.go:82-99 | after every run that leaves nothing behind, closing and opening again gives the same database |
| `StoreReopen.RefusedPutIsForgotten` | db.go:222-236 | a put of text that is not JSON creates a collection that is gone after opening again |
| `StoreIds.RecordKeepsIds` | tx.go:101-212 | every document operation keeps NextID above all live ids |
| `StoreIds.EveryRunBoundsIds` | db.go:203-329 | after every run that uses up no sequence NextID bounds every live id |
| `Database.DB.PendingDocState` | db.go:1062-1074 | the backward loop computes the last mutation of the id |
| `Database.DB.Get` | tx.go:126-147 | reads the log first, then the engine; nothing is found in a missing collection |
| `Database.DB.PendingPuts` | db.go:2069-2084 | the forward loop collects the other documents whose last mutation is a put |
| `Database.DB.CheckUniqueConstraints` | db.go:2040-2100 | the loops over indexes, values and pending puts decide the specified conflict |
| `Database.DB.AdjustIndexRNums` | db.go:2113-2126 | the loop adjusts every index count, clamped at zero |
| `Database.DB.PutLocked` | db.go:1975-2012 | new fields and error are those of the specified put |
| `Database.DB.EnsureCollection` | db.go:1961-1973 | a missing collection is created with the next dbid |
| `Database.DB.PutNew` | tx.go:101-113 | new fields and error are those of the specified operation; a refused document gives its id back |
| `Database.DB.Put` | tx.go:115-124 | new fields and error are those of the specified operation |
| `Database.DB.Delete` | tx.go:149-171 | new fields and error are those of the specified operation, which `StoreOutcomes.DeleteTakesEffect` says removes the document |
| `Database.DB.Patch` | tx.go:173-190 | new fields and error are those of the specified operation |
| `Database.DB.MergeOrPut` | tx.go:192-212 | new fields and error are those of the specified operation |
| `Database.DB.DeleteIndexKeys` | db.go:2568-2590 | the loops remove exactly the entry keys of the old document |
| `Database.DB.SetIndexKeys` | db.go:2592-2614 | the loops set exactly the entry keys of the new document |
| `Database.DB.CommitLocked` | db.go:2413-2518 | the batch of a commit, and nothing on failure |
| `Database.DB.WriteTx` | tx.go:33-56 | runs the operations, commits, or restores the snapshot and truncates the log |
| `Database.DB.ExecuteAll` | db.go:158-421 | a whole run takes the object through the states of the state machine |
| `Database.ServeRun` | db.go:158-421 | a new database that has served a run on documents the codec returns unchanged is clean |
| `Database.DB.RemoveCollection` | db.go:169-181 | fields after dropping a collection |
| `Database.DB.RenameCollection` | db.go:183-201 | fields after renaming a collection |
| `Database.DB.RebuildIndex` | db.go:2168-2217 | the rescan writes the specified entries and detects shared values of a unique index |
| `Database.DB.EnsureIndex` | db.go:331-365 | fields after creating an index, or nothing on a duplicate value; `CatalogOutcomes.EnsureIndexTakesEffect` says what that achieves |
| `Database.DB.RemoveIndex` | db.go:375-397 | fields after removing the indexes of a path and kind |
| `FilterSyntax.ReprintAccepted` | query_format.go:31-53 | an accepted token list reprints to itself, from a tree of the grammar's shape, with the first non-empty anchor |
| `FilterSyntax.ReparseShaped` | query.go:1121-1225 | a tree of the grammar's shape reparses to itself |
| `FilterSyntax.ParsesExactly` | query.go:1121-1225 | the parser returns a tree if and only if it is shaped, accepted and prints as the tokens |
| `FilterSyntax.Precedence` | query.go:1141-1225 | `a or b and c` is `a or (b and c)`, `a and b or c` is `(a and b) or c`, `not a and b` is `(not a) and b`, and parentheses override |
| `FilterSyntax.AnchorIsFirst` | query.go:1141-1185 | the collection of a filter is that of its first atom, left to right, that names one |
| `FilterSyntax.CanonicalKeepsMeaning` | query_format.go:31-53 | the print of any tree parses, names the same collection, and evaluates alike on every document: result, error and atoms consulted |
| `FilterSyntax.EvalAssociates` | query.go:251-321 | short-circuit conjunction and disjunction associate, errors included |
| `FilterSyntax.EvalIsTruth` | query.go:251-337 | an evaluation without an error is the truth value of the formula under every valuation that agrees with the atoms consulted |
| `FilterSyntax.ErrorFreeEval` | query.go:251-337 | when no atom fails, no error arises and the filter matches as its formula is true |
| `FilterSyntax.EvalStopsAtError` | query.go:251-337 | an error is that of the first consulted atom that fails, and nothing is consulted after it |
| `FilterSyntax.SidesConsulted` | query.go:251-321 | the right side is consulted if and only if the left one has neither failed nor decided |
| `FilterSyntax.TokenStream.Or` | query.go:1141-1162 | the loop over disjuncts moves the position and builds the left-leaning tree |
| `FilterSyntax.TokenStream.And` | query.go:1164-1185 | the loop over conjuncts |
| `FilterSyntax.TokenStream.Unary` | query.go:1187-1198 | negation |
| `FilterSyntax.TokenStream.Primary` | query.go:1200-1225 | atoms and parentheses, and their errors |
| `FilterSyntax.RunParser` | query.go:1121-1139 | the parser object accepts only when no token is left |
| `JqValue.ColumnOrder` | jqvalue.go:120-217 | within a column of integers or strings, with missing values, comparison is a total preorder |
| `JqValue.ColumnCompares` | jqvalue.go:120-217 | that preorder is integers by value, strings by length and then by bytes, a missing value below both and level with the empty string |
| `JqValue.KindsDecide` | db.go:1949-1955 | arrays come after all scalars and objects after arrays, in both directions |
| `JqValue.ScalarsCompareExactly` | jqvalue.go:120-217 | two scalars other than floats compare with opposite signs in the two directions if and only if they are not null and false, not a boolean and a text other than "true" and "false", and not a number and a text that disagrees with it |
| `JqValue.MixedCompareExactly` | jqvalue.go:120-161 | for every int64 and every string, the two directions of comparing them agree if and only if the text lies on the side of the numeral on which its number lies |
| `JqValue.MixedNumeralsExactly` | jqvalue.go:120-161 | an int64 and the numeral of another compare consistently if and only if they are equal or, padded with zeros to the same length, their digits are in numeric order |
| `JqValue.MixedColumnIsNoOrder` | jqvalue.go:120-161 | 9 is below "10" and "10" is below 9, while 1 and "" compare consistently |
| `JqValue.ComparatorIsOrder` | db.go:849-868 | on such columns and distinct ids the multi-key comparator, any mix of directions, is a strict total order |
| `JqValue.FirstDifferenceDecides` | db.go:849-868 | for all rows: the first column whose values differ decides in its own direction; without one the ids do, in the direction of the first column |
| `JqValue.TypedRowsCompare` | db.go:849-868 | the same on typed columns, in terms of the order of the column |
| `Sorter.WindowExact` | db.go:886-898 | the window is the requested slice, except that it panics if and only if start plus limit exceeds int64 |
| `Sorter.SliceExact` | db.go:886-898 | the requested slice, element by element; a negative limit takes all that is left |
| `Sorter.SortSpill.Write` | db.go:488-499 | appends, and returns the region written |
| `Sorter.WrittenReadsBack` | db.go:501-505 | what was written reads back from its region, whatever was written before and after |
| `Sorter.SpillMatchedDocs` | db.go:1676-1691 | after spilling nothing is left in memory, every region holds its document and regions are disjoint |
| `Sorter.Collector.Add` | db.go:757-794 | adding keeps every document recoverable, whether or not the buffer overflows, and no more text than the buffer size stays in memory |
| `Sorter.Collector.Hydrate` | db.go:1693-1711 | hydrating a window restores text and tree of every document |
| `Sorter.RunSorter` | db.go:757-903 | for every buffer size and every order that depends on the sort keys alone, the result is the requested slice of the matches in that order |
| `Sorter.SortedPermutation` | db.go:849-868 | a permutation that sorts gives a sorted arrangement of the matches |
| `Sorter.ArrangementUnique` | db.go:849-868 | typed rows have one sorted arrangement, so the window is unique |
| `Scan.ValuePrefixExact` | storage.go:371-382 | the prefix of a value holds exactly the entries of that value |
| `Scan.VisitsExactly` | db.go:1289-1383 | every kind of plan reads exactly the entries of its index whose value it selects |
| `Scan.UnindexableReadsNothing` | db.go:1289-1442 | a literal that the index cannot hold selects nothing and reads nothing, on either side of a range |
| `Scan.ScanOrdered` | db.go:1184-1250 | the loop over the iterator, in either direction, yields each id once, in order of first appearance |
| `Scan.ScanListExact` | db.go:1106-1384 | the ids yielded are exactly those of the entries visited |
| `Scan.ReadValue` | db.go:1154-1183 | reading one value yields the ids of its entries in ascending order |
| `Scan.ScanIn` | db.go:1311-1328 | the loop over the literals yields their ids one literal after the other |
| `Scan.InIdsExact` | db.go:1311-1328 | an `in` plan yields exactly the stored documents that have the value of some literal |
| `Scan.InIdsAreScanned` | db.go:1311-1328 | whatever the engine holds, the ids of an `in` plan are those of the keys its scan visits |
| `Scan.InYieldsOnceExactly` | db.go:1311-1328 | it yields every document once if and only if no stored document has the values of two literal positions |
| `Planner.NegationsExactly` | query.go:2405-2491 | `!=`, `ni` and `nre` are the negations of their positive forms; `nprefix` is where both sides have a text, and otherwise neither holds |
| `Planner.OperatorsOnValues` | query.go:2405-2491 | all comparison operators on two integers and on two strings, and prefix on numbers, booleans and null |
| `Planner.InExactly` | query.go:2405-2491 | `in` is equality with some element of an array |
| `Planner.AnyValueExactly` | query.go:609-626 | the first value that matches or fails decides a comparison; without one it does not hold |
| `Planner.PlainComparison` | query.go:609-626 | at a key that names a member, the comparison is that of the member's value, and does not hold if it is absent |
| `Planner.SelfComparison` | query.go:609-626 | at `**` a comparison looks at a value that is no container itself |
| `Planner.UnsetPlaceholderFails` | query.go:609-613 | a placeholder that is not set fails the match of every document the pattern finds something in, and uses no index |
| `Planner.PlainTerm` | query.go:392-408 | a path without wildcards matches where it leads somewhere, and with an expression where that is true there |
| `Planner.ConnectivesMatch` | query.go:251-348 | where neither side fails, `and`, `or`, `not` and parentheses match as both, either, not and the content |
| `Planner.MatchIsTruth` | query.go:251-348 | when no term fails on a document, it matches if and only if the filter is true of its terms |
| `Planner.ComputeFromComparison` | query.go:437-480 | the loop over indexes, in any order, computes the specified best plan |
| `Planner.CandidateRegular` | query.go:437-480 | all plans of one query share the record count, and their weight is that of the kind of use: equality, `in`, two-sided range, lower bound, prefix, upper bound |
| `Planner.ComparisonUsesIndexExactly` | query.go:437-480 | an index is used for a comparison if and only if one at its path can answer it, and a unique one if and only if a unique one can |
| `Planner.UsableExactly` | query.go:491-545 | which literals an index can be asked for; an `in` list needs at most ten elements, or at most five hundred and two hundred records for each |
| `Planner.OtherConnectivesPlan` | query.go:308-352 | disjunctions and negations of filters use no index, and parentheses around a filter change nothing |
| `Planner.BracketsPlan` | query.go:421-435 | in brackets a conjunction is planned like one of two filters, and disjunctions, negations and parentheses use no index |
| `Planner.PlanAsksExactly` | query.go:437-480 | the plan made from a comparison asks exactly what the comparison does |
| `Planner.ConjunctionPrefersBetterUse` | query.go:213-276 | of two plans that do not merge the heavier one is used, whichever side it is on; a side without a plan leaves the choice to the other |
| `Planner.MergeAsksBoth` | query.go:266-297 | two plans merge if and only if they are a lower and an upper bound on one index, and the merged plan asks what both ask |
| `Planner.ConjunctionDropsBoth` | query.go:213-232 | a conjunction whose sides both have a plan uses no index if and only if the plans do not merge, weigh the same, and the left path has fewer tokens; with the sides exchanged it uses the left one |
| `Planner.OrderOfConjunctsDecides` | query.go:213-232 | `/[a = 1] and /b/[c = 2]` uses no index, the same with the sides exchanged does |
| `Planner.PlanAdmitsExactly` | query.go:437-480 | with an index at the joined path and an unbracketed key, the plan admits every matching typed document if and only if the key has no escape sequence and no slash is lost between pattern and key |
| `Planner.DocumentLostAtEscapedKey` | query.go:437-480 | {"a~1b": 5} matches `/[a~1b = 5]`, and the index chosen for the query has no entry for it |
| `Planner.CandidateAdmits` | query.go:411-480 | whatever plan is chosen, merged two-sided ranges included, every matching document satisfies it, for typed paths and keys at which no document is lost |
| `Planner.CandidateTyped` | query.go:268-297 | a chosen plan compares one of the indexes with literals of its type, two bounds being on different sides |
| `Planner.TypedCompare` | query.go:2405-2491 | a value of the index's type and a literal of it are matched as the scan compares their keys, integers at float-indexed paths included |
| `Planner.IntegersUnderFloatsExactly` | jqvalue.go:146-178 | under a float index two integers are matched as their keys compare if and only if they are equal or have different floats |
| `Planner.UnsafeLiteralDiffers` | jqvalue.go:146-178 | 2^53 + 1 against the literal 2^53 |
| `Planner.HoldsIsSelected` | db.go:1289-1383 | what a plan asks of a typed value is what its scan asks of the key |
| `Planner.IndexedAnswerIsComplete` | query.go:242-305 | in every clean state, for typed paths and keys without escape sequences, the indexed query returns the same documents as a scan of the collection |
| `Planner.OrderPlanAnswersExactly` | db.go:1076-1095 | an index walked for its order only gives the same documents as a scan if and only if every matching document has a value in it |
| `Streaming.StreamWindow` | db.go:795-830 | the early-stopping loop returns the slice of the matches in scan order; it fails if and only if some document is the first to fail before the window is full, with its error |
| `Streaming.EntriesInOrder` | db.go:1184-1250 | entries of an int64 index in byte order are documents in (value, id) order |
| `Streaming.StreamIsSorted` | db.go:795-830 | the matches streamed off an int64 index, for typed paths and keys without escape sequences, are the sorted matches in the direction the plan walks |
| `Streaming.StreamingEqualsSorting` | db.go:795-898 | for every skip, limit and direction the streamed window is the window of the sorted matches, for typed paths and keys without escape sequences, unless the plan is a lone upper bound read in ascending order |
| `Streaming.StreamingExactly` | db.go:1350-1353 | the stream is the list of sorted matches if and only if the plan walks the index in the direction asked for or there is at most one match |
| `Streaming.StreamedQuery` | db.go:795-830 | scan and window together: without an error the result is the window of the sorted matches, and an error is that of the first failing document before the window is full |
| `QueryRuns.EveryRunAnswersAlike` | db.go:672-727 | after every run of writes, transactions, collection and index changes, a query for whose filter an index is chosen returns the same set of documents as the same query with noidx, for typed paths and keys without escape sequences |
| `QueryRuns.EveryRunOrdersAlike` | db.go:1076-1095 | after every such run, a query that walks an index for its order only returns the same set of documents as the same query with noidx if and only if every matching document has a value in it |
| `QueryRuns.EveryRunStreamsSorted` | db.go:795-898 | after every such run the streamed window is the window of the sorted matches |
| `QueryWitnesses.FloatOneSplitsIndex` | db.go:2592-2614 | putting {"a": 1.0} under an int64 index on /a indexes nothing, and a rebuild finds the value 1 |
| `QueryWitnesses.RepeatedLiteralRepeats` | db.go:1311-1328 | `/[a in [1, 1]]` yields the document {"a": 1} twice |
| `QueryWitnesses.OrderDropsDocument` | db.go:1076-1095 | {"a": 1} and {} ordered by /a give {"a": 1} alone |
| `QueryWitnesses.WindowOverflows` | db.go:886-898 | one match, skip 1 and the largest limit: the slice panics |
| `QueryWitnesses.LoneUpperBoundStreamsBackwards` | db.go:1350-1353 | `/[a <= 10]` ordered by /a streams the documents {"a": 2}, {"a": 1} |

## Left out

- Pebble, files, locks, snapshots, backup and flush: the engine is a map whose calls succeed, a spill file a byte sequence.
- JSON text, float formatting and parsing, regular expressions: library code. Number leaves are values, not text, so a string index over numbers whose text is not the shortest one is not captured.
- StoreRuns.EveryRunIsClean: runs that hand the database a float that is an integer below a million are excluded, as are runs that poison the log; `StoreEffects.PutKeepsAgreementExactly` and `StoreRuns.PoisonsExactly` say exactly when a single write breaks the invariants. Runs in which dbids pass the largest int64 are excluded too.
- Binn.EncodeSucceeds: foreign leaves (blobs, float32, unsigned integers above int64) are opaque values of the decoder; the numbers the source would encode them as, and the encoder's typed wrappers, are not modelled.
- JSON numbers beyond the range of a float64, such as 1e400: they parse, cannot be encoded, and so poison the log; no document of the model holds one.
- StoreSteps.AbortIsTotal: the snapshot is a JSON clone of the catalog and is taken to be faithful, as is the catalog read by `load`; collection names and index paths that are not valid UTF-8 come back with replacement characters.
- StoreIds.PutNewOverwritesExactly: states in which NextID no longer bounds the live ids are covered by StoreEffects.PutNewTakesEffect.
- Collection and index changes inside `WriteTx`: they take the full-rewrite commit path, which does not replay the log; the `dirtyFull` flag is not in the state.
- `UpdateQuery`, `ReadTx` queries, queries over a non-empty log, projections, joins, placeholders in paths, metadata and log strings.
- Patch.ComputePatch: the `increment`, `copy`, `swap` and `test` operations are not modelled; `add`, `add_create`, `replace`, `remove` and `move` are.
- Patch.SetReadsBack: edits are functions from a document to the view its caller keeps and the value returned; updating Go maps and slices in place, and aliasing between documents, are captured only by those two results.
- Character-level tokenizing of filters: atoms are opaque, accepted or not, and print as themselves.
- Planner.IndexedAnswerIsComplete: wildcard patterns, step chains, `[...]` keys and regular expressions match by arbitrary functions; the indexed paths and literals are of the index's own type, float indexes hold any numbers but NaN and -0 and are asked for floats or integers below 2^53 in magnitude, strings are below 4 GiB. Keys at which documents are lost are excluded as `Planner.PlanAdmitsExactly` says.
- Streaming.StreamingEqualsSorting: float and string order indexes, and `=` or `in` plans on the order-by path, are not covered.
- Scan.ScanOrdered: the iterator's keys are given as a sequence in byte order; stopping early is modelled by the loop that consumes the ids.
- JqValue.ColumnOrder: comparison of two arrays, of two objects, and of floats with strings and booleans is an arbitrary function; the statement is about integer and string columns. A float64 given for a placeholder is an integer there if it is whole (jqvalue.go:70-74), so such a value is an integer of the model.
