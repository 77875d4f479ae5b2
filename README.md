# Secondary indexes of the elliptics C++ bindings, in Dafny

This project models the index maintenance of the elliptics client library
(`bindings/cpp/session_indexes.cpp`) and proves what it promises.

An object's index set is stored twice:

- **Forward record:** the object's own list of `(index id, payload)` entries.
- **Reverse record:** one per index id, listing the objects that carry that index.

`session::update_indexes` works in three steps:

1. It writes the wanted forward record with one compare-and-swap (CAS).
2. It diffs the wanted list against the forward record that CAS read.
3. It issues one CAS per changed index on that index's reverse record. If some of those CASes fail, it compensates the ones that succeeded.

`session::find_indexes` reads the reverse records of several indexes and intersects their entry lists.

The modules follow the parts of the source file:

| module | file | what it models |
|---|---|---|
| `Wrappers` | wrappers.dfy | `Option`, `Result` and the errors that travel to a handler |
| `Entries` | entries.dfy | `index_entry`, `memcmp`, `dnet_raw_id_less_than` on entries, `operator==` on entries |
| `Ordered` | ordered.dfy | `std::lower_bound`'s position, `vector::insert`/`erase` at it, and `std::sort` of the wanted list |
| `Codec` | codec.dfy | the msgpack converters of `dnet_raw_id`, `data_pointer`, `index_entry` and `dnet_indexes` over an abstract msgpack object tree |
| `SetOps` | setops.dfy | `std::set_difference` and `std::set_intersection` under the entry order, and the in-place intersection into an array |
| `Edit` | edit.dfy | `update_functor::operator()(data_pointer)`, the CAS edit of a reverse record |
| `Update` | update.dfy | `update_indexes_data` as a class, with `main_functor`, `try_functor` and `revert_functor` as its methods, plus `session::update_indexes` as its constructor |
| `Find` | find.dfy | `find_indexes_handler` and `session::find_indexes` |

Design decisions:

- **Callbacks.** Every callback of an update batch runs under `scope->mutex`. Each one is therefore one method call on `Update.UpdateScope`.
- **Issued CASes.** A callback returns a `Step`: wait, call the handler (with or without an error), or issue a list of CASes in order. The CAS results come back as later method calls.
- **Ghost bookkeeping.** Ghost fields record the batch phase and the completions counted in each direction. The field `handlerCalls` counts handler calls. The class invariant `Valid()` proves it is 1 exactly when the batch is over and 0 before.
- **Stored bytes.** Stored bytes are a `Blob`: no bytes, the packing of a msgpack object, or bytes msgpack cannot unpack.
- **Storage and transport.** The bytes a CAS reads and the result it completes with are method inputs.

Where the code and its design notes disagree, the model follows the code:

- **Failures overwrite the exception.** A failure replaces the held exception in both phases (lines 253 and 285), so the last failure wins. This includes failures of compensations.
- **Reply count.** `find_indexes` fails whenever the number of replies differs from the number requested (line 472), not only when there are fewer.
- **Duplicates.** The wanted list is sorted (line 427) but not deduplicated.
- **Reverse entries.** A reverse entry always has an empty payload, because `request_data` (line 197) is never assigned (see Findings).

## Model

| member | source | states |
|---|---|---|
| Entries.MemCmpMeaning | bindings/cpp/session_indexes.cpp:49-53 | memcmp over n bytes is 0 exactly when the first n bytes are equal, and negative (positive) exactly when the first operand is lexicographically smaller (larger) as unsigned bytes |
| Entries.MemCmpAntisymmetric | bindings/cpp/session_indexes.cpp:49-53 | swapping memcmp's operands negates its result |
| Entries.MemCmpTransitive | bindings/cpp/session_indexes.cpp:49-53 | memcmp's "less" is transitive |
| Entries.LessMeaning | bindings/cpp/session_indexes.cpp:47-57 | a < b exactly when a's id is lexicographically greater than b's (ids sort descending), or the ids are equal and a's payload is shorter, or ids and lengths are equal and a's payload bytes compare smaller |
| Entries.EqualMeaning | bindings/cpp/session_indexes.cpp:24-29 | `operator==` on entries holds exactly when id and payload are identical |
| Entries.LessIrreflexive | bindings/cpp/session_indexes.cpp:47-57 | no entry is less than itself |
| Entries.LessAsymmetric | bindings/cpp/session_indexes.cpp:47-57 | a < b excludes b < a |
| Entries.LessTransitive | bindings/cpp/session_indexes.cpp:47-57 | the order is transitive, so it is the strict weak order std::sort, lower_bound and the set algorithms require |
| Entries.LessTotal | bindings/cpp/session_indexes.cpp:24-57 | "neither a < b nor b < a" holds exactly when `operator==` holds, and two different entries are always ordered |
| Codec.EntriesRoundTrip | bindings/cpp/session_indexes.cpp:114-131 | converting the packed form of a list of entries gives back the same entries, payloads included (an empty payload comes back empty) |
| Codec.IdsRoundTrip | bindings/cpp/session_indexes.cpp:79-93 | converting the packed form of a list of raw ids gives back the same ids |
| Codec.RecordRoundTrip | bindings/cpp/session_indexes.cpp:133-166 | decoding `[1, entries, friends]` gives back the record, and indexes_unpack of its packing succeeds with it |
| Codec.EntryCanonical | bindings/cpp/session_indexes.cpp:114-131 | an object that converts to an entry is the packing of that entry |
| Codec.EntriesCanonical | bindings/cpp/session_indexes.cpp:114-131 | a list of objects that converts to entries is the packing of those entries |
| Codec.IdsCanonical | bindings/cpp/session_indexes.cpp:79-93 | a list of objects that converts to ids is the packing of those ids |
| Codec.RecordCanonical | bindings/cpp/session_indexes.cpp:133-166 | an object that decodes to a record is exactly the packing of that record |
| Codec.DecodeSucceedsIffPacked | bindings/cpp/session_indexes.cpp:133-166 | decoding succeeds exactly on the objects that are packings of some record |
| Codec.DecodeRejectsEnvelope | bindings/cpp/session_indexes.cpp:133-153 | a non-array, an empty array, a non-integer or non-1 version, and a version-1 array whose length is not 3 each fail with a type error |
| Codec.DecodeEntryMeaning | bindings/cpp/session_indexes.cpp:114-122 | an entry converts exactly when it is a 2-element array of a raw of 64 bytes and a raw; otherwise it is a type error |
| Codec.DecodeEntriesRejects | bindings/cpp/session_indexes.cpp:147 | one malformed entry anywhere in the list fails the whole conversion with a type error |
| Codec.DecodeIdsRejects | bindings/cpp/session_indexes.cpp:148 | one friend id that is not a raw of 64 bytes fails the whole conversion with a type error |
| Codec.DecodeRejectsEntry | bindings/cpp/session_indexes.cpp:143-149 | a well-formed version-1 envelope still fails when one of its entries is malformed |
| Ordered.FirstNotLess | bindings/cpp/session_indexes.cpp:227-228 | the lower bound is a position whose every predecessor is less than x and whose entry (if any) is not |
| Ordered.PartitionIsFirstNotLess | bindings/cpp/session_indexes.cpp:227-228 | any position with that partition property is the lower bound |
| Ordered.FirstNotLessFinds | bindings/cpp/session_indexes.cpp:227-229 | in a sorted list, x is present exactly when the entry at its lower bound is x, which is the test the edit makes |
| Ordered.InsertSortedAt | bindings/cpp/session_indexes.cpp:237 | inserting at the lower bound puts x there, keeps the entries before it and shifts the rest by one |
| Ordered.InsertSortedKeepsOrder | bindings/cpp/session_indexes.cpp:237 | inserting at the lower bound keeps the list sorted and adds exactly one copy of x |
| Ordered.InsertSortedKeepsStrictOrder | bindings/cpp/session_indexes.cpp:237 | inserting an absent entry keeps a duplicate-free list duplicate-free |
| Ordered.EraseAtKeepsOrder | bindings/cpp/session_indexes.cpp:233 | erasing from a duplicate-free sorted list keeps it so, removes one copy of the erased entry and leaves it absent |
| Ordered.SortEntries | bindings/cpp/session_indexes.cpp:427 | the sorted wanted list is sorted and a permutation of the given list |
| Ordered.SortedPermutationUnique | bindings/cpp/session_indexes.cpp:427 | two sorted permutations of the same entries are equal, so any correct std::sort yields the modelled list |
| SetOps.SetDifferenceCounts | bindings/cpp/session_indexes.cpp:364-369 | on sorted inputs set_difference outputs the multiset difference |
| SetOps.SetDifferenceSorted | bindings/cpp/session_indexes.cpp:364-369 | set_difference's output is sorted (strictly when its first input is) |
| SetOps.SetDifferenceMembership | bindings/cpp/session_indexes.cpp:364-369 | on duplicate-free sorted inputs, x is in a - b exactly when it is in a and not in b |
| SetOps.DiffRebuilds | bindings/cpp/session_indexes.cpp:364-369 | inserted and removed share no entry; read + inserted - removed is the wanted list and wanted + removed - inserted is the read list |
| SetOps.SetIntersectionCounts | bindings/cpp/session_indexes.cpp:488-490 | on sorted inputs set_intersection outputs the multiset intersection |
| SetOps.SetIntersectionSorted | bindings/cpp/session_indexes.cpp:488-490 | set_intersection's output is sorted (strictly when its first input is) |
| SetOps.SetIntersectionMembership | bindings/cpp/session_indexes.cpp:488-490 | on duplicate-free sorted inputs, x is in the intersection exactly when it is in both |
| SetOps.IntersectInPlace | bindings/cpp/session_indexes.cpp:488-491 | writing the intersection over the first input's own storage leaves exactly the intersection in the prefix whose length it returns |
| Edit.LowerBound | bindings/cpp/session_indexes.cpp:227-228 | the halving search returns a position within the list, and on a sorted list exactly the lower bound |
| Edit.ApplyEdit | bindings/cpp/session_indexes.cpp:217-246 | a failed unpack is the edit's error; any record that unpacks gives a result; on a sorted record the result is the specified edit `Edited` |
| Edit.EditEntriesMeaning | bindings/cpp/session_indexes.cpp:229-241 | on a duplicate-free sorted list the edit keeps it so, leaves x present exactly when inserting, and adds or drops one copy of x and nothing else |
| Edit.EditedReadsBack | bindings/cpp/session_indexes.cpp:243-245 | the bytes an edit returns decode to the edited entries with the friends carried through |
| Edit.EditedMeaning | bindings/cpp/session_indexes.cpp:217-246 | on a sorted record the edit succeeds, keeps it sorted, keeps the friends, changes exactly one copy of x, and returns the input bytes untouched when x is already present (insert) or absent (erase); no bytes are an empty record, so inserting into them writes the one-entry record and erasing returns them |
| Edit.EditedIdempotent | bindings/cpp/session_indexes.cpp:229-241 | applying the same edit twice gives what applying it once gives |
| Edit.EraseAfterInsert | bindings/cpp/session_indexes.cpp:233-237 | inserting an absent entry and erasing it at the same lower bound gives the list back |
| Edit.EraseKeepsLowerBound | bindings/cpp/session_indexes.cpp:227-233 | erasing x at its lower bound removes it and leaves its lower bound where it was |
| Edit.InsertAfterErase | bindings/cpp/session_indexes.cpp:233-237 | erasing a present entry and re-inserting it gives the list back |
| Edit.UndoInsert | bindings/cpp/session_indexes.cpp:307-315 | on stored bytes, the compensating erase after a successful insert restores the packed record |
| Edit.UndoErase | bindings/cpp/session_indexes.cpp:317-323 | on stored bytes, the compensating insert after a successful erase restores the packed record |
| Edit.CompensationRestores | bindings/cpp/session_indexes.cpp:307-323 | a compensation with the flipped flag undoes any edit that changed a record |
| Edit.DistinctEditsCommute | bindings/cpp/session_indexes.cpp:229-241 | an insert of x and an erase of a different y leave the same list in either order, x present and y absent |
| Update.IssueAll | bindings/cpp/session_indexes.cpp:384-396 | the write_cas loop issues one CAS per id, in list order, all with the same flag |
| Update.PayloadChangeDiff | bindings/cpp/session_indexes.cpp:364-369 | a payload-only change of one index gives one insert and one removal at the same index id |
| Update.PayloadChangeLosesObject | bindings/cpp/session_indexes.cpp:223-241 | as written, an insert of the request entry that finds it present changes nothing, and the erase that follows leaves it absent |
| Update.PayloadChangeKeepsObject | bindings/cpp/session_indexes.cpp:223-225 | with the forward payload in the reverse entry, both completion orders give the same record, holding the new entry and not the old |
| Update.UpdateScope.constructor | bindings/cpp/session_indexes.cpp:418-435 | the wanted list is sorted and a permutation of the given one, the buffer is its packed record with no friends, and no CAS has completed |
| Update.UpdateScope.ForwardEdit | bindings/cpp/session_indexes.cpp:403-412 | no bytes clear the read entries, unpackable bytes replace the read record, a failed unpack is the edit's error; otherwise the buffer is written |
| Update.UpdateScope.RequestEdit | bindings/cpp/session_indexes.cpp:217-246 | the try and revert CASes edit with the request id and the empty request_data |
| Update.UpdateScope.ForwardDone | bindings/cpp/session_indexes.cpp:356-401 | a failed forward CAS reports its error; otherwise inserted = wanted - read and removed = read - wanted, an empty diff reports success, and any other issues one insert per inserted id then one erase per removed id |
| Update.UpdateScope.TakeDiff | bindings/cpp/session_indexes.cpp:364-369 | the two set_difference calls append wanted - read and read - wanted to the empty lists |
| Update.UpdateScope.TryCheckFinish | bindings/cpp/session_indexes.cpp:289-292 | a completion that does not bring `finished` to the CAS count waits with nothing changed; the last one resets `finished` and decides |
| Update.UpdateScope.Conclude | bindings/cpp/session_indexes.cpp:294-327 | success exactly when no CAS failed; the held exception when none succeeded; otherwise a rollback, with the handler called once in the first two cases |
| Update.UpdateScope.RollBack | bindings/cpp/session_indexes.cpp:307-323 | an erase per successful insert, then an insert per successful erase, at each id's location |
| Update.UpdateScope.TryCount | bindings/cpp/session_indexes.cpp:332-348 | each completion counts once, in `finished` and in the ghost counter of its direction; a failure overwrites the exception, a success appends its id to the list its flag selects; the try bookkeeping stays consistent |
| Update.UpdateScope.TryDone | bindings/cpp/session_indexes.cpp:332-349 | the try completion: count it (in `finished` and in its direction's ghost counter), then only the last completion decides, success being reported exactly when it is the last and no CAS failed |
| Update.UpdateScope.RevertDone | bindings/cpp/session_indexes.cpp:257-278 | each compensation counts once (in `finished` and in its direction's ghost counter), a failure overwrites the exception, and the last one calls the handler once with the exception then held, which is always an error |
| Update.PartialFailure | bindings/cpp/session_indexes.cpp:281-349 | completions chain: when a batch's one insert fails and its one erase succeeds, the first completion waits and the second issues one compensating insert at the erased id |
| Update.PartialFailureReported | bindings/cpp/session_indexes.cpp:249-279 | when that compensation succeeds, the handler is called exactly once, with the failed insert's error |
| Find.FindHandler | bindings/cpp/session_indexes.cpp:465-502 | the handler's loop computes the specified `FindResult` |
| Find.FindIndexes | bindings/cpp/session_indexes.cpp:505-524 | an empty query answers an empty list with no read; otherwise one read per requested id, in order, and the handler's result |
| Find.IntersectRepliesMeaning | bindings/cpp/session_indexes.cpp:481-492 | over duplicate-free sorted replies the running intersection succeeds, stays sorted, and holds x exactly when x is in the first list and every later one |
| Find.FindMembership | bindings/cpp/session_indexes.cpp:481-501 | with all replies present and decodable, the result holds an entry exactly when every reply's list holds it |
| Find.IntersectRepliesError | bindings/cpp/session_indexes.cpp:481-501 | an error from the loop is the unpack error of one of the replies, and the loop fails only when some reply does not unpack |
| Find.FindErrors | bindings/cpp/session_indexes.cpp:465-501 | a bulk-read error is passed on, a reply count different from the request count is "not all results", any other error is some reply's unpack error, and all-decodable replies succeed |
| Find.FindTwoIndexes | bindings/cpp/session_indexes.cpp:481-495 | two indexes listing [x, y] and [y, z] find [y] |
| Find.FindStopsWhenEmpty | bindings/cpp/session_indexes.cpp:485 | once the running result is empty, a later malformed reply is never decoded and the result is empty |

## Definitions

The functions that are the model of the code carry little or no contract of their own.
What they promise is stated by the members in the table above:

| definition | source | specified by |
|---|---|---|
| Entries.MemCmp | bindings/cpp/session_indexes.cpp:49-53 | MemCmpMeaning, MemCmpAntisymmetric, MemCmpTransitive |
| Entries.Compare, Entries.Less | bindings/cpp/session_indexes.cpp:47-57 | LessMeaning, LessIrreflexive, LessAsymmetric, LessTransitive, LessTotal |
| Entries.Equal | bindings/cpp/session_indexes.cpp:24-29 | EqualMeaning, LessTotal |
| Codec.EncodeEntry, Codec.EncodeEntries, Codec.EncodeIds, Codec.EncodeRecord | bindings/cpp/session_indexes.cpp:87-131, 158-166 | the round-trip and canonical lemmas of Codec |
| Codec.DecodeId, Codec.DecodeData, Codec.DecodeEntry, Codec.DecodeEntries, Codec.DecodeIds, Codec.DecodeVersion, Codec.DecodeRecord | bindings/cpp/session_indexes.cpp:79-156 | the round-trip, canonical and rejection lemmas of Codec |
| Codec.Unpack | bindings/cpp/session_indexes.cpp:66-71 | RecordRoundTrip; the byte-level unpacking itself is left out |
| Ordered.InsertSorted | bindings/cpp/session_indexes.cpp:237 | InsertSortedAt, InsertSortedKeepsOrder, InsertSortedKeepsStrictOrder |
| Ordered.EraseAt | bindings/cpp/session_indexes.cpp:233 | EraseAtKeepsOrder |
| SetOps.SetDifference | bindings/cpp/session_indexes.cpp:364-369 | SetDifferenceCounts, SetDifferenceSorted, SetDifferenceMembership, DiffRebuilds |
| SetOps.SetIntersection | bindings/cpp/session_indexes.cpp:488-490 | SetIntersectionCounts, SetIntersectionSorted, SetIntersectionMembership |
| Edit.ReadRecord, Edit.Edited | bindings/cpp/session_indexes.cpp:217-246 | ApplyEdit, EditedReadsBack, EditedMeaning, EditedIdempotent, CompensationRestores |
| Edit.EditEntries | bindings/cpp/session_indexes.cpp:229-241 | EditEntriesMeaning, DistinctEditsCommute |
| Find.IntersectReplies, Find.FindResult | bindings/cpp/session_indexes.cpp:465-502 | FindHandler, IntersectRepliesMeaning, FindMembership, IntersectRepliesError, FindErrors |
| Update.Ids | bindings/cpp/session_indexes.cpp:385-386 | the index id of each diff entry, used by ForwardDone and TryDone |
| Update.Writes | bindings/cpp/session_indexes.cpp:384-396 | IssueAll, ForwardDone, RollBack |

## Left out

- Byte-level msgpack packing and unpacking (lines 66-71, 243-245, 432) belong to the msgpack-c library. Stored bytes are modelled as "no bytes", "the packing of an object tree" or "unparsable".
- The msgpack tree keeps one integer kind. Positive and negative fixnums are not told apart; only the 16-bit unsigned range of the version is checked.
- `indexes_generate_id` and `sess.transform` hashing (lines 171-186, 421, 429, 446-458) are a foreign hash. The forward CAS's location is not modelled, and the reverse CAS's location is the index id itself.
- `write_cas` and `bulk_read` transport, CAS retries and thread delivery of callbacks are collaborator I/O. The bytes read and each completion's result are method inputs.
- The mutex, `shared_ptr` lifetime and the synchronous `waiter` overloads (lines 437-444, 526-531) are concurrency and blocking. Callbacks are modelled as serialized atomic method calls.
- `check_indexes` is a plain read followed by the codec, with nothing further to model.
- Allocation-failure catch paths and swallowed handler exceptions (lines 342-348, 397-400, 494-497) are not modelled.
- Entries.Compare: the payload-length subtraction is taken as exact. The 64-bit wrap of `a.data.size() - b.data.size()` only matters for payloads of 2^63 bytes or more.
- Update.UpdateScope.ForwardEdit: when an unpack fails partway, the source may leave `remote_indexes` partly overwritten. The model leaves the read record unchanged, because the edit's exception aborts the CAS and the diff is never taken.
- Edit.ApplyEdit: the result is stated as `Edited` only for sorted stored records. That is the precondition of `std::lower_bound`; unsorted records only get "an unpackable record gives some result".
- Edit.LowerBound: tied to the specified lower bound only on sorted lists, for the same reason.
- Find.FindResult: the order of replies is the order in which `bulk_read` delivers them. The model takes that order as given and does not relate it to the request order.

## Findings

| source | as written | input that shows it | evidently intended | confidence | as-written member | corrected member |
|---|---|---|---|---|---|---|
| bindings/cpp/session_indexes.cpp:223-225 | Every reverse entry is `(request_id, request_data)`, and `request_data` is never assigned, so both CASes of a payload-only change edit the same entry `(O, [])` in index I's reverse record | Object O stored with `(I, "a")` is updated to `(I, "b")`. The reverse record of I holds `(O, [])`. The insert CAS completes first: the entry is present, so nothing changes. Then the erase CAS removes it. Both succeed and success is reported, yet I no longer lists O | The reverse entry carries the forward entry's payload, `(O, "b")` and `(O, "a")`. The two CASes then edit different entries, and either order leaves `(O, "b")` present and `(O, "a")` absent | not executed | Update.PayloadChangeLosesObject | Update.PayloadChangeKeepsObject |

`Update.UpdateScope` itself keeps the code as written, so its request entry has an empty payload. The corrected reverse entry is `Update.ReverseEntry`. `Update.PayloadChangeKeepsObject` proves the intended property about it.
