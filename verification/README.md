# Lore storage engines: a model in Dafny

The three PostgreSQL-backed stores of `lore-pg` are small protocols over relational tables, and one of them also over an
S3 bucket. This project models each of them twice where concurrency matters: as a class whose methods run one at a time and
are specified exactly, and as a transition system in which any number of operations interleave statement by statement and may
stop anywhere. Lemmas then connect the two.

## The immutable store

State: a set of associations (hash, repository, context), a metadata row per hash, and an S3 object per hash.

| module | contents |
|---|---|
| `Outcomes` | results and options |
| `Fragments` | flags, sizes, the casts to and from `BIGINT` columns, `read_payload` |
| `Snapshots` | the contents as a value; which hashes an obliterate reaches through live fragmented rows |
| `Purge` | the whole effect of an obliterate as a function of what it reaches, and when it succeeds |
| `StoreContract` | what every reader answers, and what sequences of completed operations keep |
| `StoreLaws` | what the operations come to, said of the tables and objects alone; isolation of repositories |
| `ImmutableStore` | the class `PgImmutableStore`, proved against the above |
| `ImmutableProtocol` | puts, copies, obliterates and gets as interleaved tasks |
| `ImmutableSafety` | what every interleaving keeps, hash by hash |
| `ImmutableSchedules` | an uninterrupted task does what the method of the class does |
| `Routes` | the ways down to a hash through references, and whether two of them meet |
| `ImmutableTrees` | the invariant of an obliterate and its sub-fragment tasks under any interleaving |
| `ImmutableOutcomes` | what such a tree of tasks comes to, and that it ends |
| `ImmutableCollisions` | exactly when it is sure to succeed |
| `ImmutableHistories` | runs of one operation after the other are the sequences `StoreContract` is about |
| `ImmutableRaces` | what goes wrong, exactly, without the premises of `ImmutableSafety` |
| `ImmutablePool` | the same tasks on a bounded connection pool |

The central theorem is the contract of `Obliterate`. For any reference graph, with sharing, duplicates and cycles, and
with the sub-fragments taken in any order, the call succeeds if and only if every hash reachable through live fragmented
rows is stored well enough to be processed, and then the new contents are `Purged(old, Reach(old, hash))`: each live reached
hash loses this repository and context, hashes nobody else references become tombstones without a payload, and nothing else
changes. The recursion ends because the set of unflagged rows shrinks at each nested call.

With the sub-fragment tasks side by side, as the code spawns them, the same holds of every interleaving except for one thing:
a success still means exactly that purge, a failure still touches nothing else, and the tree of tasks still ends, but two
tasks on one live hash can make each other fail. `SureToSucceedIff` gives the exact condition: at any point of any run an
obliterate that nothing disturbs is sure to succeed if and only if all that is reachable is stored well and no live hash can be
reached by two different routes that do not repeat a hash.

## The lock store

`LockStore` has the class and the functional contracts of the batches; `LockLaws` says what batches and queries come to in terms
of rows, requests and answers alone, and what asking after locking reports; `LockProtocol` runs any number of batches as
transactions that take row locks, with deadlock freedom and ownership over whole runs; `LockSchedules` shows that an
uninterrupted transaction meets the contract of the batch.

## The mutable store

`MutableStore` has the class, and shows that the table with stored zeros refines a map without zero values. `MutableLaws` says what
a load, swap or list finds after any sequence of operations, by repository, type and key as callers give them. `MutableProtocol`
interleaves compare-and-swaps, loads and plain stores, with the advisory lock id an arbitrary function of the cell, and says
when the order in which effects reach the table is that of an atomic register. `MutableRegister` says when any order is that
keeps each swap between its select and its commit.

## What is assumed of code outside the repository

- `PayloadObliterating`, `PayloadObliterated` and `PayloadFragmented` are distinct bits, and `PayloadObliteration` is the mask of
  the first two. `size_of::<Fragment>()` is 16.
- A default `StoreMatchResult` is `MatchNone`.
- Size validation depends on the two sizes only and accepts those of a tombstone; payload validation implies it. Otherwise
  both are arbitrary, as are the sanitiser and the function from a payload to the hashes it references.
- `hash_to_hex` is injective, so objects are keyed by hash. S3 get, put and delete are atomic.
- `LockResource` compares branch and hash before the description, each lexicographically.
- The discriminant of `KeyType::Untyped` is an arbitrary byte.
- Each SQL statement outside a transaction is atomic and sees what is committed (READ COMMITTED). A database or network error
  is a step after which the operation has failed, as is a crash; only an error while a put resolves its address is not, since
  the put goes on as if nothing matched.

## Where the code does less than its comments say

- A lock batch that skips a row as its owner's own can commit after that row was unlocked. `SkipCanGoStale` gives the run,
  and `CommitLocksUnlessReleased` shows that a committed batch holds a resource exactly unless this happened to it.
- A plain store takes no advisory lock. `StoreCanBeLost` gives a run that loses a stored value. `RegisterExactly` says, over every
  run, that the replies about a cell and its value are those of an atomic register, with each swap placed somewhere between its
  select and its commit, exactly as long as no swap overwrites a value that a plain store has put there in between;
  `StoreSpoilsExactly` says when they are so in the order in which effects reach the table, a swap's at its commit.
- A put that overlaps an obliterate of the same hash can lose its payload, because resolving an association hides flagged rows.
  `PutCanLoseItsPayload` gives the run; `PutLosesByOrder` says when, by the order of statements alone, and
  `PayloadIsLostExactly` which statements lose a payload and which mend it, over every run.
- A put that overlaps an obliterate of its address can report success with nothing stored, even as a hash collision: it finds the row
  live, and obliterated when it compares. `PutCanSettleForTombstone` gives the run; `PutSuccessMeans` says what success comes to, over
  every run.
- A copy that overlaps an obliterate of the same hash can report success and leave an association whose payload is deleted.
  `CopyCanDangle` gives the run; `DanglesByOrder` says when an association dangles, by the order of statements
  alone, over every run.
- Obliterating a payload that lists the same hash twice can fail with its row left marked when the two sub-fragment tasks
  race (`DuplicateReferencesCollide`), although one at a time it succeeds. The same goes for any two routes to one live hash
  (`CanFail`), and for nothing else that is stored well (`TreelikeRunsMeetContract`). After any such failure the address no longer
  resolves, and obliterating it again reports success and changes nothing (`FailureLeavesMarked`).

## Model

| member | source | states |
|---|---|---|
| Fragments.ColumnsRoundTrip | lore-pg/src/store/pg_immutable_store.rs:482-489 | every fragment survives the casts to signed columns and back, content sizes above the signed range included |
| Fragments.ColumnsInjective | lore-pg/src/store/pg_immutable_store.rs:427-447 | the column-wise comparison of the update matches exactly when the fragments are equal |
| Fragments.ReadPayload | lore-pg/src/store/pg_immutable_store.rs:704-735 | a payload is returned if and only if the object has the size of the row or, when writes are forced, exactly a header more; the header is then stripped |
| Snapshots.ReachLeast | lore-pg/src/store/pg_immutable_store.rs:1013-1040 | the reachable hashes are contained in every set that holds the roots and is closed under references |
| Snapshots.ReachThroughMark | lore-pg/src/store/pg_immutable_store.rs:997-1013 | marking a row before descending cuts cycles but loses nothing that was reachable |
| Purge.PurgeTwice | lore-pg/src/store/pg_immutable_store.rs:1067-1093 | two purges in a row are one purge of the union |
| Purge.PurgeSiblings | lore-pg/src/store/pg_immutable_store.rs:1026-1057 | sub-fragments obliterated one after the other come to what they reach together from the start, in any order |
| Purge.WellStoredThroughMark | lore-pg/src/store/pg_immutable_store.rs:998-1018 | a tree can be obliterated if and only if its root can and the trees of its references can once the root is marked |
| Purge.FailureIsOriginal | lore-pg/src/store/pg_immutable_store.rs:1042-1064 | a sub-fragment that fails after its siblings ran would have failed from the start |
| Purge.SuccessIsOriginal | lore-pg/src/store/pg_immutable_store.rs:1042-1064 | sub-fragments that all succeed one after the other could all be obliterated from the start |
| Purge.FinishPurges | lore-pg/src/store/pg_immutable_store.rs:1067-1093 | the last steps of a call complete the purge of its sub-fragments to the purge of the whole |
| Purge.ObliteratesTree | lore-pg/src/store/pg_immutable_store.rs:1014-1065 | the outcome of the sub-fragments decides the outcome of the call, and the new tombstones add up |
| Purge.TombstonesCountObjects | lore-pg/src/store/pg_immutable_store.rs:1081-1093 | when live rows have their objects, as many objects go away as rows become tombstones |
| StoreContract.Resolve | lore-pg/src/store/pg_immutable_store.rs:767-812 | a full match if and only if the association is there and its row is not flagged, an error if and only if its row is missing, and never a partial match |
| StoreContract.ObliterateAsReadersSeeIt | lore-pg/src/store/pg_immutable_store.rs:836-904 | after a successful obliterate the removed addresses read as missing in all three readers, and every other address, sibling contexts included, reads as before |
| StoreContract.ObliterateRemovesReachable | lore-pg/src/store/pg_immutable_store.rs:985-1094 | with no association on a flagged row, the associations removed are exactly those of the reachable hashes in this repository and context |
| StoreContract.ErodedReads | lore-pg/src/store/pg_immutable_store.rs:868-904 | after an obliterate with any outcome, a get returns what it did or finds nothing, and outside the reachable hashes it returns what it did |
| StoreContract.ReadersAgree | lore-pg/src/store/pg_immutable_store.rs:836-904 | query reports a match if and only if get_metadata does if and only if get returns a payload, and they return the stored row and object |
| StoreContract.PutThenGet | lore-pg/src/store/pg_immutable_store.rs:906-983 | a put that finds no match, after an obliterate too, makes get return exactly the fragment and bytes, if and only if the fragment came without an obliteration flag |
| StoreContract.StepKeepsConsistent | lore-pg/src/store/pg_immutable_store.rs:906-1128 | every completed put, copy, get or obliterate, whether it succeeds or fails and for whatever reason, keeps live rows served by fitting objects and associations on rows |
| StoreContract.StepKeepsOffTombstones | lore-pg/src/store/pg_immutable_store.rs:906-1128 | as long as no put brings an obliteration flag along, no association comes to sit on a tombstone |
| StoreContract.HistoriesStayConsistent | lore-pg/src/store/pg_immutable_store.rs:820-1128 | so does every sequence of them from the empty store |
| StoreContract.HistoriesServeWhatWasPut | lore-pg/src/store/pg_immutable_store.rs:836-983 | after any such sequence, an address that resolves can be read, as the fragment and bytes of one put under its hash |
| StoreLaws.ReachedExactly | lore-pg/src/store/pg_immutable_store.rs:1013-1040 | a hash is reached if and only if it is a root or the payload of a reached live fragmented row lists it |
| StoreLaws.EveryEntryIsReached | lore-pg/src/store/pg_immutable_store.rs:1026-1040 | every entry of a reached payload is reached, at whatever index |
| StoreLaws.ObliterateSucceedsIff | lore-pg/src/store/pg_immutable_store.rs:985-1065 | an obliterate succeeds if and only if every reached row is there with valid sizes, and each live fragmented one has its payload |
| StoreLaws.ObliterateAnswers | lore-pg/src/store/pg_immutable_store.rs:993-1064 | which answer a missing row, bad sizes, a flagged or plain row and a missing object give; any other failure is internal |
| StoreLaws.ObliterateMeans | lore-pg/src/store/pg_immutable_store.rs:1067-1093 | after a success no live reached hash is associated in the scope; if nobody else has it, its object is gone and its row is the bare obliterated flag, otherwise row and object stay |
| StoreLaws.ObliterateSpares | lore-pg/src/store/pg_immutable_store.rs:1067-1093 | and nothing else is taken: no association of another repository, context or hash, and no row or object of a hash that is flagged or not reached |
| StoreLaws.FailedObliterateLeaves | lore-pg/src/store/pg_immutable_store.rs:998-1064 | after a failure a row is as it was, or has the obliterating flag as well, or is a tombstone without object and association, and only for live reached hashes |
| StoreLaws.ListedAreUnlinked | lore-pg/src/store/pg_immutable_store.rs:1026-1057 | after a success no live hash that a reached payload lists is associated in the scope |
| StoreLaws.GetExactly | lore-pg/src/store/pg_immutable_store.rs:868-904 | get returns a fragment and bytes if and only if the association is there, the row has no flag and valid sizes, and the payload is there and passes validation |
| StoreLaws.GetFails | lore-pg/src/store/pg_immutable_store.rs:868-904 | its errors, and the order in which they are looked for |
| StoreLaws.GetStripsHeader | lore-pg/src/store/pg_immutable_store.rs:704-735 | an object with a header in front reads as the bytes behind it with forced writes, and as an error without |
| StoreLaws.GetMetadataExactly | lore-pg/src/store/pg_immutable_store.rs:850-866 | the fragment, nothing, or not found, each by its exact condition on association and row |
| StoreLaws.UnacceptablePut | lore-pg/src/store/pg_immutable_store.rs:914-920 | a put is invalid if and only if its fragment and payload, or without one its sizes, do not pass validation, and then changes nothing |
| StoreLaws.PutWrites | lore-pg/src/store/pg_immutable_store.rs:926-983 | with forced writes, or where no live row makes the address resolve, a put succeeds if and only if it brings a payload of its size, and leaves exactly that row, object and association |
| StoreLaws.PutFindsMatch | lore-pg/src/store/pg_immutable_store.rs:926-966 | otherwise it changes nothing, and fails if and only if the content sizes differ |
| StoreLaws.PutOverReadable | lore-pg/src/store/pg_immutable_store.rs:943-966 | in particular wherever get succeeds |
| StoreLaws.ForcedPutReplaces | lore-pg/src/store/pg_immutable_store.rs:926-983 | with forced writes, get returns what was put last |
| StoreLaws.CopyNeeds | lore-pg/src/store/pg_immutable_store.rs:1103-1121 | a copy needs the association it names, or for a zero context any of the hash in the same repository, and in no other |
| StoreLaws.StepIsolates | lore-pg/src/store/pg_immutable_store.rs:906-1128 | a completed operation brings a hash to a repository only by a put there or a copy from a repository that has it |
| StoreLaws.HistoriesIsolate | lore-pg/src/store/pg_immutable_store.rs:906-1128 | over every sequence of operations, a repository has a hash only since such a put or copy |
| ImmutableStore.PgImmutableStore.LoadMetadata | lore-pg/src/store/pg_immutable_store.rs:467-501 | the decoded row, or not found |
| ImmutableStore.PgImmutableStore.WriteMetadata | lore-pg/src/store/pg_immutable_store.rs:384-415 | the row decodes to the fragment whatever was there, and no other row changes |
| ImmutableStore.PgImmutableStore.UpdateMetadataCas | lore-pg/src/store/pg_immutable_store.rs:419-465 | the row is replaced if and only if it equals the expected fragment; a conflict is an error and changes nothing |
| ImmutableStore.PgImmutableStore.MetadataWithSizeValidation | lore-pg/src/store/pg_immutable_store.rs:503-507 | an absent row and one with invalid sizes are told apart |
| ImmutableStore.PgImmutableStore.MetadataWithLoadValidation | lore-pg/src/store/pg_immutable_store.rs:509-517 | a flagged row reads as not found, after the size check |
| ImmutableStore.PgImmutableStore.HasAssociations | lore-pg/src/store/pg_immutable_store.rs:581-584 | true if and only if some association names the hash |
| ImmutableStore.PgImmutableStore.ResolveAssociation | lore-pg/src/store/pg_immutable_store.rs:767-812 | the answer of `Resolve` on the contents |
| ImmutableStore.PgImmutableStore.Load | lore-pg/src/store/pg_immutable_store.rs:737-761 | metadata errors come before payload errors |
| ImmutableStore.PgImmutableStore.WritePayload | lore-pg/src/store/pg_immutable_store.rs:595-648 | object, row and association are all written, or on a size mismatch nothing is |
| ImmutableStore.PgImmutableStore.Query | lore-pg/src/store/pg_immutable_store.rs:836-848 | succeeds if and only if every address resolves, and then each result is that of its address |
| ImmutableStore.PgImmutableStore.GetMetadata | lore-pg/src/store/pg_immutable_store.rs:850-866 | the answer of `GotMetadata` on the contents |
| ImmutableStore.PgImmutableStore.Get | lore-pg/src/store/pg_immutable_store.rs:868-904 | the answer of `Got` on the contents; a missing association takes priority |
| ImmutableStore.PgImmutableStore.Put | lore-pg/src/store/pg_immutable_store.rs:906-983 | result and new contents for every fragment, payload and store, with the partial match arms never taken; with forced writes a payload of its size is always written, and without them a put where get succeeds changes nothing and fails if and only if the content sizes differ |
| ImmutableStore.PgImmutableStore.Copy | lore-pg/src/store/pg_immutable_store.rs:1096-1128 | succeeds if and only if the association it names is there, or for a zero context any of the hash in the same repository, and then adds exactly the destination |
| ImmutableStore.PgImmutableStore.AcquireObliteration | lore-pg/src/store/pg_immutable_store.rs:993-1011 | marks a live row, and leaves everything alone when the row is missing, invalid or flagged |
| ImmutableStore.PgImmutableStore.Obliterate | lore-pg/src/store/pg_immutable_store.rs:985-1094 | succeeds if and only if all that is reachable is stored well, then purges exactly that; otherwise only live reachable rows are touched; which error a missing row, bad sizes and a missing object give; payloads counted equal tombstones made, and so do fragments if nobody else shares a reachable hash; ends on every graph |
| ImmutableStore.PgImmutableStore.ObliterateAcquired | lore-pg/src/store/pg_immutable_store.rs:1013-1094 | the same contract from the moment the row is marked |
| ImmutableStore.PgImmutableStore.ObliterateReferences | lore-pg/src/store/pg_immutable_store.rs:1014-1065 | once the references are obliterated, finishing the call completes the purge of the whole; if they cannot be, the call fails with its own error |
| ImmutableStore.PgImmutableStore.ObliterateSubFragments | lore-pg/src/store/pg_immutable_store.rs:1026-1065 | the same contract for a list of hashes as roots, taken one at a time in whatever order, although a failure stops none of them; side by side they are the subject of `EveryEndedRun` |
| ImmutableStore.PgImmutableStore.Unlink | lore-pg/src/store/pg_immutable_store.rs:1067-1093 | drops the association, then gives the row back or deletes the payload and writes the tombstone |
| ImmutableProtocol.LockStaysHeld | lore-pg/src/store/pg_immutable_store.rs:997-1011 | every step, crashes included, keeps the row of a held hash marked and its holder alone, whatever happens to other hashes |
| ImmutableProtocol.RunsLoadLive | lore-pg/src/store/pg_immutable_store.rs:993-1011 | with no premise, what an obliterator works from was a live row |
| ImmutableProtocol.RunsHoldLocks | lore-pg/src/store/pg_immutable_store.rs:419-465 | in every run in which no put writes this hash under its holder, at most one obliterator holds it |
| ImmutableSafety.ReadsAreRight | lore-pg/src/store/pg_immutable_store.rs:868-904 | whatever overlaps and crashes, a get that returns something returns what all puts of its hash agree on |
| ImmutableSafety.IndexAndPayloadAgree | lore-pg/src/store/pg_immutable_store.rs:595-648 | in every reachable state the unflagged row of a hash has an object of exactly its payload size, if the puts of that hash agree and none writes under its obliterator |
| ImmutableSafety.ObliteratorsAreSafe | lore-pg/src/store/pg_immutable_store.rs:997-1093 | for any contents, if no put or copy of this hash overlaps its obliterator: one holder, its payload deleted only without associations, and none while the payload is gone |
| ImmutableSafety.MetadataKeysGrow | lore-pg/src/store/pg_immutable_store.rs:384-415 | the hashes with metadata never shrink, and only a committing put adds one |
| ImmutableSafety.AssociationsAppear | lore-pg/src/store/pg_immutable_store.rs:523-556 | an association appears only by a committing put of that address or a copy to it |
| ImmutableSafety.AssociationsComeFromPuts | lore-pg/src/store/pg_immutable_store.rs:1096-1128 | with no premise at all, every association has a metadata row and goes back to a committed put of its hash |
| ImmutableSafety.InsertingHasChecked | lore-pg/src/store/pg_immutable_store.rs:1103-1124 | in every run a copy about to insert has found its hash in the repository it copies from |
| ImmutableSafety.AssociationsAreTraced | lore-pg/src/store/pg_immutable_store.rs:906-1128 | over every interleaving, crashes included: a repository has a hash only if it goes back, through copies that each found it in their source repository, to a put |
| ImmutableSchedules.PutRunsAlone | lore-pg/src/store/pg_immutable_store.rs:906-983 | every run in which a put starts and only it moves has, when it ends, the result and contents of the put operation |
| ImmutableSchedules.CopyRunsAlone | lore-pg/src/store/pg_immutable_store.rs:1096-1128 | likewise a copy |
| ImmutableSchedules.GetRunsAlone | lore-pg/src/store/pg_immutable_store.rs:868-904 | likewise a get, with its three reads in any order |
| ImmutableSchedules.EndsAlone | lore-pg/src/store/pg_immutable_store.rs:868-983 | from any point of any run such a run to the end exists |
| ImmutableSchedules.ObliterateRunsAlone | lore-pg/src/store/pg_immutable_store.rs:985-1094 | from any point an obliterate task can go on, by steps of its own tree only and without a crash, to an end that meets the contract of the operation; no other task moves |
| Routes.ListedOnceIsTreelike | lore-pg/src/store/pg_immutable_store.rs:1020-1040 | if no live reachable hash is listed at two places, no live hash is reached in two ways |
| ImmutableTrees.TreeStays | lore-pg/src/store/pg_immutable_store.rs:1013-1094 | every step of a tree of sub-fragment tasks keeps what is known of its rows, objects, associations and phases |
| ImmutableOutcomes.EveryEndedRun | lore-pg/src/store/pg_immutable_store.rs:985-1094 | on every graph and in every interleaving, a tree that has ended with success has purged exactly what is reachable, all of it stored well, and one that has failed has touched nothing else; all its tasks have ended |
| ImmutableOutcomes.TreelikeRunsMeetContract | lore-pg/src/store/pg_immutable_store.rs:985-1094 | where no live hash is reached in two ways, every interleaving meets the contract of the operation, with success if and only if all is stored well |
| ImmutableOutcomes.FailureLeavesMarked | lore-pg/src/store/pg_immutable_store.rs:1059-1064 | whenever an undisturbed obliterate of a live row with valid sizes fails, its row is marked and its association stays, so that the address does not resolve and a further obliterate succeeds and changes nothing |
| ImmutableOutcomes.EveryTreeEnds | lore-pg/src/store/pg_immutable_store.rs:1026-1057 | on every graph and in every interleaving, the number of statements is bounded by a number fixed at the start |
| ImmutableOutcomes.GoesOnToEnd | lore-pg/src/store/pg_immutable_store.rs:1042-1064 | every tree can be brought to its end from any point |
| ImmutableCollisions.CanFail | lore-pg/src/store/pg_immutable_store.rs:1026-1064 | from any point of any run, if two routes meet at a live hash or something reachable is not stored well, an undisturbed run that fails |
| ImmutableCollisions.SureToSucceedIff | lore-pg/src/store/pg_immutable_store.rs:985-1094 | no undisturbed run fails if and only if all that is reachable is stored well and no live hash is reached in two ways |
| ImmutableHistories.OneByOneIsHistory | lore-pg/src/store/pg_immutable_store.rs:820-1128 | every run in which one operation follows the other, an obliterate with its tasks in any interleaving and with either outcome, is a sequence of completed operations |
| ImmutableHistories.OneByOneServesWhatWasPut | lore-pg/src/store/pg_immutable_store.rs:836-983 | after such a run the three readers agree on every address, and what is read is the fragment and bytes of one put before |
| ImmutableRaces.LossIsExactly | lore-pg/src/store/pg_immutable_store.rs:617-645 | after any step a live row is without its payload if and only if the step is one of three under its guard, or it was so before and the step is not one of three that mend it |
| ImmutableRaces.PayloadIsLostExactly | lore-pg/src/store/pg_immutable_store.rs:595-648 | over every run, with no premise: it is so exactly since a step that loses the payload, if none after that mends it |
| ImmutableRaces.AssociationsDangleExactly | lore-pg/src/store/pg_immutable_store.rs:1067-1128 | over every run, with no premise: an association is without its object exactly since one of three statements under its guard, if none of two after that ends it |
| ImmutableRaces.ObjectsByOrder | lore-pg/src/store/pg_immutable_store.rs:617-664 | over every run, the object of a hash is there if and only if the last statement to write or delete it was a write |
| ImmutableRaces.DanglesByOrder | lore-pg/src/store/pg_immutable_store.rs:1067-1128 | over every run, whether an association is without its object can be told from the order of the statements that write and delete the object and add and drop the association |
| ImmutableRaces.PutLosesByOrder | lore-pg/src/store/pg_immutable_store.rs:617-645 | a put of a live fragment ends with its payload lost if and only if an obliterate deleted the object after the put wrote it and nothing wrote it again before the index was committed |
| ImmutableRaces.PutCanLoseItsPayload | lore-pg/src/store/pg_immutable_store.rs:924-974 | a run without any crash in which a put succeeds and its payload is deleted by an obliterate |
| ImmutableRaces.PutSuccessMeans | lore-pg/src/store/pg_immutable_store.rs:926-983 | over every run: a put succeeded because it wrote its row and association, or because it found an unmarked row of its content size or an obliterated one, and then wrote nothing |
| ImmutableRaces.PutCanSettleForTombstone | lore-pg/src/store/pg_immutable_store.rs:936-957 | a crashless run in which a put of any content size succeeds although its address ends with no association and no payload |
| ImmutableRaces.CopyCanDangle | lore-pg/src/store/pg_immutable_store.rs:1111-1127 | a run without any crash in which a copy succeeds and the payload of its hash is then deleted |
| ImmutableRaces.ListsTwiceIsReachable | lore-pg/src/store/pg_immutable_store.rs:973-976 | two puts reach a store in which a payload lists one hash twice |
| ImmutableRaces.DuplicateReferencesCollide | lore-pg/src/store/pg_immutable_store.rs:1026-1064 | from such a store, at any point of a run, an undisturbed obliterate that fails and leaves its own row marked and associated, although one at a time it succeeds |
| ImmutablePool.ConnectionsAreForTables | lore-pg/src/store/pg_immutable_store.rs:252-257 | a statement on a connection neither looks at objects nor changes them, and one without neither looks at the tables nor changes them |
| ImmutablePool.RunsStayHealthy | lore-pg/src/store/pg_immutable_store.rs:252-257 | if every statement returns its connection, a connection is held only by a branch about to use it, so none is held while asking for another |
| ImmutablePool.PoolNeverStuck | lore-pg/src/store/pg_immutable_store.rs:789-791 | then, with one connection or more, while a task is unfinished some step other than a new request or a failure is possible |
| ImmutablePool.KeepingGetsStuck | lore-pg/src/store/pg_immutable_store.rs:783-800 | if resolving kept its connection while asking for one for the row, a run that exhausts a pool of any size so that nothing can go on |
| LockStore.SortDedupCanonical | lore-pg/src/store/pg_lock_store.rs:149-153 | the canonical list depends only on the set of resources |
| LockStore.LocksDeterministic | lore-pg/src/store/pg_lock_store.rs:143-264 | so do the result and the new table of a lock batch |
| LockStore.LockAgain | lore-pg/src/store/pg_lock_store.rs:138-142 | locking again as the same owner succeeds, reports nothing and changes nothing |
| LockStore.PgLockStore.LockResources | lore-pg/src/store/pg_lock_store.rs:143-264 | an error if and only if a requested key has another owner, and then no change; otherwise one row for each absent key, with its smallest description, reported in key order |
| LockStore.PgLockStore.UnlockResources | lore-pg/src/store/pg_lock_store.rs:425-557 | deletes all requested keys, or with validation fails with the error of the first resource whose delete hits no row and changes nothing |
| LockStore.UnlockSucceedsIff | lore-pg/src/store/pg_lock_store.rs:455-522 | a validated unlock succeeds if and only if the caller owns every key and no two entries share branch and hash |
| LockStore.LockThenUnlock | lore-pg/src/store/pg_lock_store.rs:425-557 | unlocking what was reported as newly locked restores the earlier table |
| LockStore.BatchWithAliasesCannotBeUnlocked | lore-pg/src/store/pg_lock_store.rs:466-521 | unlocking the locked batch itself fails when two entries differ only in description |
| LockStore.PgLockStore.QueryLocks | lore-pg/src/store/pg_lock_store.rs:269-353 | reports exactly the matching rows, each once and column by column, for all nine queries |
| LockStore.PgLockStore.CheckLocksStatus | lore-pg/src/store/pg_lock_store.rs:356-418 | reports exactly the locked ones of the requested places, each once and column by column, whatever order the set iterates in |
| LockStore.StatusIsUnionOfQueries | lore-pg/src/store/pg_lock_store.rs:294-304 | that is the disjoint union of one exact query for each place |
| LockLaws.LockRefusedIff | lore-pg/src/store/pg_lock_store.rs:204-246 | a batch is refused if and only if a requested key has the row of another owner, and then nothing changes |
| LockLaws.NewlyExactly | lore-pg/src/store/pg_lock_store.rs:176-256 | newly locked are exactly the requested resources with a free key and the least description for it, with this owner and time, in the order of branch and hash |
| LockLaws.LockedRowsExactly | lore-pg/src/store/pg_lock_store.rs:182-263 | the rows afterwards are the old ones as they were and one for each newly locked |
| LockLaws.UnlockedRowsExactly | lore-pg/src/store/pg_lock_store.rs:455-557 | a successful unlock takes the rows of exactly the requested keys |
| LockLaws.UnlockBlames | lore-pg/src/store/pg_lock_store.rs:476-521 | a failing one changes nothing and blames the first resource it cannot delete: held by another owner, or not there, or named just before under a lesser description |
| LockLaws.UnlockOne | lore-pg/src/store/pg_lock_store.rs:476-521 | with one resource the answers not found, not owned and success tell the three cases apart |
| LockLaws.ReportedExactly | lore-pg/src/store/pg_lock_store.rs:115-134 | reported of keys of one repository is what their rows say: branch, hash, description, owner and time each in its own field |
| LockLaws.ReportedAnywhere | lore-pg/src/store/pg_lock_store.rs:269-353 | the same for every query, whatever the repositories of its rows |
| LockLaws.NarrowerQueries | lore-pg/src/store/pg_lock_store.rs:283-345 | each narrower query finds the part of the wider one with that repository, branch, owner or description |
| LockLaws.LockThenQuery | lore-pg/src/store/pg_lock_store.rs:143-353 | after a successful lock, querying the repository reports what the lock reported for the keys that were free, and the old rows for the others |
| LockLaws.LockThenCheck | lore-pg/src/store/pg_lock_store.rs:356-418 | after a successful lock, a status check of the batch reports each of its places, as the lock reported it or as the owner held it before |
| LockProtocol.RunsStaySound | lore-pg/src/store/pg_lock_store.rs:182-202 | in every reachable state a key has at most one transaction with an uncommitted change, which fits the table |
| LockProtocol.WaitsAboveWhatItHolds | lore-pg/src/store/pg_lock_store.rs:149-153 | a waiting transaction waits on a key greater than every key it holds |
| LockProtocol.NoDeadlock | lore-pg/src/store/pg_lock_store.rs:432-435 | in every reachable state the wait-for graph has no cycle |
| LockProtocol.SomeoneCanGoOn | lore-pg/src/store/pg_lock_store.rs:182-256 | whenever a transaction is active, some transaction can take a step that is not an abort |
| LockProtocol.RowsOnlyLeaveByUnlock | lore-pg/src/store/pg_lock_store.rs:523-529 | a committed row never changes and leaves only by the commit of an unlock, its owner's if validated |
| LockProtocol.RowsOnlyAppearByLock | lore-pg/src/store/pg_lock_store.rs:169-173 | a row appears only by the commit of a lock batch of its owner |
| LockProtocol.OwnershipPassesByUnlock | lore-pg/src/store/pg_lock_store.rs:78-86 | over every run, if a key's row is not what it was, an unlock of the old row committed in between |
| LockProtocol.CommitLocksUnlessReleased | lore-pg/src/store/pg_lock_store.rs:204-261 | a committed lock batch holds a resource if and only if it inserted its row, or it did not skip it and then have the owner's row released and not obtained again before the commit |
| LockProtocol.OwnershipStep | lore-pg/src/store/pg_lock_store.rs:182-261 | an owner's row of a key goes exactly by the commit of an unlock and comes exactly by the commit of a lock batch that inserted it |
| LockProtocol.SkipCanGoStale | lore-pg/src/store/pg_lock_store.rs:204-229 | a run in which a batch commits although the row it skipped has been unlocked |
| LockSchedules.LockRunsAlone | lore-pg/src/store/pg_lock_store.rs:164-263 | every run in which a lock transaction starts with no other under way and only it moves leaves the table alone until it ends, and then meets the contract of the batch |
| LockSchedules.UnlockRunsAlone | lore-pg/src/store/pg_lock_store.rs:450-556 | likewise an unlock transaction |
| LockSchedules.BatchEndsAlone | lore-pg/src/store/pg_lock_store.rs:143-557 | such a run to the end exists from any point with no transaction under way |
| MutableStore.RangeIsType | lore-pg/src/store/pg_mutable_store.rs:277-281 | the key range of a type holds exactly the keys that begin with its byte |
| MutableStore.ListRefines | lore-pg/src/store/pg_mutable_store.rs:295-337 | a list is the set of non-zero pairs of that repository and type |
| MutableStore.TableRefinesMap | lore-pg/src/store/pg_mutable_store.rs:361-412 | over every sequence of operations the table answers as a map without zero values |
| MutableStore.ZeroIsAbsent | lore-pg/src/store/pg_mutable_store.rs:134-138 | no sequence of operations tells a stored zero from an absent row |
| MutableStore.ListIsolated | lore-pg/src/store/pg_mutable_store.rs:368-412 | an operation on another repository or type never changes a list |
| MutableStore.TypedKeyExactly | lore-pg/src/store/pg_mutable_store.rs:55-58 | two calls share a cell if and only if they agree on the type and on every byte of the key but the first |
| MutableLaws.ApartKeepsLoad | lore-pg/src/store/pg_mutable_store.rs:125-263 | an operation on another repository, type, or key that differs after the first byte leaves a load as it was |
| MutableLaws.StoreThenLoad | lore-pg/src/store/pg_mutable_store.rs:125-184 | a load after a store finds the value, or nothing after a zero |
| MutableLaws.SwapThenLoad | lore-pg/src/store/pg_mutable_store.rs:186-263 | a swap reports what a load would have found, and a load then finds the new value if and only if that was expected |
| MutableLaws.ListsWhatLoads | lore-pg/src/store/pg_mutable_store.rs:265-346 | a list has exactly the pairs that loads of its type find, each key with the type as its first byte |
| MutableLaws.StoreThenList | lore-pg/src/store/pg_mutable_store.rs:141-346 | a stored pair is in the list of its type |
| MutableLaws.LoadFindsLastWritten | lore-pg/src/store/pg_mutable_store.rs:125-263 | over every sequence of operations, loads and swaps find the value last written to their own repository, type and key |
| MutableStore.PgMutableStore.DoLoad | lore-pg/src/store/pg_mutable_store.rs:125-139 | the value in the cell of the repository, the type byte and the key's other 31 bytes, a stored zero reading as not found |
| MutableStore.PgMutableStore.DoStore | lore-pg/src/store/pg_mutable_store.rs:141-184 | writes that cell and no other, a zero removing the row |
| MutableStore.PgMutableStore.DoCompareAndSwap | lore-pg/src/store/pg_mutable_store.rs:186-263 | reports the value in that cell, zero for none, and writes the new one, a zero too, if and only if it was the expected one |
| MutableStore.PgMutableStore.DoList | lore-pg/src/store/pg_mutable_store.rs:265-346 | each pair of the type's non-zero rows is sent exactly once |
| MutableProtocol.LocksStayExact | lore-pg/src/store/pg_mutable_store.rs:205-215 | the advisory locks are exactly those of the transactions past their lock statement, one per lock id |
| MutableProtocol.CasIsLinearizable | lore-pg/src/store/pg_mutable_store.rs:186-263 | for any lock id function, the swaps, loads and stores of a cell are those of an atomic register in the very order in which their effects reach the table, as long as no store puts another value there between a select that found what its swap expects and the upsert |
| MutableProtocol.StoreSpoilsExactly | lore-pg/src/store/pg_mutable_store.rs:141-184 | over every run, with no premise: in the order in which effects reach the table, a swap's at its commit, the replies are those of an atomic register if and only if no swap committed after plain stores since its select had taken the cell to another value |
| MutableProtocol.StaleCommitIsNotAtomic | lore-pg/src/store/pg_mutable_store.rs:235-262 | a swap that has upserted and commits on a value no longer there reports what an atomic register would not, taken at its commit |
| MutableRegister.RegisterExactly | lore-pg/src/store/pg_mutable_store.rs:141-263 | over every run and for any lock ids: at each point the replies about a cell and its value are those of an atomic register, each swap placed somewhere between its select and its commit, if and only if no swap overwrites a value that a plain store has put there in between |
| MutableRegister.OverwritesExactly | lore-pg/src/store/pg_mutable_store.rs:235-262 | a swap does that if and only if just before its commit the table holds neither what it expects nor what it writes |
| MutableRegister.InsertBeforeStore | lore-pg/src/store/pg_mutable_store.rs:141-184 | a swap may as well take effect just before a store that follows its select, with the same replies and the same value in the end |
| MutableRegister.StoreCanBeLost | lore-pg/src/store/pg_mutable_store.rs:141-184 | a run in which a swap from zero succeeds and another value stored meanwhile is gone, which no placement of the swap explains |
| MutableProtocol.SuccessesChain | lore-pg/src/store/pg_mutable_store.rs:235-262 | successful swaps of a cell form a chain: each expects what the one before wrote |
| MutableProtocol.ChainStartsAtZero | lore-pg/src/store/pg_mutable_store.rs:231-233 | the first successful swap of a cell never stored expects zero |

## Left out

- Obliterate: when somebody else shares a reachable hash, `numFragments` is only bounded below, by the number of associations
  removed, because such a hash is given back live and counted again when another sibling references it.
- Obliterate: after a failure only the frame is stated (which rows may be marked or tombstoned), because what is left depends on
  the order in which the sub-fragments ran.
- EveryEndedRun: for trees of tasks that no other task interleaves with and in which none crashes; what holds beyond that is in
  `ImmutableSafety`.
- LockRunsAlone: a lone transaction; concurrent batches are not serializable in general, as `SkipCanGoStale` shows.
- Overlay configuration, TLS and environment reading, the S3 client and error telemetry; of the pool only its size is modelled.
- `evict`, `compact`, `flush`, `verify` and `hold_for_command`, which do nothing.
- The arms of `put` for partial matches: resolving never produces them, and `Put` shows them unreachable.
- The details in a match result beyond its kind: partition, context and the stored flags.
- SQL text, indexes and connection handling; the clock and its cast (`locked_at` is an input); text encodings.
- Fixed lengths of branches and hashes in the lock table, and the decoding errors for rows of other lengths.
- The list stream as a channel: `DoList` returns what is sent as a sequence, and a list that fails midway is not modelled.
- `FragmentReference` layout and alignment: a payload's references are an arbitrary function of its bytes.
