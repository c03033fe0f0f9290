# Credential custody, recovery, release upload and schema merging: a proved model

This project models the crash-safe protocols of `cfctl` and proves what they
promise over every run, every stopping point and, where the code allows them,
every interleaving. None of the stores has transactions. So the protocols are
sequences of single store operations, each of which may be the last one, and a
write that reports failure may have happened.

| file | what it models |
|---|---|
| `Bytes.dfy`, `Base64.dfy`, `Json.dfy` | byte strings, big-endian integers, strict unpadded base64url (section 5 of RFC 4648), JSON values |
| `KeyringCodec.dfy` | the generation manifest and the generation inventory as bytes |
| `KeyringModel.dfy` | the raw keyring items of one credential, what `get` answers, the invariant of reachable states |
| `KeyringSteps.dfy` | one lemma for every raw write a mutation makes |
| `KeyringSlot.dfy` | put, get, delete and reconcile as methods over a raw store that may stop them anywhere |
| `KeyringConcrete.dfy` | the real encodings satisfy what the protocol relies on; what version 1, plain and active items look like byte for byte, and how they read |
| `KeyringRuns.dfy` | ownership of every item, runs of crashing calls, readers without the lock |
| `MalformedRecovery.dfy` | quarantine-then-replace over two keyring items |
| `OwnershipMigration.dfy` | one raw item that another application owns |
| `ChainedCredential.dfy` | the two-store credential write with a write-ahead journal |
| `FileStore.dfy`, `PlatformStore.dfy` | the file fallback, and the store that chooses between keyring and files |
| `RecoveryPlans.dfy` | recovery plans prepared, resumed, revoked and completed by interleaved processes, over a store whose recovery takes a guard or none |
| `RecoveryRaces.dfy` | three whole runs of recovery plans in which a promise fails |
| `EvidenceKeys.dfy` | the evidence-key registry: rotation, retirement, tags |
| `ReleaseUpload.dfy` | uploading release assets to a drifting remote, and compensation |
| `ObjectSchema.dfy`, `RequestSchema.dfy` | merging `allOf` members; normalizing request schemas |

Conventions. Code that changes a store step by step is a class whose methods are
proved against specification functions and predicates; lemmas carry the
properties of those over runs. A crash is a method returning an error with
nothing cleaned up: the source propagates an error from any store operation
without compensating, so the states a crash can leave are those an error can
leave. In `KeyringSlot` a ghost history holds every raw state in between. A
`reliable` flag switches faults off; under it each operation succeeds exactly
when its stated condition holds, so the contracts are not met by code that
always fails. The flags `steady` and `readable` switch off the faults of reads only;
under them an operation that reads back what it wrote reports exactly what is
there, whatever became of the write. A `shared` or `drifting` flag lets others act
between any two operations.

A lemma whose name ends in `Exactly` says what a modelled function computes without
naming the function's parts: a format with its literal prefixes and codes, an order,
a classification, as an equivalence.

What the proofs found false, and what holds instead:

- A lock-free `get` that read no inventory can return the root marker as if it
  were the credential. `KeyringRuns.MarkerLeak` runs a put and a delete around
  such a read. `MarkerReturnedExactly`: it happens exactly when the root that was
  classified was no legacy manifest and the root then read is the marker, and the
  inventory of that moment is then no longer absent or preparing.
  `RereadCatchesMarker`: so a reader that looks at the inventory again is deceived
  exactly when a whole deletion has ended in between. `UnmanagedAcrossHistory`:
  nothing else but the item's first value, absence or an error is ever returned. A
  reader whose inventory names a published generation is exact
  (`LockFreeGetIsExact`).
- `chained_delete` can uncover an older value: with a journal that differs from
  the primary, a failed primary delete and a removed journal leave the stale
  primary. `ChainedCredential.DeleteOldOrMissing` is the exact condition, and
  `StalePrimaryReachable` reaches such a state with one write.
- A reader of a chained credential looks at journal, fallback and primary one after
  another, and can so report an ambiguity that no single moment has: one writer is
  enough (`ChainedCredential.ReaderMeetsWriter`). `ReaderAmongWriters` says what
  such a reader can return among any number of writers, and when it is that. Looking
  again always helps: the next read yields a writer's value (`SecondLookResolves`).
- A delete in sticky-fallback mode that empties the fallback brings an older
  keyring value back (`PlatformStore.DeleteThenGet`, exact), and a put the
  keyring refused hides every other credential the keyring holds
  (`PlatformStore.RejectedPutHides`, exact; `LastWriteIsRead` over runs).
- Recovery deletes the source's root item. That is safe exactly for a plain item
  (`MalformedRecovery.RootDeletionIsSafe`). `Recover` covers the others: an active
  item loses its answer for good and every retry refuses it
  (`ActiveSourceIsLost`), a published one is repaired by the
  put that follows, and a confirmed legacy item is replaced beside chunks that
  belong to nothing any more.
- That at most one replacement of a malformed registry is published needs
  recoveries to exclude each other. The platform keyring's guard provides that
  (`RecoveryPlans.OneReplacementUnderGuard`), and so does the command line's
  lifecycle lock (`OneReplacementUnderLock`); the default recovery of a secret
  store, which takes no guard, does not: `RecoveryRaces.TwoReplacements`.
  `WriteKeepsReplacement` and `ReplacementStandsExactly` say for every operation
  and every run when the published replacement stands. The malformed bytes
  themselves survive every run, guarded or not (`OriginalIsPreserved`).
- A plan recorded as published or completed need not have its replacement at the
  registry, because the status the source asks for first is also granted by an
  absent registry. `RecoveryRaces.CompletedOverNothing` completes a plan while there
  is no registry; `RecoveryPlans.WriteKeepsRecords` and `RecordsStandExactly` say for
  every operation and every run when the records are true. While recoveries exclude
  each other they are (`OneReplacement`).
- The order of a recovery plan's states holds exactly while no process writes on a
  plan that has changed since it read it (`RecoveryPlans.WriteMovesForward`,
  `OrderHoldsExactly`). Taking turns is enough (`TurnsKeepOrder`), the keyring's
  guard is not: `RecoveryRaces.OrderNeedsTurns` revokes a plan and still publishes
  it under the guard.
- A stale ownership journal reappears after a raw delete
  (`OwnershipMigration.DeleteUncoversJournal`, exact, and `StaleJournalReappears`).
- A rollback that reports no failure has left the release showing nothing exactly
  when something was bound: with nothing bound an interrupted first upload may have
  landed (`ReleaseUpload.CleanReportIsTrue`).
- Merging `allOf` can widen a schema once `additionalProperties` occurs
  (`ObjectSchema.AdditionalPropertiesWiden`). `MergeMeansExactly`: a schema accepts
  exactly what the merged one accepts and what fits, on the merged properties, every
  `additionalProperties` that was merged without describing them. So nothing is
  widened when no member brings a property that a schema with that keyword lacks
  (`MergeMeansTheSame`).

## Model

| member | source | states |
|---|---|---|
| Base64.DecodeEncode | crates/cfctl-auth/src/macos_keyring.rs:447-447 | decoding an encoded chunk gives its bytes back |
| Base64.EncodeDecode | crates/cfctl-auth/src/macos_keyring.rs:522-526 | whatever the strict decoder accepts is the encoding of what it yields |
| Base64.EncodesGroups | crates/cfctl-auth/src/macos_keyring.rs:447-447 | three bytes are one number whose four digits to the base 64 are the symbols, the last group filled up with zeros |
| Base64.Alphabet | crates/cfctl-auth/src/macos_keyring.rs:447-447 | the symbols are the URL-safe alphabet in its order |
| Bytes.BigEndian | crates/cfctl-auth/src/macos_keyring.rs:569-584 | counts and lengths are written with the most significant byte first |
| KeyringCodec.ManifestRoundTrip | crates/cfctl-auth/src/macos_keyring.rs:569-640 | every valid manifest parses back from its encoding, which fits the prompt bound |
| KeyringCodec.ManifestCanonical | crates/cfctl-auth/src/macos_keyring.rs:590-658 | a string that parses as a manifest is the encoding of a valid manifest |
| KeyringCodec.ManifestExactly | crates/cfctl-auth/src/macos_keyring.rs:569-658 | which texts are manifests: prefix, version byte, identity, count, length and digest written out, with every bound |
| KeyringCodec.LegacyExactly | crates/cfctl-auth/src/macos_keyring.rs:586-640 | which texts are version 1 roots, prefix and version byte written out |
| KeyringCodec.InventoryRoundTrip | crates/cfctl-auth/src/macos_keyring.rs:754-813 | every valid inventory, in each of the eight states, parses back from its encoding |
| KeyringCodec.InventoryCanonical | crates/cfctl-auth/src/macos_keyring.rs:783-813 | a string that parses as an inventory is the encoding of a valid inventory, reserved bytes and absent generation included |
| KeyringCodec.InventoryExactly | crates/cfctl-auth/src/macos_keyring.rs:677-813 | which texts are inventories: prefix, version, the eight state codes, both references and their bounds written out |
| KeyringModel.AppendChunk | crates/cfctl-auth/src/macos_keyring.rs:512-547 | the read loop takes exactly the next 72 bytes of the value from its encoded chunk |
| KeyringModel.CollectWhole | crates/cfctl-auth/src/macos_keyring.rs:498-558 | when every chunk read is genuine, absent or failed, the whole read is the value or an error, and the value when none is absent or failed |
| KeyringModel.ReadWhole | crates/cfctl-auth/src/macos_keyring.rs:468-487 | a generation that is completely present reads as its value |
| KeyringModel.ReadIsGenuine | crates/cfctl-auth/src/macos_keyring.rs:468-558 | whatever a read of a generation yields has the identity, count, length and digest of its manifest, is text, and every chunk is its slice |
| KeyringModel.GetIsMeaning | crates/cfctl-auth/src/macos_keyring.rs:140-164 | in every reachable state `get` answers what the inventory state alone says |
| KeyringModel.UnmanagedFrame | crates/cfctl-auth/src/macos_keyring.rs:854-905 | legacy classification and the unmanaged reading depend on the root and legacy chunks only |
| KeyringSteps.WriteInventoryStep | crates/cfctl-auth/src/macos_keyring.rs:918-927 | an inventory write whose shape is already there keeps the invariant, and decides what `get` answers |
| KeyringSteps.StageStep | crates/cfctl-auth/src/macos_keyring.rs:421-466 | writing any piece of a generation not yet published keeps the invariant and every answer |
| KeyringSteps.DropStep | crates/cfctl-auth/src/macos_keyring.rs:934-960 | removing any piece of a generation being dropped keeps the invariant and every answer |
| KeyringSteps.DropLegacyStep | crates/cfctl-auth/src/macos_keyring.rs:962-977 | the same for legacy chunks and the root being deleted |
| KeyringSteps.ScrubRootStep | crates/cfctl-auth/src/macos_keyring.rs:342-371 | replacing the published legacy root by the marker keeps the invariant and the answer |
| KeyringSteps.UprootStep | crates/cfctl-auth/src/macos_keyring_recovery.rs:79-79 | deleting the root of a managed item keeps the invariant; published and deleting items answer as before, active ones report a missing marker |
| KeyringSteps.DeleteInventoryStep | crates/cfctl-auth/src/macos_keyring.rs:929-932 | removing the inventory once no generation is left keeps the invariant |
| KeyringSteps.ActiveIsOneGeneration | crates/cfctl-auth/src/macos_keyring.rs:342-395 | an active inventory with no second generation means root marker, inventory and one generation, nothing else |
| KeyringSlot.Slot.PutExact | crates/cfctl-auth/src/macos_keyring.rs:1005-1030 | a raw write is there when it succeeds, there or not otherwise, and nothing else changed; when reads work it succeeds exactly when it is there, whatever the write reported; the history stays a lineage in which legacy items only go and the root only becomes the marker by publication |
| KeyringSlot.Slot.DeleteExact | crates/cfctl-auth/src/macos_keyring.rs:1032-1052 | a raw delete has happened when it succeeds, or may have; when reads work it succeeds exactly when it has |
| KeyringSlot.Slot.Fetch | crates/cfctl-auth/src/macos_keyring.rs:140-164 | the program that reads item by item computes `get`, or reports a fault |
| KeyringSlot.Slot.FetchLegacyState | crates/cfctl-auth/src/macos_keyring.rs:854-884 | the probing loop computes the legacy classification, or reports a fault |
| KeyringSlot.Slot.FetchChunks | crates/cfctl-auth/src/macos_keyring.rs:498-558 | the read loop computes the collected value, or reports a fault |
| KeyringSlot.Slot.StageGeneration | crates/cfctl-auth/src/macos_keyring.rs:421-466 | staging changes no answer at any step; on success the whole generation is there |
| KeyringSlot.Slot.CleanupGeneration | crates/cfctl-auth/src/macos_keyring.rs:934-960 | cleanup changes no answer at any step and touches only that generation; on success none of it is left |
| KeyringSlot.Slot.CleanupLegacy | crates/cfctl-auth/src/macos_keyring.rs:962-977 | the same for legacy chunks |
| KeyringSlot.Slot.FinishDelete | crates/cfctl-auth/src/macos_keyring.rs:409-419 | readers see an unfinished deletion up to one point and absence from it on; on success nothing is left, legacy items included |
| KeyringSlot.Slot.Reconcile | crates/cfctl-auth/src/macos_keyring.rs:328-395 | repairing any interrupted state changes no answer, except that an unfinished deletion ends in absence; on success the inventory is absent or active |
| KeyringSlot.Slot.PutInitial | crates/cfctl-auth/src/macos_keyring.rs:225-278 | first write or legacy migration: old answer up to the publication write, new value from it on |
| KeyringSlot.Slot.PutManaged | crates/cfctl-auth/src/macos_keyring.rs:280-326 | replacement: old answer up to the publication write, new value from it on; success leaves one generation |
| KeyringSlot.Slot.Put | crates/cfctl-auth/src/macos_keyring.rs:117-138 | from every reachable state but the deleting ones every raw state on the way, repair included, answers the old answer and then the new value, with one switch; an item that cannot be read is refused with its answer kept; success leaves exactly marker, inventory and one generation; without faults it succeeds exactly when the value is writable and the item usable |
| KeyringSlot.WritableExactly | crates/cfctl-auth/src/macos_keyring.rs:117-138 | what may be put: at most 16384 bytes without line breaks |
| KeyringSlot.Slot.Delete | crates/cfctl-auth/src/macos_keyring.rs:190-223 | every raw state on the way answers the old answer, an unfinished deletion or absence; success leaves nothing; without faults it succeeds exactly when the item is usable or managed without its root |
| KeyringConcrete.RealCodecLawful | crates/cfctl-auth/src/macos_keyring.rs:561-813 | the real encodings satisfy the laws the protocol proofs use |
| KeyringConcrete.StagedReadsBack | crates/cfctl-auth/src/macos_keyring.rs:421-558 | staging any value of at most 16384 bytes over any raw state and reading it back gives the same bytes; every encoded chunk has 1 to 96 bytes |
| KeyringConcrete.LegacyItemReads | crates/cfctl-auth/src/macos_keyring.rs:854-905 | a version 1 item, its root and chunks written out byte for byte, is a start the protocol accepts, is recognised, and reads as its value |
| KeyringConcrete.LegacyRemainsRead | crates/cfctl-auth/src/macos_keyring.rs:854-905 | it is recognised while any chunk is left; with none the ownership is ambiguous, and with one missing there is no value |
| KeyringConcrete.PlainItemReads | crates/cfctl-auth/src/macos_keyring.rs:893-905 | an item without inventory whose root is no version 1 manifest is its root, if not too long |
| KeyringConcrete.ActiveItemBytes | crates/cfctl-auth/src/macos_keyring.rs:225-326 | what a successful put leaves, every item byte for byte |
| KeyringConcrete.ReadLoopArithmetic | crates/cfctl-auth/src/macos_keyring.rs:527-538 | for a manifest that parses, the read loop's checked products and subtraction stay in range |
| KeyringRuns.NoOrphans | crates/cfctl-auth/src/macos_keyring.rs:328-419 | in every reachable state each manifest and chunk belongs to a generation the inventory names, each legacy chunk to the legacy root or the legacy generation it names |
| KeyringRuns.Perform | crates/cfctl-auth/src/macos_keyring.rs:107-223 | any put or delete, stopped anywhere, honours its call |
| KeyringRuns.RunAnswers | crates/cfctl-auth/src/macos_keyring.rs:107-223 | after any run of crashing calls the answer is the first one, an offered value, absence or an unfinished deletion |
| KeyringRuns.PutsNeverLose | crates/cfctl-auth/src/macos_keyring.rs:117-138 | while nothing deletes, any run of crashing puts leaves the first answer or an offered value |
| KeyringRuns.RetriedPut | crates/cfctl-auth/src/macos_keyring.rs:117-138 | a put retried through any number of crashes answers old or new, and leaves one generation once it succeeds |
| KeyringRuns.LockFreeGetIsExact | crates/cfctl-auth/src/macos_keyring.rs:140-164 | a read whose inventory snapshot names a published generation, each raw read meeting another state, returns exactly that generation's value or an error |
| KeyringRuns.LockFreeGetOverHistory | crates/cfctl-auth/src/macos_keyring.rs:140-164 | the same for any states the puts and deletes of an item have passed through |
| KeyringRuns.MarkerMeansPublished | crates/cfctl-auth/src/macos_keyring.rs:342-395 | over the states of an item whose root was no marker, the marker is at the root only under a published, active or deleting inventory |
| KeyringRuns.UnmanagedAcrossHistory | crates/cfctl-auth/src/macos_keyring.rs:893-905 | the unmanaged branch, its classification, probes, chunks and final root each read in another state, returns the item's first value, absence, an error or the marker |
| KeyringRuns.MarkerReturnedExactly | crates/cfctl-auth/src/macos_keyring.rs:893-905 | for an item that did not hold the marker's text itself: it returns the marker exactly when the classified root was no legacy manifest and the root read last is the marker, whose inventory is then neither absent nor preparing |
| KeyringRuns.RereadCatchesMarker | crates/cfctl-auth/src/macos_keyring.rs:145-149 | after such a read the inventory is absent or preparing at some moment exactly when a recorded deletion has ended since |
| KeyringRuns.MarkerLeak | crates/cfctl-auth/src/macos_keyring.rs:117-223 | a run of the actual put and delete on an absent item, with the state in between in which the unmanaged branch returns the marker |
| MalformedRecovery.RootDeletionIsSafe | crates/cfctl-auth/src/macos_keyring_recovery.rs:77-80 | deleting the root of an item that answers leaves a reachable absent item exactly when the item is plain |
| MalformedRecovery.LegacyRootKeepsChunk | crates/cfctl-auth/src/macos_keyring.rs:854-884 | a confirmed legacy root has a chunk that deleting the root would orphan |
| MalformedRecovery.Quarantine | crates/cfctl-auth/src/macos_keyring_recovery.rs:24-76 | the exact bytes get into quarantine or it fails; a source that is not bare is refused unchanged |
| MalformedRecovery.Replace | crates/cfctl-auth/src/macos_keyring_recovery.rs:77-107 | for every source: it ends as it was, absent, replaced, or, if it was active with the expected value, without an answer; it keeps its protocol unless a confirmed legacy root goes, whose chunks then stay; a third value is refused unchanged; without faults it succeeds exactly from the replaceable states |
| MalformedRecovery.Recover | crates/cfctl-auth/src/macos_keyring_recovery.rs:6-107 | at every stop, nested puts included, the original bytes are readable at the source or in quarantine; a stopped recovery of a plain source can be completed by a later one; third values are refused unchanged; when reads work it reports success exactly when replacement and quarantine are there; without faults it ends so exactly from the completable states, and an active source holding the expected bytes ends without an answer |
| MalformedRecovery.ActiveSourceIsLost | crates/cfctl-auth/src/macos_keyring_recovery.rs:77-107 | a source written by a put, its bytes already in quarantine: recovery deletes its root, fails, and it answers no more; every further recovery refuses it |
| OwnershipMigration.Keychain.Migrate | crates/cfctl-auth/src/macos_keyring_platform.rs:586-598 | the states a journalled replacement of a foreign item can stop in; a journal that cannot be retired does not fail it |
| OwnershipMigration.AllowedExactly | crates/cfctl-auth/src/macos_keyring_platform.rs:629-646 | the bounds of a value: at most 16384 bytes without line breaks |
| OwnershipMigration.Keychain.Put | crates/cfctl-auth/src/macos_keyring_platform.rs:695-720 | the states a raw put can stop in, over foreign, own and absent items; without faults it succeeds exactly for an allowed value and leaves no journal of its own |
| OwnershipMigration.Keychain.Get | crates/cfctl-auth/src/macos_keyring_platform.rs:722-738 | the primary answers, else the journal; values with line breaks, too long or not UTF-8 are errors, and without faults no others are |
| OwnershipMigration.PutReadsOldOrNew | crates/cfctl-auth/src/macos_keyring_platform.rs:572-598 | wherever a put stops the old or the new value is read, and the new one on success |
| OwnershipMigration.NeverAbsent | crates/cfctl-auth/src/macos_keyring_platform.rs:695-738 | any number of stopped and retried puts: the first reading or a written value, never absence |
| OwnershipMigration.DeleteUncoversJournal | crates/cfctl-auth/src/macos_keyring_platform.rs:776-786 | a successful delete leaves nothing to read exactly when no journal is left |
| OwnershipMigration.StaleJournalReappears | crates/cfctl-auth/src/macos_keyring_platform.rs:722-738 | a run in which a deleted item reads as a superseded value |
| OwnershipMigration.CleanIsPlain | crates/cfctl-auth/src/macos_keyring_platform.rs:695-786 | with no journal and no foreign item, the raw operations are exactly writes of a plain cell |
| ChainedCredential.ResolveExactly | crates/cfctl-auth/src/lib.rs:1181-1205 | the credential is a value exactly when the journal says so, or without a journal both stores that hold one agree on it; missing exactly when nothing is anywhere; ambiguous exactly when they disagree without a journal |
| ChainedCredential.Stores.Put | crates/cfctl-auth/src/lib.rs:1029-1131 | every run of the program, others interleaved, is a path of the step machine and succeeds only at its end; alone, it resolves to old or new, and to new on success; it succeeds whenever the fallback works, and with the primary working too leaves the value there and nothing else |
| ChainedCredential.DoneMeans | crates/cfctl-auth/src/lib.rs:1043-1131 | a write that succeeds, whatever others do, has just seen or put its value in the journal, or has seen no journal after its primary took the value |
| ChainedCredential.PrimaryTaken | crates/cfctl-auth/src/lib.rs:1050-1102 | it gets on to clearing or checking only by a primary write that took its value |
| ChainedCredential.Stores.Delete | crates/cfctl-auth/src/lib.rs:1147-1158 | the states a deletion can stop in: the journal goes only after the fallback |
| ChainedCredential.OneWriter | crates/cfctl-auth/src/lib.rs:1029-1131 | one writer, every operation failing before or after its effect: any stop resolves to old or new, success to new |
| ChainedCredential.MoveKeepsInv | crates/cfctl-auth/src/lib.rs:1029-1131 | a step of one writer keeps the invariant: no journal means both stores untouched, or the fallback gone and a writer's value in the primary |
| ChainedCredential.WritersNeverLose | crates/cfctl-auth/src/lib.rs:1029-1205 | any number of interleaved crash-prone writers: always the first resolution or some writer's value |
| ChainedCredential.NeverAmbiguousNeverMissing | crates/cfctl-auth/src/lib.rs:1181-1205 | so at no moment does an unambiguous credential become ambiguous or a present one go missing |
| ChainedCredential.ReaderAmongWriters | crates/cfctl-auth/src/lib.rs:1181-1205 | journal, fallback and primary read at three moments among any number of writers: the first resolution, a writer's value, or an ambiguity between the first fallback and a writer's value in a primary that was untouched when the journal was read; never missing what was present; an unreadable primary leaves the first resolution |
| ChainedCredential.SecondLookResolves | crates/cfctl-auth/src/lib.rs:1181-1205 | after such an ambiguity every later read yields a writer's value |
| ChainedCredential.ReaderMeetsWriter | crates/cfctl-auth/src/lib.rs:1181-1205 | a run of one writer over a legacy fallback in which a reader reports an ambiguity though every moment resolves |
| ChainedCredential.DeleteOldOrMissing | crates/cfctl-auth/src/lib.rs:1147-1158 | every stop of a deletion resolves to old or missing exactly when the start is unambiguous and no stale primary hides behind a journal |
| ChainedCredential.StalePrimaryReachable | crates/cfctl-auth/src/lib.rs:1118-1128 | one write whose primary is refused leaves a stale primary behind the journal |
| FileStore.SecretFileName | crates/cfctl-auth/src/lib.rs:1252-1267 | the loop computes the file name |
| FileStore.FileNamesDiffer | crates/cfctl-auth/src/lib.rs:1252-1266 | file names are injective in the key |
| FileStore.NameReadsBack | crates/cfctl-auth/src/lib.rs:1252-1266 | every file name reads back as its key: letters, digits, `_` and `-` for themselves, everything else as `%` and two upper-case hexadecimal digits, the higher first |
| FileStore.SecretsAreNotStaging | crates/cfctl-auth/src/lib.rs:806-808 | no secret's file looks like a staging file |
| FileStore.StagingExactly | crates/cfctl-auth/src/lib.rs:806-808 | a staging file is one with `.tmp-` in its name |
| FileStore.CountedAreSecrets | crates/cfctl-auth/src/lib.rs:797-817 | in every directory that shows a set of secrets the files counted are as many as the secrets |
| FileStore.Store.Put | crates/cfctl-auth/src/lib.rs:837-868 | stopped anywhere, staging left behind or not, the directory shows the old secrets or the new one set; the empty key is refused unchanged; on success the file is private, whatever it was; without faults it succeeds unless the staging name is taken, and leaves no staging file of its own |
| FileStore.Store.Get | crates/cfctl-auth/src/lib.rs:876-897 | reads the committed secret; one whose file others may read, or that is not UTF-8, is refused, and without faults no other |
| FileStore.Store.Delete | crates/cfctl-auth/src/lib.rs:899-906 | the directory shows the secrets with or without the deleted one, without it on success |
| FileStore.Store.StoredSecretCount | crates/cfctl-auth/src/lib.rs:797-817 | in every crash state the count is the number of committed secrets |
| PlatformStore.Platform.Put | crates/cfctl-auth/src/platform_store.rs:122-130 | the states a put can stop in, in sticky and in keyring mode; it succeeds whenever the files work, and with both stores working stays in the keyring |
| PlatformStore.Platform.ChainedPut | crates/cfctl-auth/src/platform_store.rs:129-129 | over an empty fallback the two-store write touches one credential, and a success leaves it in the keyring or in the journal |
| PlatformStore.Platform.Get | crates/cfctl-auth/src/platform_store.rs:132-140 | journal, then file, in sticky mode; the keyring otherwise |
| PlatformStore.Platform.Delete | crates/cfctl-auth/src/platform_store.rs:142-150 | the states a delete can stop in |
| PlatformStore.Platform.Locate | crates/cfctl-auth/src/platform_store.rs:152-161 | a location is reported exactly for what can be read, and names where it is |
| PlatformStore.ReadsItsWrite | crates/cfctl-auth/src/platform_store.rs:122-140 | in every mode a confirmed write is read back; an unconfirmed one leaves old or new |
| PlatformStore.ReadingExactly | crates/cfctl-auth/src/platform_store.rs:132-140 | what is read: journal, else own file, while the fallback holds anything; the keyring otherwise |
| PlatformStore.KeptFileIsRead | crates/cfctl-auth/src/platform_store.rs:122-150 | a credential in its own file stays readable through any run of operations on others |
| PlatformStore.StickyLeavesKeyring | crates/cfctl-auth/src/platform_store.rs:122-161 | while the fallback count is positive nothing touches the keyring and no reading depends on it |
| PlatformStore.DeleteThenGet | crates/cfctl-auth/src/platform_store.rs:142-150 | a confirmed delete leaves nothing to read exactly when emptying the fallback does not uncover a keyring value |
| PlatformStore.RejectedPutHides | crates/cfctl-auth/src/platform_store.rs:122-140 | no put over an empty fallback disturbs another credential exactly when the keyring does not hold it |
| PlatformStore.LastWriteIsRead | crates/cfctl-auth/src/platform_store.rs:122-161 | after any run on other credentials a confirmed write is read exactly when the run has not moved the store from keyring to fallback; a write into the fallback is never lost |
| RecoveryPlans.WriteKeepsReplacement | crates/cfctl-auth/src/lib.rs:428-506 | an operation keeps the published replacement at the registry exactly unless it is a deletion of the original, or a publication, that meets another replacement than its process last read |
| RecoveryPlans.ReplacementStandsExactly | crates/cfctl-auth/src/lib.rs:428-506 | over every run, guarded or not, the published replacement is the registry at every moment exactly when no such write took effect |
| RecoveryPlans.WriteKeepsRecords | crates/cfctl-auth/src/evidence_keys.rs:494-540 | an operation keeps every plan recorded as published or completed true of the registry exactly unless it saves one over a registry that is not its replacement, or deletes or publishes under a recorded one |
| RecoveryPlans.RecordsStandExactly | crates/cfctl-auth/src/evidence_keys.rs:494-540 | over every run, guarded or not, the records are true at every moment exactly when no such write took effect |
| RecoveryPlans.StepKeepsInv | crates/cfctl-auth/src/evidence_keys.rs:430-505 | while recoveries exclude each other, each operation of any resume, revocation or completion keeps the invariant whatever others do |
| RecoveryPlans.OneReplacement | crates/cfctl-auth/src/evidence_keys.rs:430-540 | over any interleaving of any number of plans whose recoveries exclude each other at most one replacement is ever published; it stays the registry; published and completed plans are that one |
| RecoveryPlans.OneReplacementUnderGuard | crates/cfctl-auth/src/macos_keyring_recovery.rs:19-23 | the keyring's guard makes every run such a run |
| RecoveryPlans.OneReplacementUnderLock | crates/cfctl-cli/src/runtime/evidence_key_commands.rs:552-565 | so does the lifecycle lock the command holds, over a store that takes no guard as well |
| RecoveryRaces.TwoReplacements | crates/cfctl-auth/src/lib.rs:428-506 | a run of the default recovery without either, in which one plan is recorded as published and the other one's replacement is the registry |
| RecoveryRaces.CompletedOverNothing | crates/cfctl-auth/src/evidence_keys.rs:1004-1025 | such a run in which a plan is confirmed and completed while there is no registry |
| RecoveryPlans.ResumeConverges | crates/cfctl-auth/src/evidence_keys.rs:430-505 | from whatever stopped processes left, a resume running undisturbed publishes its replacement with the original in quarantine exactly when the plan is completable; otherwise it changes nothing |
| RecoveryPlans.RevokeConverges | crates/cfctl-auth/src/evidence_keys.rs:412-428 | an undisturbed revocation revokes exactly a prepared plan with nothing in quarantine, and touches nothing else |
| RecoveryPlans.CompleteConverges | crates/cfctl-auth/src/evidence_keys.rs:507-540 | an undisturbed completion completes exactly a published plan over its replacement or an absent registry |
| RecoveryPlans.WritesFollowChecks | crates/cfctl-auth/src/lib.rs:428-506 | every write of any schedule follows the read that allows it |
| RecoveryPlans.GoIsAllowed | crates/cfctl-auth/src/macos_keyring_recovery.rs:19-23 | with nobody else under the guard each such operation is one the system allows, and leaves other processes alone |
| RecoveryPlans.OriginalIsPreserved | crates/cfctl-auth/src/lib.rs:428-506 | the malformed bytes the run started from are at the registry or in a quarantine at every moment, with a guard or without |
| RecoveryPlans.WriteMovesForward | crates/cfctl-auth/src/evidence_keys.rs:412-540 | an operation moves every plan by one allowed move at most, with no quarantine for a revoked plan, exactly unless it saves or fills the quarantine of a plan that has changed since it was loaded |
| RecoveryPlans.OrderHoldsExactly | crates/cfctl-auth/src/evidence_keys.rs:412-540 | over every run all plans move only so exactly when no such stale write took effect |
| RecoveryPlans.PlansMoveForward | crates/cfctl-auth/src/evidence_keys.rs:412-540 | over any stretch of a run without stale writes a plan's state is no earlier, and a revoked plan stays revoked with an empty quarantine |
| RecoveryPlans.TurnsKeepOrder | crates/cfctl-auth/src/evidence_keys.rs:412-540 | when the operations on one plan take turns no write is ever stale |
| RecoveryRaces.OrderNeedsTurns | crates/cfctl-auth/src/evidence_keys.rs:412-505 | a guarded run without turns in which a revoked plan fills its quarantine and is published |
| EvidenceKeys.UpdateMac | crates/cfctl-auth/src/evidence_keys.rs:1199-1216 | the loop feeds the hasher the framed message |
| EvidenceKeys.MessageExactly | crates/cfctl-auth/src/evidence_keys.rs:1199-1216 | the message byte for byte: five components behind their lengths, the program's domain first |
| EvidenceKeys.FramingIsInjective | crates/cfctl-auth/src/evidence_keys.rs:1199-1216 | equal framings come from equal component lists, of any number, each shorter than 2^64 |
| EvidenceKeys.MessageBindsEverything | crates/cfctl-auth/src/evidence_keys.rs:1199-1216 | equal messages force state root, generation, domain and payload equal |
| EvidenceKeys.TagBindsPayload | crates/cfctl-auth/src/evidence_keys.rs:1067-1105 | with a collision-free MAC a tag verifies for its own state root, domain and payload and no others |
| EvidenceKeys.VerifiesExactly | crates/cfctl-auth/src/evidence_keys.rs:1048-1105 | a registry makes tags for its own state root only, and a tag verifies exactly under its algorithm, root and the key of the generation it names |
| EvidenceKeys.RotationTakesOver | crates/cfctl-auth/src/evidence_keys.rs:542-553 | after a rotation tags are made with the new generation and its key, and every tag that verified still does |
| EvidenceKeys.RetirementRemoves | crates/cfctl-auth/src/evidence_keys.rs:662-686 | after a retirement exactly the tags of that generation verify no more, and the active one is as before |
| EvidenceKeys.TagVerifiesWhileRetained | crates/cfctl-auth/src/evidence_keys.rs:1048-1105 | over any history of rotations and retirements a tag verifies exactly while its generation is retained; the active generation is always present |
| EvidenceKeys.KeysNeverChange | crates/cfctl-auth/src/evidence_keys.rs:542-553 | a generation present at two times has the same key and root at both |
| EvidenceKeys.RetiredForGood | crates/cfctl-auth/src/evidence_keys.rs:662-686 | a retired generation never comes back |
| EvidenceKeys.RootNeverChanges | crates/cfctl-auth/src/evidence_keys.rs:542-553 | rotation and retirement keep the state root |
| EvidenceKeys.Manager.LoadRegistry | crates/cfctl-auth/src/evidence_keys.rs:889-904 | only a stored, readable, valid registry in the required backend is returned |
| EvidenceKeys.ValidExactly | crates/cfctl-auth/src/evidence_keys.rs:1108-1125 | a valid registry: version 1, a digest for a root, an active generation that is there, thirty-two bytes for every key |
| EvidenceKeys.Manager.SaveRegistry | crates/cfctl-auth/src/evidence_keys.rs:921-942 | success means the exact registry was read back |
| EvidenceKeys.Manager.Commit | crates/cfctl-auth/src/evidence_keys.rs:943-985 | the report is true of the store even with other writers: committed means the intended registry, unchanged the exact one from before; when reads work it is one of the two, whatever became of the write; without faults it commits |
| EvidenceKeys.Manager.Rotate | crates/cfctl-auth/src/evidence_keys.rs:542-553 | a committed rotation has made the new generation active with its key and kept everything else; any other report is as truthful; without faults it commits exactly when the root matches |
| EvidenceKeys.Manager.Retire | crates/cfctl-auth/src/evidence_keys.rs:662-686 | a committed retirement has removed the generation and nothing else; any other report is as truthful; without faults it commits exactly for an unused generation that exists and is not active |
| ReleaseUpload.SortKeeps | xtask/src/main.rs:3052-3052 | sorting the listing loses and invents no asset |
| ReleaseUpload.BeforeIsSmaller | xtask/src/main.rs:3052-3052 | names are compared byte by byte, a beginning before what continues it |
| ReleaseUpload.ApiPathExactly | xtask/src/main.rs:3026-3072 | only an address of this repository's release assets with a number has a path |
| ReleaseUpload.ShownExactly | xtask/src/main.rs:3174-3190 | exactly the bound draft shows its assets, all of them, each with the identity, name, digest and size the remote gives |
| ReleaseUpload.ListingIsCanonical | xtask/src/main.rs:3026-3072 | however the remote orders its assets the listing is the bound list when the same assets are there and each name is smaller than those after it, at the first byte in which they differ; and only then |
| ReleaseUpload.UploadShows | xtask/src/main.rs:2900-2923 | a new asset, wherever it lands, is the one found by its name, and makes the listing the bound list with it at the end exactly when its name follows the last |
| ReleaseUpload.DeleteShows | xtask/src/main.rs:3097-3108 | deleting the last bound asset leaves the listing at the bound list before it |
| ReleaseUpload.BoundIsBound | xtask/src/main.rs:3206-3229 | an asset that binds has the artifact's name, digest and size and an identity not bound before |
| ReleaseUpload.BindNewExactly | xtask/src/main.rs:3206-3229 | an asset binds exactly when it alone has the name, digest and size agree, and its identity is new |
| ReleaseUpload.Publisher.Compensate | xtask/src/main.rs:3080-3109 | a delete is issued only when the last read showed exactly the bound prefix, for its last asset; success has seen it gone |
| ReleaseUpload.Publisher.Rollback | xtask/src/main.rs:3075-3113 | only bound assets are deleted, last first; a clean report means they are all deleted and the release was seen empty, or nothing was bound and nothing done; with no drift and no faults it is clean |
| ReleaseUpload.Publisher.UploadAsset | xtask/src/main.rs:2863-2939 | an upload is issued only for an undrifted artifact when the last read showed exactly the bound assets; success binds the asset and shows it last with nothing deleted; failure rolls back what was bound; with no drift and no faults it succeeds exactly for an undrifted artifact whose name follows |
| ReleaseUpload.Publisher.Publish | xtask/src/main.rs:2855-2861 | uploads are issued in order, each with exactly the assets bound before it in sight; success shows exactly the artifacts, each with its own identity; with no drift and no faults it succeeds exactly when every artifact is as verified and its name smaller than the next one's |
| ReleaseUpload.CleanReportIsTrue | xtask/src/main.rs:2925-2939 | after every failed attempt a clean report means that the release shows nothing, exactly when something was bound |
| ObjectSchema.MergeObjectSchema | crates/cfctl-catalog/src/pages_projects.rs:172-226 | the loops over members, keywords, properties and required fields, in any order, compute the merge |
| ObjectSchema.MergedIsPlain | crates/cfctl-catalog/src/pages_projects.rs:172-226 | the merged schema has no `allOf`, `oneOf` or `anyOf`, describes properties, and is an object schema |
| ObjectSchema.MergesExactly | crates/cfctl-catalog/src/pages_projects.rs:172-226 | which schemas merge: object schemas without unions whose members merge, no two of them defining a property or saying a keyword differently, with properties to describe |
| ObjectSchema.AddedHasBoth | crates/cfctl-catalog/src/pages_projects.rs:204-214 | the merged `required` list holds exactly the fields of both |
| ObjectSchema.MergeKeepsMeaning | crates/cfctl-catalog/src/pages_projects.rs:172-226 | the merged schema accepts every instance the base and all nested members accept, and nothing else that fits their `additionalProperties` on the merged properties |
| ObjectSchema.MergeMeansExactly | crates/cfctl-catalog/src/pages_projects.rs:172-226 | an instance is accepted by the schema exactly when the merged schema accepts it and it fits, on the merged properties, every `additionalProperties` that does not describe them |
| ObjectSchema.MergeMeansTheSame | crates/cfctl-catalog/src/pages_projects.rs:172-226 | so it means the same when none has the keyword, or none that has it lacks a property of the others |
| ObjectSchema.AdditionalPropertiesWiden | crates/cfctl-catalog/src/pages_projects.rs:215-220 | a schema and an instance that only the merged form accepts |
| RequestSchema.Normalize | crates/cfctl-catalog/src/request_schema.rs:70-156 | the program ends on every document, computes the contract, and returns the references under way as it found them |
| RequestSchema.NormalIsReferenceFree | crates/cfctl-catalog/src/request_schema.rs:70-156 | no node of a normalized schema is a reference, however cyclic the document |
| RequestSchema.ContractAtEveryPath | crates/cfctl-catalog/src/request_schema.rs:70-187 | at the end of every path through items, further properties, compositions and writable properties, down to depth sixteen, the contract says of the resolved schema there exactly the listed keywords with their values, and has nothing where the path leads nowhere |
| RequestSchema.ReferencesExactly | crates/cfctl-catalog/src/lib.rs:11804-11811 | a reference into the document leads to what its pointer finds and only such a one leads anywhere; what read-only means |
| RequestSchema.NormalIsIdempotent | crates/cfctl-catalog/src/request_schema.rs:70-156 | normalizing again at the same depth changes nothing, whatever references are under way |
| RequestSchema.ReadOnlyIsNeverRequired | crates/cfctl-catalog/src/request_schema.rs:189-217 | a name is required exactly when the schema requires it and it is not a read-only property; above the depth bound exactly the properties that are not read-only are described |
| RequestSchema.WritableMeaning | crates/cfctl-catalog/src/request_schema.rs:189-210 | exactly the required entries to keep are kept |
| RequestSchema.WritableInOrder | crates/cfctl-catalog/src/request_schema.rs:189-210 | they are kept in order, each as often as listed |
| RequestSchema.WritableOne | crates/cfctl-catalog/src/request_schema.rs:189-210 | dropped is exactly the name of a read-only property |
| RequestSchema.FreeResolvesToItself | crates/cfctl-catalog/src/lib.rs:11804-11811 | a reference-free schema resolves to itself and is entered under no reference |
| RequestSchema.ResolvesWithinBound | crates/cfctl-catalog/src/request_schema.rs:42-66 | a body resolves exactly when at most sixteen local references lead to a node that is none |
| RequestSchema.RequestContractExactly | crates/cfctl-catalog/src/request_schema.rs:7-36 | a contract is reported exactly for a body with a JSON schema, as that schema's contract with the flag whether the body is required; absence exactly when there is no body or no JSON schema |
| RequestSchema.BrokenBodyIsNotAbsent | crates/cfctl-catalog/src/request_schema.rs:7-36 | an operation is reported without a JSON body only when it has none or its body resolves to one without a JSON schema |

## Left out

- MalformedRecovery.Recover: for a confirmed legacy source whose root it deletes, the put that follows is modelled on the item without the chunks that belong to nothing any more, which no later read or write of it names; that the source keeps to its protocol is promised for all others.
- KeyringSlot.Slot.Put: starts from an item the protocol itself, or the legacy format, can have left; a raw store with a corrupted inventory or foreign bytes under the internal keys is covered for reading (`get` answers an error) but not for mutation. The value is assumed to be valid UTF-8, which the source's string type guarantees.
- ObjectSchema.MergeObjectSchema: writing a property into a `properties` keyword that is neither an object nor null, which stops the source with a panic, is modelled as a refusal.
- ObjectSchema.MergeKeepsMeaning: keywords other than the object keywords named in `Accepts` are judged by an arbitrary predicate of keyword, value and instance; a keyword whose meaning depends on its siblings is not covered.
- RequestSchema.Normalize: the document is a map from JSON pointers to nodes; how a pointer is parsed is not modelled.
- EvidenceKeys.Manager.Rotate: takes the new generation identity as never used before and the key bytes as given; the adoption crossing, taken as sealed or absent, is not modelled.
- EvidenceKeys.Manager.LoadRegistry: takes the stored text as readable or not and the identities in it as given; UUID syntax and the JSON text are not modelled.
- FileStore.Store.Put: a rename either happens or does not; the directory's own permissions and creation, and power loss, are not modelled.
- FileStore.Store.Get: the permission check is the one for Unix; other platforms have none.
- PlatformStore.Platform.Put: the fallback is taken as the map of committed secrets that `FileStore` proves it to be, with the reserved journal keys disjoint from user keys; private storage and profile deletion only delegate.
- ChainedCredential.WritersNeverLose: writers only; a deletion among writers is not interleaved with them.
- RecoveryPlans.OneReplacement: a plan is bound to the malformed bytes themselves, where the source binds their digest and length; its replacement is known by its fresh identity; expiry may or may not stop a resume. The guarded recovery is given the default's steps: its re-read after the deletion is part of the exact raw delete. Drafting a plan is its final save, for text read at any time before; its own reads of the registry, which only make it refuse more, are not steps. Initialization, rotation and retirement, which write the registry key as well, do not run alongside.
- KeyringSlot.Slot: the mutation lock is one exclusive guard; lock files and their identity checks are not modelled.
- Digests, HMAC and UTF-8 validity are parameters; a collision-free MAC is assumed in `TagBindsPayload` only, a 32-byte digest in `KeyringConcrete`.
- Write identities are fresh by assumption, as random ones are in the source.
- Initialization intents and adoption of evidence keys, the interactive keychain guard, profile metadata, OAuth, token expiry and every network call.
- The other catalog files and release tasks: guarded field assignments and comparisons that reading one branch settles.
