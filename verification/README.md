# QEngine: catalogs, dedup ledger, wire format and pipelined clients

QEngine is a time-series database written in C with a Go client. This project models the
parts of it in which state, logs and concurrency meet, and proves what they promise.

- **Catalog v2.** Databases, groups and tables by object id, a name index beside them, a
  Lamport clock, and one append-only log (`CatalogModel`, `Cascade`, `CatalogV2`,
  `CatalogLimits`, `DropRecursion`, `CatalogCodec`, `Entities`, `Bytes`). Every step that logs
  a record is one step of a state machine, so a crash inside a cascading drop is a run that
  stops between two steps. The two maps of the model are one hash table of printed keys that
  points to entities changed in place (`CatalogIndex`, `IndexKeys`, `Decimals`).
  `OidAllocator` hands out the object ids.
- **Open-addressing tables.** One table deletes by shifting entries back (`HashTable`), the
  older one by reinserting the rest of the cluster (`V1Table`). `Probing` cuts the circular
  table open at a free slot, which turns wrap-around into plain order.
- **Catalog v1.** Create/drop logs with compaction that keeps tombstones (`NameLog`,
  `BucketLog`), stables and children with a drop that deletes from the table it scans
  (`Stables`), groups and devices in two logs replayed one after the other (`GroupDevices`),
  the percent-encoded text of their lines (`LogText`) and the raw text of the stable and child
  lines (`RawLines`). `Mirror` copies v1 into v2.
- **Dedup ledger.** A frontier plus sorted gaps per stream (`DedupSlot`), the table of
  streams (`DedupLedger`), and whole runs with overlapping deliveries, retries, reordering,
  base promises, checkpoints, log truncation and restarts (`DedupRun`).
- **Wire format.** CRC32C (`Crc32c`, with its check value in `CrcCheck`), frames (`Frames`), columnar batches and result chunks
  with two independent decoders (`Columns`).
- **Pipelined clients.** The two-goroutine writer as interleaved steps (`PipelineWriter`) and
  the single-goroutine one (`WritePipeline`).
- **Consumer groups** with round-robin rebalancing and monotone offsets (`Tmq`).

## Where the code does less than it promises

Each of these is stated as a lemma with a concrete input, beside a lemma that says exactly
when the code does meet the property.

- A catalog v2 child may be created under a super table of another database; a drop of the
  child's own database then leaves the child live in a dropped database
  (`CatalogLimits.ForeignChildIsAccepted`, `CatalogLimits.CreateKeepsUnderDb`).
- A create does not check whether the caller's object id is in use
  (`CatalogModel.CreateKeepsInv`). It can close a cycle of parents, on which the recursive
  drop does not end (`CatalogLimits.ReusedOidCanCycle`, `DropRecursion.DropsEndExactly`).
- The replication receiver lets go of the ledger between asking and recording, so two
  overlapping deliveries of one batch are both applied (`DedupRun.OverlapAppliesTwice`,
  `DedupRun.StepKeepsOk`).
- The replication receiver applies a batch before recording it and only counts a full
  window, so a retry of such a batch is applied twice, although the ledger's header asks the
  caller to refuse it (`DedupRun.FullWindowAppliesTwice`, `DedupRun.StepKeepsOk`).
- A checkpoint older than a base promise is not merely conservative: re-recording the log can
  run into a full window and forget an applied batch (`DedupRun.StaleCheckpointAppliesTwice`,
  `DedupRun.RecoverIsExact`).
- A stream that finds no entry in the ledger's table of 64 is never remembered, and every retry
  of it is applied (`DedupRun.FullTableAppliesTwice`, `DedupRun.StepKeepsOk`).
- A checkpoint can cover a batch whose rows are only in the log; replay then passes over them
  and the rows are lost (`DedupRun.EarlyCheckpointLosesRows`, `DedupRun.StepKeepsRows`).
- The write-ahead log is truncated at a flush, also while an applied batch lies above a hole of
  the ledger; a restart then forgets that batch (`DedupRun.TruncatedLogAppliesTwice`,
  `DedupRun.RestartIsExact`).
- A crash while a v1 stable is dropped leaves its children in the child log, and a stable
  created again under that name brings them back, unless a compaction comes first
  (`Stables.CrashedDropReturns`, `Stables.CompactedDropStays`).
- Stable and child lines are not percent-encoded: a tab in a symbol tag cuts it or keeps the
  catalog from opening (`RawLines.TabDoesNotOpen`, `RawLines.ChildReadsBack`,
  `RawLines.StableReadsBack`).
- A child that inherits its database from its stable is not mirrored into the v2 catalog
  (`Mirror.InheritedDatabaseIsSkipped`, `Mirror.ChildSkippedExactly`).
- The batch encoder writes name lengths in one byte, so names of 256 bytes or more are misread
  (`Columns.LongNameExample`, `Columns.ColBack`), and it accepts more columns than the event
  parser (`Columns.EventBack`). The C client prints 32-bit floats as unsigned numbers
  (`Columns.CellBack`, `Columns.DecodersAgree`).
- `pct_encode` needs one byte more than its comment says, and 128-byte buffers can cut
  63-byte names (`LogText.DocumentedSizeCuts`, `LogText.LongNameIsCut`, `LogText.RoundTrip`).
- Object ids repeat once a node's sequence passes 2^48, and one observed id is enough to bring it
  there (`OidAllocator.MintReturnsReservedId`, `OidAllocator.MintRepeatsPastLimit`,
  `OidAllocator.MintRepeatsExactly`).

## Model

| member | source | states |
|---|---|---|
| CatalogModel.RunKeepsInv | src/catalog/catalog_v2.c:209-296 | After every run of creates under any id that may be given, single drops, compactions in any bucket order, reopens and crashes at a record boundary, replaying the log gives exactly the nodes, the name index and the Lamport clock held in memory (fields of dropped entities apart), and every point of the log since the last compaction replays to a state in which each live entity hangs off a live, older one |
| CatalogModel.CompactReplays | src/catalog/catalog_v2.c:276-296 | The log a compaction writes, in whatever order the buckets list live and dropped nodes, replays to the same nodes, names and clock |
| CatalogModel.CompactKeepsInv | src/catalog/catalog_v2.c:276-296 | Compaction keeps the invariant of every run |
| CatalogModel.NodesDetermine | src/catalog/catalog_v2.c:200-228 | The nodes alone fix the name index and the clock, so no order of records can make them differ |
| CatalogModel.EmitReplays | src/catalog/catalog_v2.c:276-296 | Replaying the compacted records of any prefix of the bucket order gives exactly those nodes, indexed and clocked |
| CatalogModel.CreateKeepsStateOk | src/catalog/catalog_v2.c:348-417 | A create that passes the checks, under any id, used or not, keeps names exact, the clock exact and every live entity attached if and only if no live entity hangs off that id and the new one does not hang off itself |
| CatalogModel.CreateKeepsNames | src/catalog/catalog_v2.c:353-368 | Names and clock stay exact under any id |
| CatalogModel.UnusedIsAdoptable | src/catalog/catalog_v2.c:353-368 | An unused id always satisfies that condition |
| CatalogModel.CreateReplays | src/catalog/catalog_v2.c:353-368 | Under any id the log replays to what the create left in memory |
| CatalogModel.CheckedIsAttached | src/catalog/catalog_v2.c:348-417 | What the create checks establish: a live parent, and for a child a live super table with as many tag columns as tag values |
| CatalogModel.CreateKeepsInv | src/catalog/catalog_v2.c:353-368 | A create under any id keeps the invariant of every run if and only if no live entity hangs off that id and the new one does not hang off itself |
| CatalogModel.DropOneKeepsInv | src/catalog/catalog_v2.c:478-486 | Dropping an entity that no live entity hangs off keeps the invariant; this is why tombstones must be written children first |
| CatalogModel.ReopenKeepsInv | src/catalog/catalog_v2.c:243-274 | Reopening on any prefix of the log at or beyond the last compaction restores a well-formed catalog, and on the whole log the one in memory |
| CatalogModel.ReplayIsNormal | src/catalog/catalog_v2.c:209-274 | Replay leaves no fields in dropped entities, which is the only way it differs from memory |
| CatalogModel.EmptyCatalogOk | src/catalog/catalog_v2.c:315-332 | The empty catalog satisfies the invariant, so runs start somewhere |
| CatalogModel.ReplayIsNewest | src/catalog/catalog_v2.c:209-274 | Whatever the order of a log, replay keeps of each object what its newest record says: the one with the highest stamp, and of several with that stamp the last |
| Cascade.ReachesOlder | src/catalog/catalog_v2.c:465-504 | Creation stamps never increase up a chain of cascade parents, and the chain ends at a live entity |
| Cascade.SiblingsDisjoint | src/catalog/catalog_v2.c:465-504 | No entity lies below two different children of one parent, so the recursive drop meets each entity once |
| Cascade.SubtreeSplits | src/catalog/catalog_v2.c:488-504 | The live entities whose chain reaches an entity are that entity and those below its live children, nothing else |
| Cascade.ReachesSame | src/catalog/catalog_v2.c:488-504 | Dropping other subtrees changes nothing about which entities lie below this one |
| Cascade.DroppedNext | src/catalog/catalog_v2.c:488-504 | Dropping the next child's subtree after the earlier ones drops exactly the union |
| Cascade.DroppedRoot | src/catalog/catalog_v2.c:478-504 | Tombstoning the root after its children's subtrees drops exactly the root's subtree |
| Cascade.KidsGone | src/catalog/catalog_v2.c:488-504 | After the children's subtrees the root is untouched and childless, so it may be tombstoned |
| Cascade.SubtreeIsLinked | src/catalog/catalog_v2.c:465-504 | The dropped subtree by its fields: a live entity is tombstoned exactly if it is the dropped one or hangs off a tombstoned one, a group through its database, a child through its super table, any other table through its group or, without one, its database |
| CatalogV2.MintIsFresh | src/catalog/catalog_v2.c:353-368 | While sequence numbers fit 48 bits a minted id is in use by no entity the catalog has ever loaded or created, and minting keeps the allocator ahead of all of them |
| CatalogV2.ObserveCovers | src/catalog/catalog_v2.c:209-229 | Passing every applied id to the allocator keeps all of them below its next sequence number |
| CatalogV2.CascadeNext | src/catalog/catalog_v2.c:488-504 | Dropped set, log and clock of the children dropped so far extend by exactly those of the next child |
| CatalogV2.CascadeEnd | src/catalog/catalog_v2.c:478-504 | Tombstoning the root last completes the cascade: exactly its subtree, each once in the log, parents after children |
| CatalogV2.KidUntouched | src/catalog/catalog_v2.c:488-504 | A child not yet dropped is still live, unchanged, and younger than the root, which makes the recursion end |
| CatalogV2.Catalog.constructor | src/catalog/catalog_v2.c:243-274 | Opening replays the log record by record; on a log whose prefixes are sound the catalog is valid |
| CatalogV2.Catalog.ApplyNode | src/catalog/catalog_v2.c:200-229 | Applying a node replaces it unless its stamp is older, moves the name, and advances the clock past the stamp |
| CatalogV2.Catalog.CreateEntity | src/catalog/catalog_v2.c:348-417 | A create answers Inval, NotFound, Schema or Exists for the first of these conditions on the old nodes that fails: a name; a live database, group and, for a child, super table; as many tag values as the parent has tag columns; a name not taken in that database. Passing all of them it fails only if an id was to be minted and was not, and otherwise stores exactly the caller's entity, stamped, with one record, under the caller's id or the minted one; the catalog stays valid if and only if no live entity hangs off that id and the new one does not hang off itself |
| CatalogV2.Catalog.DropSubtree | src/catalog/catalog_v2.c:488-504 | The recursive drop ends, tombstones exactly the live entities that hang off the dropped one, through the database of a group, the super table of a child, the group of another table or its database if it has none, logs each once with consecutive stamps, and changes nothing else |
| CatalogV2.Catalog.DropKids | src/catalog/catalog_v2.c:488-504 | The loop over the collected children drops exactly their subtrees |
| CatalogV2.Catalog.Children | src/catalog/catalog_v2.c:488-504 | The scan collects each live entity whose cascade parent is the given one, once |
| CatalogV2.Catalog.Drop | src/catalog/catalog_v2.c:506-512 | A drop succeeds exactly on a live entity; it takes that entity and exactly the live groups, tables and children that hang, by those fields, off something it takes, and keeps the catalog valid |
| CatalogV2.Catalog.Rewrite | src/catalog/catalog_v2.c:276-296 | Compaction lists every node once and leaves memory alone |
| CatalogV2.Catalog.Count | src/catalog/catalog_v2.c:514-524 | The scan counts the live entities |
| CatalogV2.CheckMeans | src/catalog/catalog_v2.c:348-417 | The checks of a create in order, each with its status: a name, a live database, group and super table, matching tag counts, and no live entity of the same sort with that name in that database; a create that passes all of them is accepted |
| CatalogLimits.DropKeepsOtherNames | src/catalog/catalog_v2.c:478-512 | After a drop the name index answers for exactly the names outside the dropped subtree, with the same ids |
| CatalogLimits.DatabasesStayLiveExactlyUnderDb | src/catalog/catalog_v2.c:465-512 | Every drop leaves each live entity's database live if and only if each live entity hangs below its own database |
| CatalogLimits.CreateKeepsUnderDb | src/catalog/catalog_v2.c:394-417 | A create under any id that may be given keeps that property if and only if the new entity is a database, names itself, or has a cascade parent below the database it names |
| CatalogLimits.ForeignChildIsAccepted | src/catalog/catalog_v2.c:394-417 | The create checks accept a child whose parent lies below another database, so the property can be lost |
| CatalogLimits.DropKeepsUnderDb | src/catalog/catalog_v2.c:488-512 | Where each entity hangs below its own database, a drop keeps that and leaves every database of a live entity live |
| CatalogLimits.ReusedOidStaysGrounded | src/catalog/catalog_v2.c:353-368 | A create under a caller's id already in use leaves every chain of parents ending at a database if and only if the new parent does not lie below that id |
| CatalogLimits.ReusedOidCanCycle | src/catalog/catalog_v2.c:353-368 | The checks accept a reused id that closes a cycle |
| DropRecursion.DropsEndExactly | src/catalog/catalog_v2.c:353-512 | After a create under any id, used or not, every recursive drop ends if and only if the new entity is a database or its cascade parent does not already hang off that id; otherwise the drop of that id does not end, in whatever order children are listed |
| DropRecursion.CycleNeverEnds | src/catalog/catalog_v2.c:488-504 | On a cycle of parents no depth of recursion is enough, and no other drop breaks the cycle |
| DropRecursion.GroundedEnds | src/catalog/catalog_v2.c:488-504 | Where every live entity climbs to a database, the recursive drop of anything ends |
| DropRecursion.ReuseClosesCycle | src/catalog/catalog_v2.c:353-368 | If the new entity's parent hangs off the id it is given, the entities between become a cycle |
| DropRecursion.DropTakes | src/catalog/catalog_v2.c:488-504 | On any nodes at all, with stamps in any order, a recursive drop that ends has marked exactly what hangs off the entity and changed nothing else |
| DropRecursion.DropsTakeExactly | src/catalog/catalog_v2.c:353-512 | After a create under any id that closes no cycle, every drop ends and takes exactly what hangs off the dropped entity, also where the re-used id put stamps out of order |
| DropRecursion.LeadsIsReaches | src/catalog/catalog_v2.c:465-504 | In a forest that is the subtree the catalog's own drop takes |
| OidAllocator.Unpack | include/catalog_id.h:41-45 | Packing and unpacking node and sequence number are inverse, the sequence taken modulo 2^48 |
| OidAllocator.MakeCollides | include/catalog_id.h:41-45 | Two ids are equal exactly when nodes are equal and sequences agree modulo 2^48 |
| OidAllocator.StepsKeepOk | src/catalog/catalog_id.c:26-80 | In every history of mints, observations, failed writes, crashes and restarts the stored high-water mark stays at or above every sequence handed out |
| OidAllocator.StepKeepsOk | src/catalog/catalog_id.c:26-80 | Each single step keeps that mark right |
| OidAllocator.MintIsNew | src/catalog/catalog_id.c:26-80 | After any such history a successful mint below 2^48 returns an id never minted before, not observed since the restart, not reserved, and of no other node |
| OidAllocator.MintRepeatsExactly | src/catalog/catalog_id.c:26-80 | In every state a history reaches, a successful mint equals the id of an earlier minted or observed sequence number if and only if the two agree modulo 2^48, and never equals an id of another node |
| OidAllocator.MintIsReservedExactly | src/catalog/catalog_id.c:26-80 | A mint returns an id below the first user id if and only if the node is 0 and the next sequence number modulo 2^48 is below it; never while the sequence fits 48 bits |
| OidAllocator.MintReturnsReservedId | src/catalog/catalog_id.c:50-80 | Observing the last 48-bit sequence number of node 0 and minting once makes the next mint return the reserved id of the default database |
| OidAllocator.MintRepeatsPastLimit | src/catalog/catalog_id.c:50-80 | On every node: one id minted, the last 48-bit number observed, 1024 more mints, and the first id is minted again |
| OidAllocator.Allocator.constructor | src/catalog/catalog_id.c:26-48 | Opening resumes from the stored high-water mark, and from 1024 if that is lower |
| OidAllocator.Allocator.Next | src/catalog/catalog_id.c:50-65 | A mint takes the next number, writing a mark 4096 above it first when the reserved ones are used up; if that write fails it hands out nothing and changes nothing |
| OidAllocator.Allocator.Note | src/catalog/catalog_id.c:67-80 | An observed id of this node moves the next sequence number just past it, any other changes nothing |
| OidAllocator.BlockLasts | src/catalog/catalog_id.c:50-65 | One write of the high-water mark lasts for exactly 4096 mints, with consecutive sequence numbers; then a mint that cannot write hands out nothing |
| OidAllocator.RestartSkips | src/catalog/catalog_id.c:26-80 | After any history a restart resumes above every number minted and skips at most 4096 |
| HashTable.MovableMeans | src/catalog/catalog_v2.c:68-81 | The wrap-around test of the backward shift holds exactly when the entry's home lies at or before the hole on the line cut open at a free slot |
| HashTable.ShiftMove | src/catalog/catalog_v2.c:68-81 | Moving an entry into the hole keeps every other key's probe chain unbroken |
| HashTable.ShiftSkip | src/catalog/catalog_v2.c:68-81 | Leaving an entry whose home lies past the hole keeps every chain unbroken |
| HashTable.ShiftDone | src/catalog/catalog_v2.c:68-81 | At the first free slot all chains are whole again |
| HashTable.HashTable.Get | src/catalog/catalog_v2.c:59-67 | A lookup ends and answers as the map does |
| HashTable.HashTable.Grow | src/catalog/catalog_v2.c:36-46 | Doubling keeps the map and leaves room |
| HashTable.HashTable.Put | src/catalog/catalog_v2.c:47-58 | A put, doubling the table at seven tenths or not, is a map update |
| HashTable.HashTable.Delete | src/catalog/catalog_v2.c:68-82 | A delete with backward shift removes that key from the map and no other, in place, whatever the wrap-around |
| HashTable.HashTable.ShiftBack | src/catalog/catalog_v2.c:68-81 | The shift loop ends with the same contents and a well-formed table |
| CatalogIndex.RenderedGet | src/catalog/catalog_v2.c:189-197 | A printed key is in the table exactly when the key is in the index |
| CatalogIndex.RenderedPut | src/catalog/catalog_v2.c:189-208 | Putting under a printed key changes that key of the index and no other |
| CatalogIndex.RenderedDelete | src/catalog/catalog_v2.c:189-208 | Deleting a printed key removes that key of the index and no other |
| CatalogIndex.Index.NodeByOid | src/catalog/catalog_v2.c:194-197 | Finds the entity of an object id exactly when there is one, with the fields the map of nodes gives it |
| CatalogIndex.Index.OidByName | src/catalog/catalog_v2.c:442-456 | Answers the object id of a live entity of that name, as the map of names says, or none |
| CatalogIndex.Index.ApplyNode | src/catalog/catalog_v2.c:209-229 | On the one hash table, with entities changed in place, does to nodes, names and clock exactly what the model's apply does |
| CatalogIndex.Index.DropNode | src/catalog/catalog_v2.c:478-481 | Unlinks the name and marks the entity in place, exactly as the model's single drop does to nodes, names and clock |
| CatalogIndex.Index.Overwrite | src/catalog/catalog_v2.c:213-217 | Overwriting in place replaces the old name by the new one and leaves every other entity and name alone |
| CatalogIndex.Index.Children | src/catalog/catalog_v2.c:491-499 | Scanning the buckets collects each live child once |
| CatalogIndex.Index.EmitNodes | src/catalog/catalog_v2.c:276-289 | Scanning the buckets writes one record for every entity, live or not, in an order that lists each once |
| V1Table.ReinsertStep | src/catalog/catalog.c:146-174 | Taking an entry out of the cluster and putting it at its first free slot keeps every chain unbroken |
| V1Table.TracedStaysAbove | src/catalog/stable_catalog.c:120-147 | No entry ends below the deleted slot unless it was there before, also when the cluster wraps |
| V1Table.LandsAfterHole | src/catalog/stable_catalog.c:120-147 | A reinserted entry lands at or after the hole on the line cut open at a free slot |
| V1Table.V1Table.Get | src/catalog/catalog.c:134-144 | A lookup ends and answers as the map does |
| V1Table.V1Table.Put | src/catalog/catalog.c:114-132 | A put, doubling the table at seven tenths or not, is a map update |
| V1Table.V1Table.Grow | src/catalog/catalog.c:98-112 | Rehashing keeps the map |
| V1Table.V1Table.Delete | src/catalog/catalog.c:146-174 | Deleting by reinserting the cluster removes that key from the map and no other, the same map the backward shift gives, and sinks no entry below the deleted slot |
| V1Table.V1Table.ReinsertCluster | src/catalog/catalog.c:157-172 | The reinsertion loop ends at a free slot with the same contents, a well-formed table, and nothing sunk below the hole |
| NameLog.CompactionKeepsStateAndEvidence | src/catalog/catalog.c:415-470 | Compaction in any bucket order keeps the replayed live map and, for every name not live, whether the log holds a tombstone for it |
| NameLog.PutsReplay | src/catalog/catalog.c:438-470 | The creates written in bucket order replay to exactly the listed entries |
| NameLog.KeepDropsEvidence | src/catalog/catalog.c:415-436 | The kept tombstones are those of exactly the dropped names that are not live |
| NameLog.KeptDropsAreNoOps | src/catalog/catalog.c:415-436 | Re-emitting those tombstones after the creates changes nothing that replays |
| NameLog.PutKeepsLogOk | src/catalog/catalog.c:533-549 | A logged create keeps the log's replay equal to memory and its tombstones equal to the names ever dropped |
| NameLog.DropKeepsLogOk | src/catalog/catalog.c:569-586 | So does a logged drop |
| NameLog.DropsKeepLogOk | src/catalog/stable_catalog.c:507-543 | So does a list of drops, as a cascade writes it |
| NameLog.CompactKeepsLogOk | src/catalog/catalog.c:438-470 | So does a compaction |
| NameLog.ReplayIsLast | src/catalog/catalog.c:735-795 | A name is live after replay exactly if its last record is a create, with what that create says |
| NameLog.KeepDropsEach | src/catalog/catalog.c:415-436 | Every tombstone of a name that is not live is kept in its place, and nothing else |
| BucketLog.ListBuckets | src/catalog/stable_catalog.c:303-349 | The bucket scan lists every live entry once, in bucket order |
| BucketLog.KeepTombstones | src/catalog/catalog.c:415-436 | The loop keeps exactly the tombstones of names that are not in the table |
| BucketLog.Compact | src/catalog/stable_catalog.c:303-349 | The log rewritten from the bucket table lists every live entry once, replays to the same map, and holds a tombstone for a name not live exactly when the old log did |
| Stables.ReplayHasNoOrphans | src/catalog/stable_catalog.c:403-463 | Whatever the two logs hold, replay yields no child whose stable is not live |
| Stables.ReplayUnderFilters | src/catalog/stable_catalog.c:403-463 | Replaying children under the live stables is replaying them all and then filtering, for logs a catalog writes |
| Stables.ReopenRestores | src/catalog/stable_catalog.c:351-463 | Replaying all stable records and then all child records gives back the interleaved state; which records the text of the logs gives back is in RawLines |
| Stables.CrashedDrop | src/catalog/stable_catalog.c:507-543 | After a crash at any point of a stable's drop the reopened catalog shows exactly the children of other stables |
| Stables.CrashedDropReturns | src/catalog/stable_catalog.c:507-543 | While the child log is not compacted, a stable created again under that name brings back, at the next opening, exactly the children whose tombstones were not written; none comes back if and only if all were |
| Stables.CompactedDropStays | src/catalog/stable_catalog.c:327-349 | If the reopened catalog compacts its child log first, none comes back |
| Stables.Catalog.constructor | src/catalog/stable_catalog.c:351-463 | Opening on records replays stables first, then children under the live stables; on the records of a catalog it yields that catalog, valid, with all its children |
| Stables.Catalog.CreateStable | src/catalog/stable_catalog.c:467-487 | Answers Inval for a missing name, no or more than 64 columns, more than 16 tag columns or a timestamp column out of range, Schema if that column is not a timestamp, Exists for a live name; otherwise adds exactly the stable, its creation time filled in if 0 |
| Stables.Catalog.CreateChild | src/catalog/stable_catalog.c:585-603 | Statuses in the order checked, among them the tag count; a success adds exactly the child, its creation time filled in if 0 |
| Stables.Catalog.DropChild | src/catalog/stable_catalog.c:645-656 | Removes exactly that child and logs it once |
| Stables.Catalog.DropIfChildless | src/catalog/stable_catalog.c:545-563 | Drops a stable exactly when no live child names it |
| Stables.Catalog.DropStable | src/catalog/stable_catalog.c:507-543 | Drops the stable and exactly its children, each logged once, and keeps memory equal to the replay of the logs |
| Stables.Catalog.DropChildrenOf | src/catalog/stable_catalog.c:515-535 | Deleting while scanning the same table, re-reading the slot just deleted, ends and removes all children of the stable and no others |
| Stables.Catalog.DeleteAt | src/catalog/stable_catalog.c:515-535 | A deletion leaves the slots already scanned free of children of the stable, because no entry sinks below the scan index |
| Stables.Catalog.CompactChildren | src/catalog/stable_catalog.c:327-349 | Rewrites the child log from its bucket table without changing its replay or its evidence of drops |
| Stables.Catalog.CompactStables | src/catalog/stable_catalog.c:303-325 | Rewrites the stable log from its bucket table without changing its replay or its evidence of drops |
| Stables.ReplayUnderIsRooted | src/catalog/stable_catalog.c:404-463 | Replaying any child log under the live stables is replaying it without the creates of children whose stable is not live |
| RawLines.ChildReadsBack | src/catalog/stable_catalog.c:188-221 | A child's line reads back as the child if and only if no name, symbol tag or ancestor holds a tab or line end, the line does not end in a carriage return, and every tag is of a type the writer names, a float being one its six printed digits give back |
| RawLines.StableReadsBack | src/catalog/stable_catalog.c:163-186 | A stable's line reads back as the stable if and only if no text holds a tab or line end, no column name a colon, and the line does not end in a carriage return |
| RawLines.ChildLineGives | src/catalog/stable_catalog.c:403-463 | What any child without tabs and line ends comes back as: carriage returns off the end of its line, unnamed tag types gone |
| RawLines.StableLineGives | src/catalog/stable_catalog.c:351-401 | What any stable without tabs and line ends comes back as: column names cut at their first colon |
| RawLines.ReadChildIsPlain | src/catalog/stable_catalog.c:403-463 | Whatever a file holds, no text of a child read from it holds a tab or line end |
| RawLines.TabDoesNotOpen | src/catalog/stable_catalog.c:423-428 | A child with a tab in the first of two symbol tags writes a corrupt line, and the catalog does not open |
| RawLines.ChildFileBack | src/catalog/stable_catalog.c:188-221 | A child log of creates that read back and drops of plain names is read as the records written |
| RawLines.StableFileBack | src/catalog/stable_catalog.c:163-186 | So is a stable log |
| RawLines.FilesReopen | src/catalog/stable_catalog.c:351-463 | Opening on two such files restores the catalog that wrote them |
| RawLines.SplitJoined | src/catalog/stable_catalog.c:150-159 | This file's split gives back joined fields, if none holds a tab and the last is not empty |
| RawLines.ListBack | src/catalog/stable_catalog.c:369-385 | Fields that each read as something are read one by one, and the rest is left |
| GroupDevices.SplitReplay | src/catalog/catalog.c:735-862 | For every sequence of group and device lines in which a group drop follows the tombstones of its devices, replaying all group lines and then all device lines shows the groups and devices the interleaved execution showed, with re-created groups and last-seen updates |
| GroupDevices.UntombstonedDeviceReturns | src/catalog/catalog.c:1262-1293 | Without its tombstone the device of a dropped group comes back when the group is re-created |
| GroupDevices.SameReplay | src/catalog/catalog.c:797-862 | Device replay does not depend on which empty index entries the group replay left |
| GroupDevices.EntrySame | src/catalog/catalog.c:735-795 | Replaying a group line never changes what is seen of any group's devices |
| GroupDevices.Catalog.Reopen | src/catalog/catalog.c:735-862 | Opening on the two logs gives the same groups and the same visible devices as the catalog that wrote them |
| GroupDevices.Catalog.GroupCreate | src/catalog/catalog.c:1192-1219 | Adds exactly the group, its creation time filled in if 0 and 3 replicas if it asks for none, and shows no devices in it |
| GroupDevices.Catalog.GroupDrop | src/catalog/catalog.c:1262-1293 | Removes exactly the group and its devices, logs one tombstone for each device in bucket order and then one for the group, and keeps the logs replaying to memory |
| GroupDevices.CrashedGroupDrop | src/catalog/catalog.c:1271-1287 | After a crash behind any number of the cascade's tombstones the logs replay to a catalog with every device filed under its own live group, only the devices logged so far gone, and the group's own tombstone may follow if and only if all were written |
| GroupDevices.Catalog.LogRemoves | src/catalog/catalog.c:1271-1280 | The scan of the device buckets logs one tombstone per device; together they replay to the group without devices |
| GroupDevices.Catalog.DeviceCreate | src/catalog/catalog.c:1297-1332 | Statuses in the order checked; a success adds exactly the device, its first and last seen times filled in if 0 |
| GroupDevices.Catalog.DeviceGet | src/catalog/catalog.c:1334-1345 | Answers as the group's devices say |
| GroupDevices.Catalog.DeviceDrop | src/catalog/catalog.c:1404-1419 | Removes exactly that device |
| GroupDevices.Catalog.DeviceTouch | src/catalog/catalog.c:1421-1435 | Changes exactly one device's last-seen time |
| GroupDevices.Catalog.CompactGroups | src/catalog/catalog.c:1167-1190 | Rewrites the group log from its bucket table without changing its replay or its evidence of drops |
| LogText.EncodeLoop | src/catalog/catalog.c:188-200 | The encoding loop computes the encoding, cut where five bytes are no longer free |
| LogText.RoundTrip | src/catalog/catalog.c:188-224 | Decoding an encoded string gives it back if and only if neither buffer cuts it: all but its last byte leave five bytes free, and it fits the target |
| LogText.DecodeEncoded | src/catalog/catalog.c:188-224 | What comes back is exactly the part that was encoded and fits |
| LogText.WideBufferSuffices | src/catalog/catalog.c:188-200 | A buffer of three bytes per byte and two more never cuts |
| LogText.DocumentedSizeCuts | src/catalog/catalog.c:187-200 | The documented size, three bytes per byte and one more, does cut a string of escaped bytes |
| LogText.LongNameIsCut | src/catalog/tmq.c:127-135 | A 63-byte name can outgrow the 128-byte buffers and comes back cut |
| LogText.SplitJoined | src/catalog/catalog.c:698-708 | Splitting joined fields that hold no tab gives back the fields, as many as are asked for |
| LogText.EncodedIsPlain | src/catalog/catalog.c:188-200 | No encoded field holds a tab or a line end |
| LogText.NumberBack | src/catalog/catalog.c:619-654 | A printed number reads back as itself |
| LogText.LineReadsBack | src/catalog/catalog.c:619-708 | A record of marks, numbers and texts, each text with its own two buffers, is one line, splits into its fields, and reads back as the same record if and only if no text is cut |
| LogText.GroupLineReadsBack | src/catalog/catalog.c:619-776 | A group line is one line, and the replay reads the same group from it if and only if the encoded name and database fit their 128 bytes; region, codec profile and tags are never cut, and a line of the older shape reads back without a database |
| LogText.DeviceLineReadsBack | src/catalog/catalog.c:653-862 | Every device line, of a create, a drop or an update, is one line and reads back as what was written: its buffers are wide enough |
| LogText.Escapes | src/catalog/catalog.c:188-200 | Tab, line feed, carriage return, space and percent are written as a percent sign and two upper-case hexadecimal digits, every other byte as itself |
| LogText.DecodeFront | src/catalog/catalog.c:210-224 | Of any text a percent sign with two hexadecimal digits decodes to that byte, or ends the text if that byte is 0; anything else stands for itself |
| Decimals.DecimalReadsBack | src/catalog/catalog_v2.c:189-192 | A printed id reads back as itself and has no leading zero |
| Decimals.ScanIsValue | src/catalog/catalog.c:765-769 | Reading digits from the left gives the value of the number |
| IndexKeys.RenderIsInjective | src/catalog/catalog_v2.c:189-192 | Different ids and names never share a text key of the index, so the index is a set of separate maps |
| Bytes.LEFields | cli/tsdb_wire.h:291-310 | The bytes of 32-bit and 64-bit fields, least significant first |
| CatalogCodec.MetaBack | src/catalog/catalog_v2.c:130-186 | Deserializing a serialized database, group or table of in-bound fields, whatever follows it, gives the same entity and leaves what follows |
| CatalogCodec.BodyBack | src/catalog/catalog_v2.c:231-274 | A record body reads back as the record |
| CatalogCodec.RecordFitsBuffer | src/catalog/catalog_v2.c:231-241 | No record exceeds 6746 of the buffer's 8192 bytes |
| CatalogCodec.ReadLog | src/catalog/catalog_v2.c:243-274 | The replay loop reads the records that parse, skips one that does not, and stops at the end, at an implausible length or at a torn record |
| CatalogCodec.WholeIsLongest | src/catalog/catalog_v2.c:243-274 | The number of whole records in a cut log is that of its longest prefix that fits |
| CatalogCodec.TornLogReadsWholeRecords | src/catalog/catalog_v2.c:231-274 | A log cut after any number of bytes reads as exactly its whole records |
| CatalogCodec.LogReadsBack | src/catalog/catalog_v2.c:231-274 | A whole log reads back as the records written |
| CatalogCodec.CrashAtAnyByteIsReopen | src/catalog/catalog_v2.c:231-274 | A crash that keeps any number of bytes past the last compaction reopens into a well-formed state, one the catalog had some records ago |
| CatalogCodec.MetaExactly | src/catalog/catalog_v2.c:110-186 | Deserializing gives an entity if and only if the bytes are the serialization of that entity, of in-bound fields, and what follows; only the kind byte of a table is not checked |
| CatalogCodec.ReadIsOk | src/catalog/catalog_v2.c:110-186 | Whatever bytes a log holds, an entity read from it fits its struct |
| CatalogCodec.RecordLayout | src/catalog/catalog_v2.c:231-241 | A record is its length, + or -, 0, 1 or 2 for database, group or table, two zero bytes, object id and stamp; a tombstone ends there |
| CatalogCodec.KindLayout | src/catalog/catalog_v2.c:141-146 | The kind byte is 0 for a plain table, 1 for a super table, 2 for a child |
| CatalogCodec.BodyMeans | src/catalog/catalog_v2.c:243-274 | A body of less than 20 bytes or with a payload that does not parse is passed over, and one that does not start with + is a tombstone |
| CatalogCodec.LogMeans | src/catalog/catalog_v2.c:243-274 | Replay ends at a length below 18 or over 16 MiB or at a cut record, and goes on after one that it passes over |
| DedupSlot.RecordMeans | src/cluster/dedup.c:162-197 | Recording adds exactly the new number or nothing; EXISTS exactly for known numbers; FULL exactly for an unknown number out of order with a full window; the gaps stay sorted, above a hole and within the window |
| DedupSlot.AdvanceMeans | src/cluster/dedup.c:211-242 | Advancing adds exactly the numbers up to the new frontier and never moves back |
| DedupSlot.AbsorbMeans | src/cluster/dedup.c:150-160 | Absorbing changes nothing that is known and leaves a hole above the frontier |
| DedupSlot.KnownDetermines | src/cluster/dedup.h:19-32 | The known numbers determine frontier and gaps |
| DedupSlot.FrontierIsLongestRun | src/cluster/dedup.h:89-91 | The frontier is the length of the longest unbroken run of known numbers from 1 |
| DedupRun.StepKeepsOk | src/cluster/rpc.c:530-626 | Each locked section of the receiver is a step, so deliveries overlap: asking, committing, discarding, noting, base promises, checkpoints, log truncation, other streams filling the ledger's table, and restarts. A step keeps the ledger exact, every batch applied at most once and every batch in flight once if and only if it does not admit a number already in flight, does not note one into a full window or a full table, and is not a restart that lost log records above the checkpoint, whose log does not fit the window, or that finds no entry |
| DedupRun.UnsafeAppliesTwice | src/cluster/rpc.c:530-626 | After any other step some deliveries of one batch apply that batch twice |
| DedupRun.RunKeepsOk | src/cluster/dedup.h:19-43 | Every run of such steps, all of them safe, keeps the ledger exact and every batch applied at most once |
| DedupRun.UnsafeRunAppliesTwice | src/cluster/dedup.h:19-43 | Every run that is not safe throughout starts like a run that applies a batch twice |
| DedupRun.StepKeepsRows | src/storage/db.c:2400-2423 | No step loses the rows of an applied batch, except a restart: replay passes over a logged batch under the checkpointed frontier, so it loses none if and only if all of those are in partition files |
| DedupRun.EarlyCheckpointLosesRows | src/storage/db.c:2400-2423 | A checkpoint of a batch that was not flushed: after a restart its rows are gone and its number is answered with EXISTS |
| DedupRun.ExistsOnlyForApplied | src/cluster/dedup.h:77-91 | EXISTS is answered for every noted number and, beyond what the sender settled, only for applied ones; the frontier is the longest run of numbers noted or told; the gaps are exactly the noted numbers above it |
| DedupRun.RecoverIsExact | src/cluster/dedup.h:142-163 | Restoring the checkpointed frontier and re-recording a log knows exactly its numbers again if and only if, at each point of the log, at most a window of its numbers lies above a hole |
| DedupRun.RestartIsExact | src/storage/db.c:2706-2812 | After a restart the ledger knows exactly the numbers ever applied if and only if every applied number above the saved frontier is still in the truncated log and that log fits the window; which rows are there is StepKeepsRows |
| DedupRun.SafeRestartRestores | src/cluster/dedup.h:142-163 | With such a log and a checkpoint no older than the last base promise a restart restores exactly the same frontier and gaps |
| DedupRun.FreshCheckpointRestores | src/cluster/dedup.h:142-163 | While nothing was truncated or refused and the restart finds an entry, a checkpoint no older than the last base promise is enough for that |
| DedupRun.TracksStays | src/cluster/rpc.c:530-626 | While the log is not truncated, every safe delivery, question, base promise, checkpoint and restart keeps the log covering what was applied and fitting the window |
| DedupRun.WriteTracks | src/cluster/rpc.c:530-626 | So does a whole write of a number not in flight into a window that is not full |
| DedupRun.SmallLogFits | src/cluster/dedup.h:142-163 | A log with at most a window of numbers above the checkpoint always fits |
| DedupRun.WindowsShrink | src/cluster/dedup.h:142-163 | A newer checkpoint never makes recovery harder |
| DedupRun.GapsAreWindow | src/cluster/dedup.h:19-32 | The gaps are the known numbers above a hole, no more and no fewer |
| DedupRun.OverlapAppliesTwice | src/cluster/rpc.c:532-624 | Two overlapping deliveries of any one batch both find it not seen and both apply it, with an empty window and no restart |
| DedupRun.FullTableAppliesTwice | src/cluster/rpc.c:612-626 | With no entry left in the ledger's table every retry of any batch is applied again, whatever the window, with no overlap and no restart |
| DedupRun.FullWindowAppliesTwice | src/cluster/rpc.c:612-626 | A batch written into a full window is applied again on retry, because FULL is only counted |
| DedupRun.StaleCheckpointAppliesTwice | src/cluster/dedup.h:142-163 | A checkpoint older than a base promise can make recovery refuse a logged number, which a retry then applies again |
| DedupRun.TruncatedLogAppliesTwice | src/storage/db.c:2706-2812 | A log truncated at a flush while a batch lies above a hole makes a restart forget that batch, which a retry then applies again |
| DedupRun.StepMeans | src/cluster/rpc.c:530-626 | What each event does to what is applied, logged, asked, noted and known: a delivery applies its batch exactly if it is unknown and not refused, a base promise makes exactly the numbers below it known, a checkpoint stores the frontier, a flush empties the log |
| DedupLedger.GapFind | src/cluster/dedup.c:128-137 | The binary search finds a number exactly if it is there, and otherwise its place |
| DedupLedger.AbsorbRun | src/cluster/dedup.c:150-160 | The absorbing walk and one move compute the absorbed stream |
| DedupLedger.Covered | src/cluster/dedup.c:221-222 | The walk counts the gaps a frontier covers |
| DedupLedger.SlotUpdate | src/cluster/dedup.c:105-125 | Replacing a stream's entry changes no other stream |
| DedupLedger.ZeroForgotten | src/cluster/dedup.c:111-125 | When a new stream takes the first free entry, what was recorded there for stream 0 is gone |
| DedupLedger.Open | src/cluster/dedup.c:80-94 | Opening gives a ledger that knows nothing of any stream, or none without streams or window |
| DedupLedger.Ledger.constructor | src/cluster/dedup.c:80-94 | A new ledger knows nothing of any stream, stream 0 included |
| DedupLedger.Ledger.Find | src/cluster/dedup.c:105-109 | The scan finds the first entry of a stream exactly if it has one |
| DedupLedger.Ledger.FindOrAdd | src/cluster/dedup.c:111-125 | For every stream, 0 included, yields its entry with what is known of it; a new stream takes the first free entry, cleared; nothing else changes |
| DedupLedger.Ledger.Seen | src/cluster/dedup.c:139-145 | Answers yes exactly for known numbers |
| DedupLedger.Ledger.RecordSeq | src/cluster/dedup.c:162-197 | For every stream, 0 included, statuses and new state are those of the per-stream record; no other stream changes |
| DedupLedger.Ledger.SetFrontier | src/cluster/dedup.c:211-231 | Advances exactly that stream, forward only |
| DedupLedger.Ledger.AdvanceBase | src/cluster/dedup.c:233-242 | Advances exactly that stream to the number before the base |
| DedupLedger.Ledger.RetryUnseen | src/cluster/dedup.c:105-167 | On the ledger itself: with no entry for the stream and none free, a number is refused and then not seen, and so it stays |
| Crc32c.Lookup | cli/tsdb_wire.c:154-160 | Eight steps of the register are a byte shift and one table entry |
| Crc32c.BuildTable | cli/tsdb_wire.c:144-152 | The double loop fills the table with eight steps from each index |
| Crc32c.Turn | cli/tsdb_wire.c:157-158 | One turn of the loop feeds one byte |
| Crc32c.Checksum | cli/tsdb_wire.c:154-160 | The table loop computes, from 0 and bit for bit, the complement of the remainder of the message and 32 zeros with the first 32 coefficients complemented; continued from an earlier checksum, the same with that checksum's complement added to the first 32 |
| Crc32c.FeedsAreBits | cli/tsdb_wire.c:144-160 | Feeding bytes through the table is feeding their bits one at a time |
| Crc32c.RegisterIsRemainder | cli/tsdb_wire.c:134-160 | The register after any bits is the remainder of a polynomial long division of them |
| Crc32c.FeedsAreRemainder | cli/tsdb_wire.c:134-160 | The register after any bytes is the remainder of their bits times x^32, adjusted by the start value |
| Crc32c.PolyIsCastagnoli | cli/tsdb_wire.c:134-151 | The reflected constant is the Castagnoli polynomial 0x1EDC6F41 of section 12.1 of RFC 3720 |
| Crc32c.CrcConcat | cli/tsdb_wire.c:154-160 | Checksumming in pieces is checksumming the concatenation |
| Crc32c.ShiftInjective | cli/tsdb_wire.c:147-148 | A step of the register loses nothing |
| Crc32c.BurstChangesRegister | cli/tsdb_wire.c:154-160 | A change within 32 consecutive bits always changes the register |
| Crc32c.BurstChangesCrc | cli/tsdb_wire.c:154-160 | A change within four consecutive bytes, a single byte included, always changes the checksum |
| Crc32c.CrcIsRemainder | cli/tsdb_wire.c:154-160 | The checksum as the complement of a polynomial remainder, started from any checksum |
| CrcCheck.CheckValue | tests/test_client.c:266-276 | The nine bytes 123456789 have the checksum 0xE3069283 |
| Frames.HeadBack | cli/tsdb_wire.c:220-242 | A written header reads back as itself |
| Frames.HeadForth | cli/tsdb_wire.c:266-275 | Any 20 bytes read as a header write back as the same bytes |
| Frames.SentIsReceived | cli/tsdb_wire.c:233-312 | A sent frame with a payload up to 16 MiB, followed by anything, is received as sent and leaves the rest |
| Frames.ReceiveExactly | cli/tsdb_wire.c:259-312 | A receiver, checking the version or not, accepts a stream if and only if it starts with the wire form of a well-formed message, of version 1 if checked, and returns that message and the rest |
| Frames.ReceiversAgree | sdk/go/wire.go:179-218 | The Go receiver accepts exactly what the C receiver accepts at version 1, each being proved of its own method |
| Frames.FramesReceived | cli/tsdb_wire.c:233-312 | For both receivers any list of frames sent back to back is received as the same list |
| Frames.BurstRefused | cli/tsdb_wire.c:297-307 | A change within four consecutive bytes of the checksummed part that spares the length field is refused as a checksum error |
| Frames.EndsRefused | cli/tsdb_wire.c:264-307 | A changed checksum or magic is refused |
| Frames.Build | cli/tsdb_wire.c:233-256 | The frame is assembled as its wire form |
| Frames.Summed | cli/tsdb_wire.c:245-249 | The two-piece checksum is that of header and payload, an empty payload skipped |
| Frames.Conn.Send | sdk/go/wire.go:138-175 | Sends the wire form under the given or the next request id; an oversized payload sends nothing |
| Frames.Conn.Recv | sdk/go/wire.go:179-218 | Reads as the receive function says, and on success has consumed exactly the wire form of what it returns |
| Frames.Conn.RecvBody | sdk/go/wire.go:192-217 | Reads payload and checksum off the stream and compares |
| Frames.FieldsAt | cli/tsdb_wire.c:267-275 | The fields at their offsets of the 24-byte header are those of the header after the magic |
| Frames.SumsDiffer | cli/tsdb_wire.c:296-303 | Comparing checksums as numbers is comparing their bytes |
| Frames.Link.ReadAll | cli/tsdb_wire.c:186-217 | Reads exactly the bytes asked for, or fails when there are fewer |
| Frames.Link.FrameSend | cli/tsdb_wire.c:233-257 | The three writes put the wire form on the stream, whatever the size |
| Frames.Link.FrameRecv | cli/tsdb_wire.c:259-312 | The C receiver returns 0 if and only if the stream starts with the wire form of a well-formed message, and then that message, having consumed exactly it; -3 if and only if 24 bytes start with another magic; -2 if and only if a whole frame of allowed length has the wrong checksum; otherwise -1 |
| Frames.Link.ParseBody | cli/tsdb_wire.c:283-311 | Reads no payload when there is none, and otherwise payload, checksum and comparison as the receive function says |
| Frames.ReceiveErrors | cli/tsdb_wire.c:259-312 | What is refused and as what, by the bytes of the stream: fewer than 24, a magic other than TSDB, a version other than 1 if it is checked, a length over 16 MiB, fewer bytes than that, or a number after the payload that is not the checksum of all between magic and it |
| Frames.TrailerIs | cli/tsdb_wire.c:245-253 | The trailer is the checksum as a little-endian number |
| Frames.OctetsAre | cli/tsdb_wire.c:154-160 | The checksum is fed each byte's own bits |
| Frames.MagicBack | cli/tsdb_wire.c:233-243 | The magic is the four letters TSDB |
| Columns.WalksAgree | cli/tsdb_client.c:274-294 | Where the single pass over a symbol block succeeds, both restart-per-row walks show its strings, row by row |
| Columns.ReadStrings | sdk/go/client.go:660-671 | The Go loop reads the strings in one pass or fails where it would run out |
| Columns.WalkToRow | cli/tsdb_client.c:274-294 | The C loop walks to the row's string, or to the question mark |
| Columns.StringsBack | sdk/go/client.go:311-332 | Length-prefixed strings read back as written |
| Columns.EncodeBatch | sdk/go/client.go:273-347 | The encoder's loops produce the layout, and fail exactly if a column type is not 1 to 5 |
| Columns.EncodeWords | sdk/go/client.go:287-309 | A fixed-width column holds, in row order, each row's own timestamp, integer or float for that column, 0 if it has none |
| Columns.EncodeSymbols | sdk/go/client.go:311-332 | A symbol column reads as each row's own symbol in row order, cut at 65535 bytes, empty if it has none |
| Columns.ColBack | cli/tsdb_client.c:339-354 | The event parser locates a written column, name, type and exactly its bytes, if and only if its name is shorter than 256 bytes |
| Columns.LongColumnName | sdk/go/client.go:273-347 | Of a name of 256 bytes or more the parser, where it accepts the column, takes the first bytes, as many as the length modulo 256, and reads the next byte of the name as the type |
| Columns.InStepExactly | cli/tsdb_client.c:339-354 | Column after column the parser stands where each ends if and only if every name is shorter than 256 bytes |
| Columns.LongNameByAccident | cli/tsdb_client.c:319-390 | A long name can hold what looks like a header, and then the event is recovered although the parser is out of step; so the length of names is no exact condition for recovery |
| Columns.LongNameExample | sdk/go/client.go:273-347 | A 256-byte name of one letter is written with length 0 and comes back, if at all, as a column of unknown type |
| Columns.LongTableName | sdk/go/client.go:273-347 | With a table name of 256 bytes or more the row count, where the payload parses at all, is read out of the name |
| Columns.ShownWhole | cli/tsdb_client.c:368-384 | The C cell shows a symbol whole if and only if it has at most 511 bytes and no zero byte |
| Columns.CellBack | cli/tsdb_client.c:356-386 | A located column shows in every row the row's own value if and only if it is not of 32-bit floats, which the C client prints as the unsigned number their pattern is: its timestamp, its integer, its float, or its symbol up to the first NUL and 511 bytes; zero or empty if it has none |
| Columns.EventParses | cli/tsdb_client.c:319-354 | For names under 256 bytes and any number of columns, the parser accepts an encoded batch if and only if that number modulo 65536 is between 1 and 64, and locates that many columns |
| Columns.EventBack | cli/tsdb_client.c:319-390 | For names under 256 bytes parsing finds the same columns, types and row count and in every cell the row's own value if and only if there are between 1 and 64 columns and, unless there are no rows, none of 32-bit floats |
| Columns.ColAgrees | sdk/go/client.go:648-691 | The Go decoder accepts a column if and only if the C decoder locates it and its symbol block is whole; then the cells agree, if there are any, exactly for timestamps, integers, 64-bit floats and symbols |
| Columns.ChunksAgree | cli/tsdb_client.c:252-300 | The same for every list of columns |
| Columns.DecodersAgree | sdk/go/client.go:632-701 | On every chunk with rows and a header of 1 to 64 columns the Go decoder accepts if and only if the C decoder does and every symbol block is whole; then the cells of a column agree if and only if it holds timestamps, integers, 64-bit floats or symbols |
| Columns.DecodersPart | sdk/go/client.go:632-701 | Elsewhere: a chunk shorter than six bytes is refused by both, a chunk of no rows is always accepted by the C decoder and refused by the Go decoder when its column count is wrong, and more than 64 columns are refused by the C decoder |
| Columns.ColHeader | sdk/go/client.go:286-331 | A column starts with the length of its name modulo 256, the name, the type, codec 0 and the size of what follows |
| Columns.WalksPart | cli/tsdb_client.c:234-302 | Past a string that is cut off both walks show nothing; the cut-off string itself is shown, as far as it goes, by the chunk decoder alone |
| PipelineWriter.PathKeepsInv | sdk/go/client.go:438-532 | In every interleaving of writer and reader the semaphore's occupancy is the queued tokens plus the slots the two hold, every sent frame is announced once and received once, and no bad reply goes unrecorded |
| PipelineWriter.ReachableIsSound | sdk/go/client.go:438-532 | In every reachable state frames without a finished receive never exceed the window, announcing a frame and freeing a slot never block, and some step is possible until Close has returned |
| PipelineWriter.SomeStep | sdk/go/client.go:438-532 | There is no deadlock before Close has returned |
| PipelineWriter.ReaderStep | sdk/go/client.go:463-480 | A caller waiting for a slot or for Close has a reader that can step |
| PipelineWriter.SlotWaitShrinks | sdk/go/client.go:501-523 | While the caller waits for a slot every other step brings the reader closer to freeing one |
| PipelineWriter.CloseEnds | sdk/go/client.go:528-532 | Close returns after a bounded number of steps |
| PipelineWriter.AfterClose | sdk/go/client.go:528-532 | When Close has returned, every sent frame had exactly one receive attempt, nothing is queued or held, and there is an error if and only if a frame was not acknowledged or a send failed |
| PipelineWriter.ErrorStopsSending | sdk/go/client.go:482-523 | A recorded error stays, at most one more frame is sent after it, and a new Write returns without taking a slot |
| PipelineWriter.WindowFills | sdk/go/client.go:450-523 | Any number of frames up to the window can be sent before a reply is read; the next Write waits if and only if the window is full |
| WritePipeline.ReadAckMeans | sdk/go/pipeline.go:172-199 | A reply frees exactly the oldest batch, as acknowledged or rejected, if and only if it is that batch's answer, and otherwise kills the pipeline; a correct server's reply never kills it |
| WritePipeline.WriteMeans | sdk/go/pipeline.go:96-126 | Write returns nil for rows exactly when they were sent, once, last, under the next id. Below the depth it reads no reply and sends unless the send fails; at the depth it reads exactly one, the oldest batch's, and sends in its place if that was acknowledged, reports it and sends nothing if it was rejected, and dies otherwise. A dead or closed pipeline sends nothing and answers the same error |
| WritePipeline.DrainMeans | sdk/go/pipeline.go:132-151 | Flush survives if and only if every batch in flight is answered in order, and then reads exactly those replies; it returns nil exactly when all of them are acknowledgements, a rejection if there was one, and the fatal error otherwise |
| WritePipeline.DoMeans | sdk/go/pipeline.go:96-166 | One Write, Flush or Close that returns nil sent its batch, if it had one, and had nothing rejected; after a nil Flush or Close nothing is in flight; Close is Flush and closes, and is nil on a closed pipeline, on which the others fail |
| WritePipeline.SessionKeepsOk | sdk/go/pipeline.go:71-208 | Over any mix of Write, Flush and Close the ids in flight are the last ones handed out, in order and at most depth, and while alive sent is acknowledged plus rejected plus in flight |
| WritePipeline.AllNilMeansAllAcked | sdk/go/pipeline.go:96-166 | In any mix of Write, Flush and Close: if all calls and a final Flush return nil, every batch was acknowledged and none rejected; if only the final Flush does not, the pipeline was closed, is dead, or had a batch rejected |
| WritePipeline.InOrderNeverDesyncs | sdk/go/pipeline.go:180-185 | With an in-order server the desynchronised branch is unreachable in any session of any mix of calls |
| WritePipeline.ProperServerKeepsAlive | sdk/go/pipeline.go:96-199 | With a correct server that answers everything the pipeline never dies, whatever the mix of calls |
| WritePipeline.Writer.constructor | sdk/go/pipeline.go:71-88 | Opens with the depth given, or 64 if that is less |
| WritePipeline.Writer.ReadOneAck | sdk/go/pipeline.go:172-199 | Reads one reply as specified |
| WritePipeline.Writer.WriteBatch | sdk/go/pipeline.go:96-126 | Writes as specified and keeps the pipeline in order |
| WritePipeline.Writer.FlushAll | sdk/go/pipeline.go:132-151 | The drain loop computes the drain |
| WritePipeline.Writer.Shut | sdk/go/pipeline.go:156-166 | Closes once, with the error of the flush |
| Tmq.ReplayOk | src/catalog/tmq.c:178-291 | Every log, whatever it holds, replays to distinct groups with distinct members within the limits and round-robin owners |
| Tmq.ApplyKeepsOk | src/catalog/tmq.c:178-238 | Any single record keeps that |
| Tmq.LeftOk | src/catalog/tmq.c:217-229 | Leaving removes exactly that member, the last taking its place, and changes nothing else but the owners |
| Tmq.JoinedOk | src/catalog/tmq.c:203-215 | Joining appends exactly that member and changes nothing else but the owners |
| Tmq.NewGroupIsEmpty | src/catalog/tmq.c:178-191 | A new group has no members, unowned partitions, offsets at zero, and one to four partitions |
| Tmq.LoadIs | src/catalog/tmq.c:119-123 | The number of partitions a member owns under round robin |
| Tmq.RoundRobinBalances | src/catalog/tmq.c:119-123 | With members present partition p is owned by member p modulo their number and loads differ by at most one; without members none has an owner |
| Tmq.ApplyOffsets | src/catalog/tmq.c:178-238 | Only an offset record of that group changes its offsets, and sets exactly the partition it names, if there is one; one that passed the check never lowers them; swap-removes of other groups do not touch them |
| Tmq.OffsetsNeverDecrease | src/catalog/tmq.c:488-538 | In every log the service writes, offsets never decrease while their group lives |
| Tmq.CheckRise | src/catalog/tmq.c:520-526 | The check passes exactly when no affected offset is above the new one |
| Tmq.CommitStep | src/catalog/tmq.c:528-536 | Setting one offset in memory is what replaying its record does, if the commit affects that partition, and no record is written otherwise |
| Tmq.Service.Open | src/catalog/tmq.c:240-327 | Opening replays the log record by record |
| Tmq.Service.CreateConsumerGroup | src/catalog/tmq.c:341-377 | Statuses in the order checked; a success logs and appends one empty group, built apart from the replay, and memory stays the fold of the log |
| Tmq.Service.DropConsumerGroup | src/catalog/tmq.c:379-391 | Removes exactly that group, the last taking its place |
| Tmq.Service.Join | src/catalog/tmq.c:430-460 | Statuses in the order checked; a success adds the member and rebalances, memory staying the fold of the log |
| Tmq.Service.Leave | src/catalog/tmq.c:462-484 | Removes the member by swap-remove and rebalances, memory staying the fold of the log |
| Tmq.Service.Commit | src/catalog/tmq.c:488-538 | Sets exactly the partitions whose owner has that id, or all if none is named; it is refused, changing neither memory nor log, if and only if one of them is already past that number, and one cut short by the log has raised the first partitions in both |
| Tmq.Service.WriteOffsets | src/catalog/tmq.c:528-536 | The loop that logs and sets offsets one by one keeps memory the fold of the log wherever it stops |
| Tmq.ApplyIgnores | src/catalog/tmq.c:178-238 | Replay ignores every record that does not fit: a group or member that is there already or is not there, a full table or group, a partition out of range |
| Tmq.ApplyTakes | src/catalog/tmq.c:178-238 | A record that fits adds an empty group with its 1 to 4 partitions at 0, removes a group, appends a member, removes one, or sets one offset, and leaves every other group alone |
| Tmq.AffectsOwned | src/catalog/tmq.c:505-517 | A commit for a member affects exactly the partitions whose owner has that id, one for no member all of them |
| Mirror.Mirror | src/catalog/catalog_mirror.c:20-114 | For any v1 lists and a mint that may fail, the copy keeps the no-orphan invariant and every earlier name, and the live count rises by exactly the number mirrored; it ends early only at a database without a name or without an id |
| Mirror.AddMeans | src/catalog/catalog_v2.c:348-417 | A create through the v2 checks adds exactly one live entity under its name, or nothing; a failed mint counts as skipped |
| Mirror.TidyIsMirrored | src/catalog/catalog_mirror.c:14-114 | When minting never fails, names are present and unique, and each stable's group and each child's stable sit in its database, nothing is skipped and every new database and every group, stable and child is there with its parents, columns and tags |
| Mirror.HeldIsCopied | src/catalog/catalog_mirror.c:43-110 | What is there is a copy field by field: description, retention and protection of a database, region, codec, retention and replicas of a group, columns and tag columns of a stable and the group it was in, tag values of a child and the stable it was under; a creation time of 0 becomes now |
| Mirror.OpenedIsFresh | src/catalog/catalog_v2.c:299-313 | Opening an empty catalog leaves exactly default as entity 1 and sysdb as entity 2, both protected, which is the fresh catalog the mirror starts from |
| Mirror.GroupsMirrored | src/catalog/catalog_mirror.c:43-63 | Every group is created in its resolved database |
| Mirror.StablesMirrored | src/catalog/catalog_mirror.c:65-91 | Every stable is created as a super table in its database and group, with its columns and tag columns |
| Mirror.ChildrenMirrored | src/catalog/catalog_mirror.c:93-110 | Every child is created under its own stable with its tag values |
| Mirror.MirrorChildren | src/catalog/catalog_mirror.c:93-110 | A child whose stable is not found is skipped and counted |
| Mirror.MirrorDbs | src/catalog/catalog_mirror.c:27-41 | Databases are copied until one is refused, for an empty name or a failed mint, and its status is returned |
| Mirror.ChildSkippedExactly | src/catalog/catalog_mirror.c:93-110 | A child is skipped if and only if it has no name, its stable is not found by name as a super table with as many tag columns in the child's own database, or the default one when it names none, or no id can be minted |
| Mirror.InheritedDatabaseIsSkipped | src/catalog/catalog_mirror.c:93-98 | A child that leaves its database blank, to inherit its stable's, is skipped although its stable was mirrored, unless that database is the default one |
| Mirror.TidyIsCopied | src/catalog/catalog_mirror.c:14-114 | Mirroring such a catalog into a fresh one skips nothing and leaves, live, a copy of every database whose name is new and of every group, stable and child |
| Mirror.MetasMean | src/catalog/catalog_mirror.c:14-110 | What each v1 entry is turned into, whatever the v2 catalog holds: its own fields under the database its name leads to, or the default one; a stable in the group found there or in none; a child under the stable found there |

## Left out

- Sockets, polling, TLS, timeouts and reconnecting: a connection is the list of bytes, or of replies, that it will deliver; reads and writes that fail are inputs.
- Failing disk writes other than the allocator's and those of a consumer-group commit: the other operations are modelled with log appends that succeed.
- Locks and threads of the C code: each catalog, ledger and consumer-group call is one atomic step; the receiver of replicated batches is one step per locked section.
- FNV-1a and the mixing of stream ids: a table's home slots are an arbitrary function of key and capacity, so the results hold for every hash; that two streams do not share an id is the caller's.
- 64-bit wrap-around of Lamport clocks, request ids and sequence numbers; the 48-bit wrap-around of object ids is modelled.
- Appending to a v2 log after a torn tail: replay ignores the tail but does not remove it, so the claims are about one reading of a cut log.
- The digits of `%g` and `strtod`: `RawLines` takes any two functions for them, and a float tag reads back when they give its pattern back. The 8192-byte line buffer of those two logs is not modelled.
- CatalogV2.Catalog: holds nodes and names as two maps and lists them in any order; `CatalogIndex` proves what its one table does in their place. The two reserved databases appear only in `Mirror.OpenedIsFresh`.
- GroupDevices.Catalog.GroupDrop: takes the bucket table of the group's devices as a parameter, because the device index is a map of maps here.
- Mirror.Mirror: works on a value of the v2 state and takes object ids from any source of unused ones, because the allocator is a component of its own.
- Columns.EventBack: requires table and column names of less than 256 bytes, because a longer name may be recovered by accident (`Columns.LongNameByAccident`); `Columns.ColBack`, `Columns.InStepExactly` and `Columns.LongTableName` say what happens to them. Row counts or column data of 2^32 or more, whose 32-bit counts wrap, are not covered.
- Columns.EventParses: requires the same.
- Columns.DecodersAgree: does not cover a chunk that arrives without a header of columns, after which the C decoder reads column types that were never set.
- The file layout and fsync order of the dedup checkpoint: a checkpoint is the frontier it stores. Nothing in the server calls its save and load functions; `DedupRun` follows the protocol their header describes.
- Frames.BurstRefused: spares the length field, because a changed length makes the receiver checksum other bytes than were sent.
- Rendering of numbers as text in the C client, and column names beyond 127 bytes, which it cuts.
- Stream 0 of the dedup ledger beyond `DedupLedger.ZeroForgotten`: callers never use it.
- Databases of the v1 catalog: their log has the shape of `NameLog`, except that replay ignores a drop of `sysdb` and always marks that database protected, which is not modelled.
- The user, UDF and audit logs, migration, restore, Raft, the hash ring and automatic balancing.
