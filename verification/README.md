# Verified model of the novadb cluster plane, slot migration and record codecs

novadb keeps its keys in 16384 hash slots that are spread over the masters of a cluster. This project models the
parts of it in which many steps have to fit together, and proves what they promise over all inputs and all runs:

- the **control plane**: slot tables, current and config epochs, votes and promotion, the claims that pings and updates
  spread, the repair of epoch collisions, and the byte format and framing of the bus they travel on;
- **slot migration**: snapshot and binlog catch-up under client writes, hand-over of the ownership, task bookkeeping,
  batched transfer, and collection of the data left behind;
- **commands and codecs**: dump and restore of lists, the field counter of hashes, page-wise scans, and the two ways of
  deleting a key.

`dafny verify dfyconfig.toml` checks everything. Nothing here runs the original program.

## How it is built

| files | what they hold |
|---|---|
| `Names`, `ClusterView`, `ClusterBus` | node names; one node's knowledge and what every packet, cron action and command does to it, as functions; the cluster as a list of steps over all nodes and the packets in flight |
| `EpochBound`, `Election`, `ElectionLimits`, `CollisionRepair`, `Convergence` | theorems about whole runs of that cluster |
| `SlotMoves` | what announced roles, claims and handed slots mean for every node's slots |
| `ClusterState`, `SlotRanges` | the same operations in place, on node objects with bitmaps and counters and a table of references, each proved against its function; the two CLUSTER SLOTS scans |
| `BinlogReplay`, `CatchUp`, `HandOver`, `ClaimSpreads`, `MigrateTasks`, `SnapshotBatch`, `GarbageCollection` | migration, from the invariant of a replay to the loops and objects that keep it |
| `Bytes`, `BusCodec`, `BusMessage`, `BusFraming`, `Rdb`, `ZiplistDrift`, `ListDump` | byte formats and their round trips |
| `HashFields`, `RecordKeys`, `StoreScan` | commands on one key |

A node's view is a value (`ClusterView.View`), a run is a `seq<Step>`, and `ClusterBus.Apply` is total: a step that is not
enabled changes nothing. Packets may be delayed, reordered, repeated and lost; a vote is delivered at most once. The
class `ClusterState.ClusterState` has the fields that the program updates in place; its function `Seen` gives the view they
stand for, and every method says `Seen() == F(old(Seen()))` for the function `F` that the run theorems speak about.

What comes from outside the code is a parameter: clocks (`rested`, the step that lets an election expire), the network
(`Link.fates`, the pieces a socket delivers), other clients (`Source.arrivals`), locks that may not be granted, checksums, the
decoding of records, and the parsing of numbers.

## What turned out not to hold

The code is modelled as it is. Where it does not keep a promise, a lemma gives an input, and another says exactly when it
does keep it.

- **One winner per epoch.** The vote counter is cleared when an election is scheduled, and the election epoch is zero or an
  old one until votes are requested, so a late vote of an earlier election is counted in between. `IdleVotesElectTwo` is a
  run of five nodes with two winners of one epoch; `AtMostOneWinnerPerEpoch` needs that no vote arrives in that window, and
  `CleanExactlyIfNotIdle` says that a win rests on votes for its own epoch exactly if none did. A restart forgets the last
  vote (`RestartVotesTwice`).
- **The voter's slot check** compares with the request's current epoch, not its config epoch as the comment says, and then
  never refuses anybody (`SlotCheckNeverRefuses`).
- **Claims heard only through updates.** The header of an update already raises the known epoch of its sender, and an update
  about a known epoch is "nothing new". So the greatest claim can stay unheard (`HeaderHidesClaim`); it wins exactly if it
  was heard (`GreatestWinsExactlyIfHeard`), and a claimant's own ping is always heard (`PingIsHeard`).
- **Equal data after a migration.** A transaction that writes to a slot key and to anything else, such as the TTL index, or
  that deletes a range, is logged without a slot, and the sender passes such entries over. So a delete or a new expiry time
  can be missing on the destination although every message was acknowledged (`PassedOverWriteIsLost` is a run of the whole
  migration). On success the destination has exactly the snapshot and, on top of it, the entries of the migrated slots from
  the captured id on. A key is then what it is on the source if and only if its last write after the captured id was in an
  entry of its slot, or left what the last sent write, or else the snapshot, leaves (`MigrateData`,
  `AgreesExactlyIfNotLost`).
- **The half-done hand-over.** The sender takes its slots back when gossip has not shown the change in time. That is safe
  exactly if no claim is made or still under way (`ResolveIsSafeExactlyIfTimely`, `LateClaimIsUnsafe`).
- **Ziplists.** Whether the length of the previous entry takes one byte or five is decided by the entry's length when
  writing and by the string's length when reading. A dump is restored if and only if they always agree
  (`RestoresExactlyIfInStep`), and the lengths of the elements show it: in no ziplist may an element of 251 to 253 bytes,
  or one of 247 to 250 right behind one of 254 or more, have another behind it (`RestoresExactlyIfSteady`). Otherwise the
  reader lags four bytes behind the writer; it may still read the right strings, but only certain ones, and it never
  finds the end mark where it must stand (`ZiplistDrift`).
- **Zero bytes in primary keys.** The prefix of a key's elements ends with a zero byte, so a record of a key that contains
  one can lie inside another key. Then a walk stops early, and a range deletes too much (`ZeroByteKeysAreConfused`, for
  example with the keys "{a}" and "{a}\0", which share a slot). Which records do so can be told from the keys: the walk is
  exact if and only if none of them sorts in front of an element (`UndisturbedExactlyIfNoneAmong`), the range if and only
  if none of them sorts below the largest version (`RangeExactlyIfAlone`), which is the stricter condition
  (`RangeIsTheStricter`). Without zero bytes both always are (`BothPathsAreExact`).
- **Forgetting a node** loses its epoch: met again, it starts from zero (`MetAgainStartsFromZero`). All other epochs a node
  knows only ever grow (`RunGrows`).
- **The claim that ends a migration** is accepted by the source exactly if its epoch is above the holder's. A destination
  whose own epoch is the greatest it knows does not bump it, and then a holder with the same epoch keeps the slots until
  the collision is repaired (`HeardClaimIsAccepted`).
- **Refused migration requests** leave the bits marked before the conflict was seen; the bookkeeping stays right exactly if
  there were none (`StartTask`).
- **The two CLUSTER SLOTS scans** differ when a slot is held by a node that is not a master; they agree exactly if there is
  no such slot (`ScansAgreeExactlyIfMasters`).

## Model

| member | source | states |
|---|---|---|
| `EpochBound.ApplyKeepsBound` | src/novadbplus/cluster/cluster_manager.cpp:5562-5572 | whatever step is taken, no node then knows and no packet carries a config epoch above the current epoch that goes with it |
| `EpochBound.RunKeepsBound` | src/novadbplus/cluster/cluster_manager.cpp:3595-3637 | the bound holds after every run, for every node and every packet in flight |
| `EpochBound.RunGrows` | src/novadbplus/cluster/cluster_manager.cpp:5562-5572 | over every run, with forgetting among its steps, a node's current epoch, its last vote epoch and every config epoch it knows only grow, except those of nodes it is told to forget |
| `EpochBound.MetAgainStartsFromZero` | src/novadbplus/commands/cluster.cpp:473-495 | a node that is forgotten and met again is known with epoch zero, whatever it had |
| `EpochBound.BumpIsHighest` | src/novadbplus/cluster/cluster_manager.cpp:922-933 | after any run, a bump without consensus leaves the node's epoch at least every epoch it knows, and strictly above all of them when it increments |
| `EpochBound.RepairIsHighest` | src/novadbplus/cluster/cluster_manager.cpp:1083-1105 | after any run, a collision repair ends strictly above every epoch the node knows |
| `EpochBound.SlotCheckNeverRefuses` | src/novadbplus/cluster/cluster_manager.cpp:2809-2833 | in every reachable state, for every request in flight, the slot check of the voter lets it pass |
| `Election.GrantedVote` | src/novadbplus/cluster/cluster_manager.cpp:2748-2772 | a granted vote is for the voter's current epoch, equals the request's epoch, and is the first in it |
| `Election.MajoritiesMeet` | src/novadbplus/cluster/cluster_manager.cpp:3085 | two sets of at least half the voters plus one share a voter |
| `Election.DistinctSenders` | src/novadbplus/cluster/cluster_manager.cpp:2763-2772 | votes for one epoch come from as many nodes as there are votes |
| `Election.CleanWinsAgree` | src/novadbplus/cluster/cluster_manager.cpp:3274-3285 | two wins in one epoch that rest on votes for that epoch have the same winner |
| `Election.RunKeepsSound` | src/novadbplus/cluster/cluster_manager.cpp:5956-5969 | every run with a fixed voter set keeps: one vote per voter and epoch, tallies of real votes, wins backed by a quorum |
| `Election.TwoWinnersNeedAStaleVote` | src/novadbplus/cluster/cluster_manager.cpp:5964-5967 | if two slaves win one epoch, one of them counted a vote that was not cast for it |
| `Election.AtMostOneWinnerPerEpoch` | src/novadbplus/cluster/cluster_manager.cpp:3256-3285 | election safety: in every run in which no vote arrives between scheduling and requesting, no epoch has two winners |
| `ElectionLimits.StaleExactlyIfIdle` | src/novadbplus/cluster/cluster_manager.cpp:3161-3167 | after every run, a node's counter holds a vote of an older election exactly if a vote was counted in the idle window since it was last cleared |
| `ElectionLimits.CleanExactlyIfNotIdle` | src/novadbplus/cluster/cluster_manager.cpp:3256-3266 | a win counted only votes of its own epoch if and only if none was counted in the idle window |
| `ElectionLimits.IdleVotesElectTwo` | src/novadbplus/cluster/cluster_manager.cpp:2477-2484 | a run of five nodes, all seeing the same three voters, in which two slaves win the same epoch |
| `ElectionLimits.RestartVotesTwice` | src/novadbplus/cluster/cluster_manager.cpp:4295-4303 | a voter that restarts between two requests of one epoch grants both |
| `EpochHistory.UnionIsSmall` | src/novadbplus/cluster/cluster_manager.cpp:1092-1099 | the masters of a set closed under larger names have had fewer than 2^size epochs between them |
| `EpochHistory.AtMostPow2` | src/novadbplus/cluster/cluster_manager.cpp:1092-1099 | a master with k larger-named masters has had at most 2^k epochs |
| `CollisionRepair.PingEffect` | src/novadbplus/cluster/cluster_manager.cpp:5911-5917 | a ping changes a master's own epoch only on a collision with a larger name, and then upwards; it changes what is known of the sender only, to the maximum |
| `CollisionRepair.RepairBound` | src/novadbplus/cluster/cluster_manager.cpp:1083-1105 | in every run of pings, however old or reordered, a master with k larger-named masters repairs at most 2^k - 1 times |
| `CollisionRepair.AtRestExactlyIfDistinct` | src/novadbplus/cluster/cluster_manager.cpp:5911-5917 | after any such run, no current header would cause a repair if and only if all masters have different epochs |
| `Convergence.ShortcutChangesNothing` | src/novadbplus/cluster/cluster_manager.cpp:5845-5861 | skipping a claim whose slots equal the held ones never changes the result |
| `Convergence.MergeSettles` | src/novadbplus/cluster/cluster_manager.cpp:1015-1038 | taking a claim keeps every slot with the greatest epoch among the claims taken so far |
| `Convergence.SlotsGoToTheBest` | src/novadbplus/cluster/cluster_manager.cpp:6017-6045 | from an unassigned table, in any order and with any repeats, every slot ends with the greatest epoch among the claims that were heard |
| `Convergence.GreatestWinsExactlyIfHeard` | src/novadbplus/cluster/cluster_manager.cpp:6017-6019 | the claimant with the greatest epoch gets its slot if and only if its claim was heard |
| `Convergence.OrderDoesNotMatter` | src/novadbplus/cluster/cluster_manager.cpp:1015-1038 | two nodes that heard the same claims have the same table |
| `Convergence.PingIsHeard` | src/novadbplus/cluster/cluster_manager.cpp:5854-5861 | a claimant's own ping is heard wherever it stands among the events |
| `Convergence.HeaderHidesClaim` | src/novadbplus/cluster/cluster_manager.cpp:6017-6019 | an update about a master whose header came earlier leaves its slot without it, and the other order gives it the slot |
| `ClusterView.FirstFree` | src/novadbplus/cluster/cluster_manager.cpp:1176-1198 | the first requested slot that nobody holds, which is where handing over stops |
| `ClusterState.ClusterNode.AddSlot` | src/novadbplus/cluster/cluster_manager.cpp:247-262 | sets the bit unless it is set or out of range, and the counter stays the number of bits |
| `ClusterState.ClusterNode.ClearSlotBit` | src/novadbplus/cluster/cluster_manager.cpp:292-301 | clears the bit, says whether it was set, and the counter stays the number of bits |
| `ClusterState.ClusterState.AddSlot` | src/novadbplus/cluster/cluster_manager.cpp:2275-2289 | assigns a free slot in table and bitmap and refuses a taken one; table, bitmaps and counters agree |
| `ClusterState.ClusterState.DelSlot` | src/novadbplus/cluster/cluster_manager.cpp:2308-2318 | frees the slot in table and bitmap; the bit of its holder was set |
| `ClusterState.ClusterState.BitsAreSlots` | src/novadbplus/cluster/cluster_manager.cpp:2275-2318 | a node's bitmap is its part of the table and its counter the size of that part |
| `ClusterState.ClusterState.DelNodeSlots` | src/novadbplus/cluster/cluster_manager.cpp:2331-2342 | frees exactly the node's slots and returns how many they were |
| `ClusterState.ClusterState.UpdateSlotsConfigWith` | src/novadbplus/cluster/cluster_manager.cpp:1011-1038 | the loop over the slots rebinds the claimed ones that are free or held with a smaller epoch, and nothing else |
| `ClusterState.ClusterState.FailoverReplaceMasterMeta` | src/novadbplus/cluster/cluster_manager.cpp:2963-2996 | a slave with a master becomes master and takes exactly the old master's slots |
| `ClusterState.ClusterState.MaxEpoch` | src/novadbplus/cluster/cluster_manager.cpp:3304-3322 | the greatest of the current epoch and all known config epochs |
| `ClusterState.BumpGuard` | src/novadbplus/cluster/cluster_manager.cpp:924-929 | comparing with the greatest epoch finds out whether the own one is zero or not the greatest |
| `ClusterState.ClusterState.BumpConfigEpochWithoutConsensus` | src/novadbplus/cluster/cluster_manager.cpp:922-933 | the in-place bump does what the bump of the run model does |
| `ClusterState.ClusterState.HandleConfigEpochCollision` | src/novadbplus/cluster/cluster_manager.cpp:1083-1105 | the in-place repair does what the repair of the run model does |
| `ClusterState.ClusterState.SetSlots` | src/novadbplus/cluster/cluster_manager.cpp:1168-1209 | hands slots over up to the first unassigned one, and bumps the epoch when a node took them all itself |
| `ClusterState.ClusterState.FindRefusal` | src/novadbplus/cluster/cluster_manager.cpp:2812-2833 | finds a claimed slot whose holder's epoch is above the request's, if there is one |
| `ClusterState.ClusterState.SendFailoverAuthIfNeeded` | src/novadbplus/cluster/cluster_manager.cpp:2724-2844 | votes exactly when all conditions of a grant hold, and then records the epoch |
| `ClusterState.ClusterState.DelNode` | src/novadbplus/cluster/cluster_manager.cpp:2121-2189 | unassigns the node's slots, orphans its slaves and unlinks it; table, bitmaps and counters agree |
| `ClusterState.ClusterState.FindNewer` | src/novadbplus/cluster/cluster_manager.cpp:5882-5907 | names a holder the sender must be told about, and none only if no claimed slot is held with a greater epoch |
| `ClusterState.ClusterState.TakeClaim` | src/novadbplus/cluster/cluster_manager.cpp:5841-5909 | takes a master's claim, and answers with an update whenever the claim was out of date |
| `ClusterState.ClusterState.ProcessPing` | src/novadbplus/cluster/cluster_manager.cpp:5795-5917 | header, role, claim and collision together do what the ping of the run model does |
| `ClusterState.ClusterState.ProcessUpdate` | src/novadbplus/cluster/cluster_manager.cpp:5999-6047 | an update does what the update of the run model does |
| `SlotRanges.ScanTable` | src/novadbplus/cluster/cluster_manager.cpp:1617-1662 | the walk over the table lists exactly the maximal runs of slots with one holder, each once |
| `SlotRanges.ScanNode` | src/novadbplus/cluster/cluster_manager.cpp:1567-1610 | the scan of a bitmap lists exactly the maximal runs of that node, each once |
| `SlotRanges.ScanNodes` | src/novadbplus/cluster/cluster_manager.cpp:1555-1615 | the scan of all nodes lists exactly the maximal runs of masters, each once |
| `SlotRanges.EverySlotInOneRun` | src/novadbplus/cluster/cluster_manager.cpp:1617-1662 | the runs partition the assigned slots |
| `SlotRanges.ScansAgreeExactlyIfMasters` | src/novadbplus/cluster/cluster_manager.cpp:1555-1662 | the two replies list the same ranges if and only if every slot is held by a master |
| `BinlogReplay.WrittenKeyIsFixed` | src/novadbplus/replication/repl_util.cpp:360-408 | what a written key holds after an entry does not depend on the store before it |
| `BinlogReplay.WritesKeepAgreement` | src/novadbplus/cluster/migrate_sender.cpp:362-416 | new writes on the source keep: both sides differ only in keys that entries still to be sent write to |
| `BinlogReplay.RewindKeepsAgreement` | src/novadbplus/cluster/migrate_sender.cpp:445-494 | starting again from an earlier entry keeps it |
| `BinlogReplay.ResendKeepsAgreement` | src/novadbplus/cluster/migrate_sender.cpp:445-494 | applying entries that are still to be sent, in any order and however often, keeps it |
| `BinlogReplay.ReplayLeaves` | src/novadbplus/replication/repl_util.cpp:360-408 | a log leaves of a key what its last write leaves, or what was there before |
| `BinlogReplay.LastWriteIsSent` | src/novadbplus/replication/repl_util.cpp:549-568 | a last write in an entry of a migrated slot is the last one among the entries that are sent |
| `BinlogReplay.NextEntryAdvances` | src/novadbplus/replication/repl_util.cpp:564-588 | applying the next entry in its place narrows it by that entry |
| `CatchUp.FirstAfterEntry` | src/novadbplus/replication/repl_util.cpp:504-506 | a cursor that starts after an entry's id stands at the next entry |
| `CatchUp.PutInWriter` | src/novadbplus/replication/repl_util.cpp:564-568 | an entry that waits to be sent counts as sent for everything behind it |
| `CatchUp.SnapshotAgrees` | src/novadbplus/cluster/migrate_sender.cpp:362-376 | entries that a snapshot taken after the captured id already has can be sent again |
| `CatchUp.AgreesExactlyIfNotLost` | src/novadbplus/replication/repl_util.cpp:549-568 | for every log, captured id and snapshot, a migrated key is received as the source has it if and only if its last write from the captured id on was not in an entry of no single slot that left something else than the last sent write or the snapshot |
| `CatchUp.NothingLostWithoutThem` | src/novadbplus/replication/repl_util.cpp:549-568 | the migrated slots are equal if no entry of no single slot writes to them after the captured id |
| `CatchUp.PassedOverWriteIsLost` | src/novadbplus/storage/rocks/rocks_kvstore.cpp:393-402 | for any store and any write to a key that is logged without a slot after the snapshot was opened, the migration succeeds with every message acknowledged, and the destination has what the key held before it |
| `CatchUp.Source.Progress` | src/novadbplus/cluster/migrate_sender.cpp:737-786 | exactly the next group of other clients' transactions is logged, of one slot or of none, unless one of them needs a locked slot |
| `CatchUp.Sender.SendSlotsBinlog` | src/novadbplus/replication/repl_util.cpp:467-616 | successful or broken off, the destination lacks only entries to be sent after the last acknowledged id; on success it has all of them up to the end id; on a reliable link it succeeds |
| `CatchUp.Sender.CatchupBinlog` | src/novadbplus/cluster/migrate_sender.cpp:434-519 | the retry loop keeps that from the current id on, whatever is lost, and succeeds only with everything up to the end id sent |
| `CatchUp.Sender.SendBinlog` | src/novadbplus/cluster/migrate_sender.cpp:521-587 | the rounds keep it while clients go on writing, and succeed only within the distance; on a reliable link they fail only beyond it |
| `CatchUp.Sender.SendLastBinlog` | src/novadbplus/cluster/migrate_sender.cpp:589-616 | under the locks, success means that the destination has the snapshot and all entries of the migrated slots from the captured id on |
| `CatchUp.Sender.SendSnapshot` | src/novadbplus/cluster/migrate_sender.cpp:352-416 | the snapshot, sent slot by slot while clients write, leaves the destination without only the entries after the captured id |
| `CatchUp.Sender.MigrateData` | src/novadbplus/cluster/migrate_sender.cpp:50-110 | snapshot, rounds, locks and last round, for all logs and interleavings: on success the destination has exactly what was sent, each migrated key equals the source's if and only if it is not lost in a passed-over entry, and no other slot of the destination changed |
| `ChunkSender.ChunkMigrateSender.LockChunks` | src/novadbplus/cluster/migrate_sender.cpp:737-786 | all locks of the migrated slots, each once, or none |
| `ChunkSender.ChunkMigrateSender.SendChunk` | src/novadbplus/cluster/migrate_sender.cpp:50-155 | returns with all locks held exactly when the status is LASTBINLOG_DONE or SENDOVER_DONE, and the receiver was told to take over exactly then or on success |
| `HandOver.TimelyRunsAreSafe` | src/novadbplus/cluster/migrate_manager.cpp:435-449 | in every run, with retries of tasks that failed early, in which half-done tasks are resolved in time, no slot takes writes on both nodes |
| `HandOver.HandOverIsSafe` | src/novadbplus/cluster/migrate_manager.cpp:1442-1486 | the same from the start of a task |
| `HandOver.ReturnsLockedExactlyIfWaiting` | src/novadbplus/cluster/migrate_manager.cpp:600-632 | in every interleaving, the sender's call ends with the locks held if and only if the migration is left half-done |
| `HandOver.ResolveIsSafeExactlyIfTimely` | src/novadbplus/cluster/migrate_manager.cpp:435-449 | resolving a half-done task is safe for all that may follow if and only if no claim is made or under way that the source does not know |
| `HandOver.LateClaimIsUnsafe` | src/novadbplus/cluster/migrate_manager.cpp:435-449 | a run in which the claim arrives after the waiting time and both nodes own the slots |
| `ClaimSpreads.GossipIsAPing` | src/novadbplus/cluster/cluster_manager.cpp:5797-5917 | a ping of the destination, however old, does to the source's table what the gossip step of the protocol says |
| `ClaimSpreads.ClaimIsSetSlots` | src/novadbplus/cluster/cluster_manager.cpp:1168-1209 | the destination's setSlots does to its table what the claim step says, and is accepted exactly if it knows a holder of every slot; a refused claim comes with no new epoch |
| `ClaimSpreads.ClaimIsAccepted` | src/novadbplus/cluster/cluster_manager.cpp:1015-1038 | the first ping after the claim gives a slot to the destination in the source's table if and only if the holder's epoch there is below the destination's |
| `ClaimSpreads.HeardClaimIsAccepted` | src/novadbplus/cluster/cluster_manager.cpp:922-933 | when the destination has heard of the holder's epoch, that is if and only if it had to bump its own or was ahead already |
| `MigrateTasks.GroupByStore` | src/novadbplus/cluster/migrate_manager.cpp:947-957 | every store with its slots of the request, in order |
| `MigrateTasks.MigrateManager.Migrating` | src/novadbplus/cluster/migrate_manager.cpp:665-701 | a task is made exactly if no slot is taken and the id is new; otherwise exactly the slots before the first taken one stay marked |
| `MigrateTasks.MigrateManager.StartTask` | src/novadbplus/cluster/migrate_manager.cpp:1207-1230 | on success the marked slots are the disjoint union of the live tasks' slots; on refusal they still are exactly if nothing stayed marked |
| `MigrateTasks.MigrateManager.Release` | src/novadbplus/cluster/migrate_manager.cpp:390-434 | a finished task is erased and the exclusive-or takes exactly its slots out of the bitmap |
| `MigrateTasks.MigrateManager.SenderSchedule` | src/novadbplus/cluster/migrate_manager.cpp:353-453 | exactly the finished tasks are erased, and the marked slots are the disjoint union of what is left |
| `MigrateTasks.MigrateManager.CheckSlotOK` | src/novadbplus/cluster/migrate_manager.cpp:732-765 | accepts exactly requests for slots that are ours, go to another known node and are in no task, and lists them in order |
| `MigrateTasks.MigrateManager.Prepare` | src/novadbplus/cluster/migrate_manager.cpp:947-1005 | refuses without a trace, or splits the request into disjoint tasks of one store and bounded size whose union with the old ones is all that is marked |
| `SnapshotBatch.ParseEncoded` | src/novadbplus/cluster/migrate_batch.cpp:25-37 | a record in a batch is read back, with what follows it |
| `SnapshotBatch.BatchIsItsRecords` | src/novadbplus/cluster/migrate_receiver.cpp:199-278 | a batch has the effect of its records one by one on store, TTL index and count, or none if one is refused |
| `SnapshotBatch.ReceiveMsgs` | src/novadbplus/cluster/migrate_receiver.cpp:83-134 | a stream of messages has the effect of its records one by one, or stops after a prefix of them without a refused one |
| `SnapshotBatch.PackingDoesNotMatter` | src/novadbplus/cluster/migrate_sender.cpp:287-349 | however the records are packed, the transfer succeeds for the same ones and leaves the same store, index and count |
| `SnapshotBatch.MigrateBatch.Add` | src/novadbplus/cluster/migrate_batch.cpp:25-37 | the buffer stays the encoding of the records in it, and its size and counter are right |
| `SnapshotBatch.MigrateBatch.Send` | src/novadbplus/cluster/migrate_batch.cpp:39-60 | what was added is what was sent, and the buffer is empty |
| `SnapshotBatch.SendRangeByBatch` | src/novadbplus/cluster/migrate_sender.cpp:287-349 | the stream holds exactly the records, in order, in batches that fit their length field, and the count is theirs |
| `SnapshotBatch.SendRange` | src/novadbplus/cluster/migrate_sender.cpp:199-284 | the one-record stream holds exactly the records, in order |
| `SnapshotBatch.Receiver.PutSingleBatch` | src/novadbplus/cluster/migrate_receiver.cpp:199-278 | the parsing loop writes the whole batch or nothing |
| `SnapshotBatch.Receiver.ReceiveSnapshot` | src/novadbplus/cluster/migrate_receiver.cpp:50-137 | the command loop does to the destination what the stream says |
| `GarbageCollection.GenerateDeleteRangeTask` | src/novadbplus/cluster/gc_manager.cpp:86-116 | for any slot-to-store map, the ranges are disjoint and cover exactly the deleting slots |
| `GarbageCollection.GcManager.DeleteBitMap` | src/novadbplus/cluster/gc_manager.cpp:189-219 | marks the slots unless one of them is already marked |
| `GarbageCollection.GcManager.DeleteSlots` | src/novadbplus/cluster/gc_manager.cpp:118-171 | works exactly if the locks are granted and no slot of the range is owned; then the byte range call removes exactly the data of the range's slots, and their marks go |
| `GarbageCollection.GcManager.GcSchedule` | src/novadbplus/cluster/gc_manager.cpp:51-83 | every marked slot is in exactly one range, and loses its mark and its data if and only if, when that range's turn came, all its slots were locked and none was owned; success exactly if no mark is left |
| `BitsetCodec.RunsRoundTrip` | src/novadbplus/utils/string.h:79-125 | the runs of a bitmap decode to its bits |
| `BitsetCodec.BitsetEncodeVec` | src/novadbplus/utils/string.h:79-97 | the nested loops produce the runs |
| `BitsetCodec.BitsetRoundTrip` | src/novadbplus/utils/string.h:134-178 | an encoded bitmap decodes to itself whatever follows, and its size is the computed one |
| `WireFields.VarintRoundTrip` | src/novadbplus/storage/varint.cpp:48-84 | a number is read back from its variable-length bytes |
| `WireFields.LenStrRoundTrip` | src/novadbplus/utils/string.cpp:340-380 | a string behind its length is read back, and its size is the computed one |
| `WireFields.FieldsRoundTrip` | src/novadbplus/utils/string.h:72-77 | fixed-width fields are read back, and their size is the sum of the widths |
| `BusMessage.HeadRoundTrip` | src/novadbplus/cluster/cluster_manager.cpp:3680-3791 | a header decodes to itself, and getHeaderSize is the number of bytes used |
| `BusMessage.GossipsRoundTrip` | src/novadbplus/cluster/cluster_manager.cpp:3890-3925 | the gossip entries decode to themselves up to the end of the message |
| `BusMessage.GossipRoundTrip` | src/novadbplus/cluster/cluster_manager.cpp:3967-4035 | one gossip entry decodes to itself, and getGossipSize is the number of bytes used |
| `BusMessage.DataRoundTrip` | src/novadbplus/cluster/cluster_manager.cpp:3818-3858 | gossip, update, failure and empty data decode to themselves |
| `BusMessage.MsgRoundTrip` | src/novadbplus/cluster/cluster_manager.cpp:3492-3593 | every well-formed message decodes to itself, and its length field counts its bytes |
| `BusFraming.PiecesMakePackets` | src/novadbplus/cluster/cluster_manager.cpp:5310-5380 | however a stream of framed packets is broken into reads, exactly these packets are handed over, in order |
| `BusFraming.MessagesArrive` | src/novadbplus/cluster/cluster_manager.cpp:5310-5404 | the same for encoded messages, each of which decodes to what was sent |
| `BusFraming.ClusterSession.DrainReqNet` | src/novadbplus/cluster/cluster_manager.cpp:5310-5349 | asks for the rest of the first eight bytes or of the message, and closes on a bad start |
| `BusFraming.ClusterSession.DrainReqCallback` | src/novadbplus/cluster/cluster_manager.cpp:5351-5404 | hands a message over exactly when it is complete |
| `Rdb.LenRoundTrip` | src/novadbplus/commands/dump.cpp:66-94 | a length is read back from one, two, five or nine bytes |
| `Rdb.StringRoundTrip` | src/novadbplus/commands/dump.cpp:95-104 | a string is read back, with what follows it |
| `Ziplists.EntriesRoundTrip` | src/novadbplus/commands/dump.cpp:1246-1327 | entries in step are read back, with what follows them |
| `Ziplists.InStepExactlyIfSteady` | src/novadbplus/commands/dump.cpp:371-385 | writer and reader agree if and only if no string but the last has 251 to 253 bytes, or 247 to 250 behind one of 254 or more |
| `ZiplistDrift.NeverBack` | src/novadbplus/commands/dump.cpp:1258-1325 | from every place a reader four bytes behind can reach, whatever follows, the rest with its end mark is not read back |
| `ZiplistDrift.BackExactlyIfInStep` | src/novadbplus/commands/dump.cpp:1258-1325 | entries and their end mark are read back if and only if they are in step |
| `ListDump.TailIsLastEntry` | src/novadbplus/commands/dump.cpp:386-390 | the tail offset in a ziplist's header is where the last entry starts |
| `ListDump.ZiplistExactlyIfInStep` | src/novadbplus/commands/dump.cpp:358-397 | every ziplist is read back if and only if it is in step |
| `ListDump.FormatZiplist` | src/novadbplus/commands/dump.cpp:358-397 | the loop builds the ziplist with the right size, tail and count |
| `ListDump.ChunksHoldTheList` | src/novadbplus/commands/dump.cpp:449-477 | the ziplists hold the list in order, each with at least one and at most 257 elements |
| `ListDump.CopyBackward` | src/novadbplus/commands/dump.cpp:483-487 | the overlapping in-place move puts the bytes where they belong and leaves what follows |
| `ListDump.DumpObject` | src/novadbplus/commands/dump.cpp:408-491 | from the returned start, the buffer holds exactly type, count and ziplists |
| `ListDump.Dump` | src/novadbplus/commands/dump.cpp:106-143 | the payload is that object with version and checksum; an empty list has none |
| `ListDump.FooterVerifies` | src/novadbplus/commands/dump.cpp:912-935 | a payload with its footer passes the check, whatever the checksum function |
| `ListDump.RestoresExactlyIfInStep` | src/novadbplus/commands/dump.cpp:1336-1393 | for every list, restore of dump gives the list if and only if every ziplist is in step |
| `ListDump.RestoresExactlyIfSteady` | src/novadbplus/commands/dump.cpp:371-385 | that is if and only if the lengths of the elements in each ziplist are steady |
| `ListDump.NoMiddlingRestores` | src/novadbplus/commands/dump.cpp:1336-1393 | a list is restored if elements of 247 to 253 bytes stand only at the ends of its ziplists |
| `ListDump.MiddlingElementBreaks` | src/novadbplus/commands/dump.cpp:1258-1262 | a list with an element of 251 to 253 bytes that has another behind it in its ziplist never is |
| `ListDump.DeserializeZiplist` | src/novadbplus/commands/dump.cpp:1246-1327 | the reading loop yields what the bytes say |
| `ListDump.Restore` | src/novadbplus/commands/dump.cpp:1336-1393 | the restoring loop yields what the payload says, or nothing if the check fails |
| `HashFields.HashKey.Hmset` | src/novadbplus/commands/hash.cpp:1269-1329 | writes the pairs in turn; the count stays the number of fields, also with a field named twice |
| `HashFields.HashKey.Hsetnx` | src/novadbplus/commands/hash.cpp:1460-1518 | writes exactly if the field is new |
| `HashFields.HashKey.Hincrby` | src/novadbplus/commands/hash.cpp:90-159 | writes the sum exactly if the old value is a number and the sum has 64 bits; otherwise nothing changes |
| `HashFields.WrapAdd` | src/novadbplus/commands/hash.cpp:1052-1066 | the unchecked addition of HMCAS is the sum if and only if that has 64 bits |
| `HashFields.UniqueKeys` | src/novadbplus/commands/hash.cpp:1009-1014 | one entry per named field, with its last change |
| `HashFields.ApplyChanges` | src/novadbplus/commands/hash.cpp:1018-1070 | all changes or none, with the number of fields that existed before |
| `HashFields.HashKey.Hmcas` | src/novadbplus/commands/hash.cpp:955-1097 | succeeds exactly if the version fits and every last change is possible; then every named field has its outcome and the count is the number of fields |
| `HashFields.HashKey.Hdel` | src/novadbplus/commands/hash.cpp:1557-1631 | removes exactly the named fields, and the meta record with the last of them |
| `RecordKeys.OwnInRange` | src/novadbplus/commands/command.cpp:616-626 | every element of a key lies in the range that is deleted for it |
| `RecordKeys.StemIsOwn` | src/novadbplus/storage/record.cpp:267-296 | without zero bytes in the primary keys of a record type, what starts like the elements of a key is one of them |
| `RecordKeys.InRangeExactly` | src/novadbplus/commands/command.cpp:616-626 | the range of a key holds a record if and only if it is an element of the key, or its key lies inside and sorts below the largest version |
| `RecordKeys.AmongExactly` | src/novadbplus/commands/command.cpp:709-728 | another key's record sorts between a key's prefix and one of its elements if and only if its key lies inside and sorts below the element |
| `RecordKeys.PrefixTellsKeys` | src/novadbplus/storage/record.cpp:267-296 | two records have the same prefix if and only if they are of the same key |
| `RecordKeys.TaggedKeepsSlot` | src/novadbplus/utils/redis_port.cpp:937-960 | a key with a hash tag keeps its slot whatever is put behind it |
| `RecordKeys.SlotRange` | src/novadbplus/cluster/gc_manager.cpp:145-156 | the keys between two slot prefixes are those of the slots in between |
| `StoreScan.Scan` | src/novadbplus/commands/command.cpp:389-439 | one call returns the next records of the key, at most the wanted number, and the cursor to go on from |
| `StoreScan.PagesAreTheStretch` | src/novadbplus/commands/command.cpp:389-439 | page after page ends, and gives every record of the stretch once and in order |
| `StoreScan.SeesAllExactlyIfUndisturbed` | src/novadbplus/commands/command.cpp:405-421 | a walk sees all elements of the key if and only if no other key's record sorts among them |
| `StoreScan.PagesCompleteExactlyIfUndisturbed` | src/novadbplus/commands/command.cpp:389-439 | the pages hold all elements of the key under exactly that condition |
| `StoreScan.UndisturbedExactlyIfNoneAmong` | src/novadbplus/commands/command.cpp:405-421 | no record sorts among a key's elements if and only if no stored key lies inside it and in front of one of them |
| `StoreScan.NulFreeIsUndisturbed` | src/novadbplus/storage/record.cpp:283-289 | primary keys of one record type without zero bytes never disturb each other, whatever else is stored |
| `StoreScan.PartialDelSubKeys` | src/novadbplus/commands/command.cpp:631-747 | refuses to delete the meta record under a limit; otherwise lists the stretches of all element families in order, up to the limit, and the single records |
| `StoreScan.UnlimitedIsPending` | src/novadbplus/commands/command.cpp:709-747 | without a limit, what is listed is what the theorems on deleting speak about |
| `StoreScan.LimitedIsOwn` | src/novadbplus/commands/command.cpp:709-728 | whatever the limit, only elements of the key are listed |
| `StoreScan.CursorExactlyIfUndisturbed` | src/novadbplus/commands/command.cpp:709-747 | record by record, exactly the key's own records go if and only if no family is disturbed |
| `StoreScan.RangeExactlyIfAlone` | src/novadbplus/commands/command.cpp:616-629 | by range, exactly the key's own records go if and only if no stored key lies inside the key and below the largest version |
| `StoreScan.RangeIsTheStricter` | src/novadbplus/commands/command.cpp:343-387 | wherever deleting by range is exact, so is deleting record by record |
| `StoreScan.BothPathsAreExact` | src/novadbplus/commands/command.cpp:343-387 | without zero bytes in the primary keys of the deleted element families both paths delete the same records, which are the key's own |
| `StoreScan.EitherWayTheSame` | src/novadbplus/commands/command.cpp:498-747 | under that condition, deleting a hash, list, set, sorted set or bitmap removes its elements, meta record and TTL index entry and nothing else, by either path |
| `StoreScan.ZeroByteKeysAreConfused` | src/novadbplus/commands/command.cpp:616-626 | for every key and the same key with a zero byte behind it in the same slot, the walk leaves an own element and the range deletes the other's |
| `StoreScan.ConfusedPairsExist` | src/novadbplus/utils/redis_port.cpp:937-960 | whatever the hash, "{a}" and "{a}" with a zero byte are such a pair |

## Left out

- Sockets, sessions, thread pools, rate limits, heartbeats and logging; stop requests, which only make a loop of the migration end with an error.
- Waiting times and random delays: elections are scheduled, expire and ask for votes at any step, and the two-timeout rule is the parameter `rested`.
- Epochs, offsets and counters are unbounded; that the program's 64-bit epochs wrap around is not modelled. In the bus format they are numbers of their width.
- Senders in handshake, the renaming of nodes, gossip sections and failure reports: `Flag` and `Meet` steps change the same fields at any time.
- `ClusterState.ClusterState.UpdateSlotsConfigWith`: does not turn the node into a replica of the new owner after it lost all slots, because that depends on the replication manager; it is the step `Follow`, taken at any time.
- `SendUpdate` steps are not tied to an outdated ping: a node may send an update about any node at any time. `TakeClaim` states when the program sends one.
- `ClusterState.ClusterState.DelNode`: has no failure reports and no slave lists to clear, because a node's master is kept by name; nor is there a MIGRATE_TO flag or the blacklist, which only delays a new meeting.
- Restart, hard reset and takeover in the election runs; `RestartVotesTwice` shows what a restart does.
- Manual failover: the pause and its offsets. A manual failover is an election whose request is marked with `force`.
- Collision runs (`RepairBound`) have pings among masters only, from a start with nothing in flight.
- Convergence: one claim per master, and headers that do not show a claimant ahead of its claim.
- Binlog entries become visible in the order of their ids; that the store can for a while have holes below the highest one is not modelled. A range delete is the list of its deletes, and so is a flush.
- `CatchUp.Sender.MigrateData`: does not model the versions that `sendVersionMeta` sends, because they are no keys of the migrated slots.
- A snapshot that breaks off is left as it is, because the migration then fails and the receiver's data is collected; how records are packed is in `SnapshotBatch`.
- `HandOver`: every migrated slot is with the source or the destination in the source's table; other tasks and failovers do not touch them.
- `MigrateTasks.MigrateManager.Prepare`: does not refuse on the state of the cluster or the number of stores of the other side, which only adds refusals; requests do not overlap in time; a task size of zero, with which the splitting loop would not end, is excluded.
- `MigrateTasks.MigrateManager.SenderSchedule`: waiting, starting and resolving a task are steps of `HandOver`, because they do not change the bookkeeping.
- The receiving side of the bookkeeping (`importing`), which marks and releases like the sending side.
- `SnapshotBatch.SendRangeByBatch`: a buffer with one more record must fit the 32-bit length field; writing to the store does not fail.
- Lengths in a batch that point beyond its end are read as an error; the program does not check them.
- Dump of strings, sets, hashes, sorted sets and bitmaps, which have no ziplists; integer and LZF encodings of strings when reading; list elements of two gigabytes or more.
- Reading a ziplist beyond its end is a failure; the program reads what lies there.
- HINCRBYFLOAT; reading commands; errors of the store, which roll a transaction back.
- TTL index records other than as single records, and the rebuilding of the index.
- Hexadecimal cursors: a cursor is the key's bytes.
- CRC, LZF and the record value format are library code; the checksum is any function.
