# Verified models of the transaction protocols and their supporting structures

This project models the concurrency-control protocols of the repository, and the lock, index, log and
hash structures under them, and proves what they promise. It has three kinds of files.

**Protocols as state machines.** A state holds every record and every transaction; a step is one memory
access or one posted RDMA operation of one participant; a run is any finite sequence of steps by any
number of participants. `Serializability` says once what it means that committed transactions can be
replayed one after the other, and when a stamp on each of them gives such an order; the protocols
instantiate it.

- `Mvcc`: timestamp-ordered multiversion control on its RPC path. Steps: begin
  (src/rtx/mvcc_rdma.h:281-298), the read handler's check, `rts` bump, load of the slot's timestamp,
  word-by-word copy and recheck (src/rtx/mvcc_rdma.cc:390-424), the lock handler's checks, its
  compare-and-swap and its second check (src/rtx/mvcc_rdma.cc:453-531), the stores of an update
  (src/rtx/mvcc_rdma.cc:584-590) and the release (src/rtx/mvcc_rdma.cc:542-555).
- `Occ`: optimistic control with primary-backup replication. Steps: the sequence-locked read, word by
  word (src/rtx/local_op_impl.hpp:20-37), the lock handler's compare-and-swap and its comparison of
  sequence numbers (src/rtx/occ.cc:672-703), validation as two loads (src/rtx/local_op_impl.hpp:91-94),
  the application of a log at each backup (src/rtx/default_log_cleaner_impl.hpp:37-83), the in-place
  write, word by word (src/rtx/local_op_impl.hpp:104-130), and the release (src/rtx/occ.cc:713-727).
  Every record is remote, as src/rtx/occ.h:40-42 makes it.
- `Sundial`: logical leases, with one-sided reads, locks and installs (src/rtx/sundial_rdma.cc:480-531,
  562-656 and 36-82) and lease renewal by RPC as three memory accesses (src/rtx/sundial_rdma.cc:360-395).
- `Dslr`: the shared/exclusive ticket lock in one 64-bit word (src/rtx/dslr.cc:22-342).
- `LogRing`: the ring buffer between a producer (src/db/db_logger.cc:227-287) and a backup
  (src/framework/backup_worker.cc:70-131).

Beside each protocol's safety stands its progress: `MvccProgress`, `OccProgress`, `SundialProgress` and
parts of `DslrTheorems` and `LogRing` say, for every run, exactly when a step can be taken, in terms of
who holds what and which versions exist.

**In-place structures as classes.** `MvccHandlers`, `OccHandlers`, `SundialHandlers` and `DslrClient`
hold the handlers and client operations as methods that update headers in place, for the case that
nothing interferes; `BTreeStore` and `BTreeIterator` hold the B+ tree, whose operations run as one
hardware transaction each, and `BTreeScan` a client that scans while others insert; `WaitList` and
`ClusterHash` hold the wait list and the hash table.

**Counterexamples.** `MvccStaleRead`, `OccWriteSkew`, `SundialLostUpdate`, `SundialLateRenewal` and
`DslrLostTicket` each drive a state machine to a concrete reachable state in which a promise fails.

What the proofs found about the code:

- The read handler of the multiversion protocol loads a slot's timestamp after it has chosen the slot.
  Four commits in between can make it return stale bytes under a fresh timestamp. The version under
  that timestamp is always the right one, so the protocol is serializable exactly if every read has
  that version's bytes. It has them if the read is *whole*: every word had been stored when it was
  copied. A *clean* read, whose timestamp is the one that the check saw, is whole.
- Validation of the optimistic protocol in two loads admits write skew. A run is serializable in the
  order of lock points exactly if every read is *right*: it has missed no write that was locked before,
  or the last such write stored the bytes that were read. A *clean* validation, which found the sequence
  number still unchanged when it found the lock free, has missed nothing. One READ of both words, as
  the one-sided validation does it (src/rtx/occ_rdma.cc:381-384), is always clean.
- When a lease cannot be renewed, `prepare` releases the write set (src/rtx/sundial_rdma.h:388-393) and
  `commit` then releases it again (src/rtx/sundial_rdma.h:400-406), because the write set is not cleared;
  a release stores zero whoever holds the lock. The second one can free another transaction's lock, and
  an update is lost. A renewal that is not atomic can put back an overwritten timestamp. A run is
  *orderly* if renewals are atomic and no repeated release finds somebody else's lock, and *calm* if no
  store of a renewal was overtaken and no repeated release found somebody else's lock; orderly runs are
  calm, and the promises hold in all calm runs.
- A reader that waits for the ticket lock can be turned away although its turn has come, and its ticket
  then blocks every later writer and the reset of the word for good.
- The producer of the log ring would take an empty ring for a full one, but it never reads the header
  then: the ring is eight thresholds long, so at most seven reports of the consumer can come before the
  room it remembers runs out.
- The hash table keeps 63 bits of a key, so a key of 2^63 or more is inserted anew each time, and takes
  the place of the key with the same 63 bits if that one is new and has the same header node.
- A transaction of the wait-die protocol that writes a record and then reads it waits for itself, and no
  pass over the wait list ends that. There is no other deadlock.
- Two requests of the wait list for one free lock are answered newest first.

## Model

| member | source | states |
|---|---|---|
| MvccTheorems.ReadIsLatestForever | src/rtx/mvcc_rdma.cc:390-424 | In every run, a read with timestamp t that passed its recheck has the version with the largest timestamp below t, counting writers that commit at any later step; a whole read has that version's bytes, and a clean one is whole |
| MvccTheorems.LockedReadIsLatest | src/rtx/mvcc_rdma.cc:495-531 | The data read under a write lock is the version with the largest timestamp below the writer's |
| MvccTheorems.SerializableExactlyWhen | src/rtx/mvcc_rdma.cc:375-597 | In every run, replaying the committed transactions by timestamp gives each exactly the values it read if and only if every read has the bytes of the version whose timestamp it loaded |
| MvccTheorems.Serializable | src/rtx/mvcc_rdma.cc:375-597 | So it does in every run in which no committed read copied a word before it was stored |
| MvccTheorems.SerializableIfAtomic | src/rtx/mvcc_rdma.cc:391-412 | So it does in every run in which the check, the increase of `rts` and the load of the slot's timestamp are one step |
| MvccTheorems.TimestampOrderExists | src/rtx/mvcc_rdma.h:290-291 | Timestamps put the committed transactions into one order |
| MvccTheorems.NewestSlotIsReplay | src/rtx/mvcc_rdma.cc:584-590 | When no commit on a record is half stored, its newest slot holds what the serial replay leaves there |
| MvccTheorems.SlotsHoldLargest | src/rtx/mvcc_rdma.cc:495-509 | A record's slots hold the four largest timestamps ever installed on it, each once |
| MvccTheorems.InstallOverwritesOldest | src/rtx/mvcc_rdma.cc:573-585 | At install the lock is the installer's and the slot picked when the lock was taken is still the oldest |
| MvccTheorems.TimestampsAreFresh | src/rtx/mvcc_rdma.h:281-298 | A new timestamp was never used and exceeds all earlier ones of its coroutine |
| MvccTheorems.RetryPassesBlocker | src/rtx/mvcc_rdma.cc:182-191 | After an abort that reported a blocking timestamp, the retry's timestamp is larger than the blocker |
| MvccProgress.WhoseTimestamp | src/rtx/mvcc_rdma.h:290-291 | A timestamp tells its counter and its node, worker and coroutine |
| MvccProgress.BeginsExactlyWhenIdle | src/rtx/mvcc_rdma.h:281-298 | A coroutine can begin exactly if it runs no transaction; a transaction that is not taking a lock can give up |
| MvccProgress.ReadStartsExactlyWhen | src/rtx/mvcc_rdma.cc:391-400 | A read starts exactly if no earlier transaction holds the record and it has an earlier version |
| MvccProgress.ReadNeverStuck | src/rtx/mvcc_rdma.cc:401-416 | Between its checks a read can always go on |
| MvccProgress.ReadPassesExactlyWhen | src/rtx/mvcc_rdma.cc:417-424 | A copied read is accepted exactly if no earlier transaction holds the record and its slot still has the timestamp it was loaded with, the largest below the reader's |
| MvccProgress.ApproachesExactlyWhen | src/rtx/mvcc_rdma.cc:453-471 | A writer goes on to its compare-and-swap exactly if nothing later was read or written, and no later transaction holds the record |
| MvccProgress.LocksExactlyWhenFree | src/rtx/mvcc_rdma.cc:472-484 | The compare-and-swap succeeds exactly if no transaction holds the record |
| MvccProgress.GrantedExactlyWhen | src/rtx/mvcc_rdma.cc:485-531 | Under the lock a writer is granted the record exactly if nothing later was read or written, and refused in all other cases |
| MvccProgress.MayCommit | src/rtx/mvcc_rdma.h:300-317 | A transaction that is outside the handlers can commit, with exactly the values that fit its records |
| MvccProgress.InstallNeverStuck | src/rtx/mvcc_rdma.cc:584-590 | A committed transaction can go on installing exactly as long as it holds the record |
| MvccProgress.ReleaseNeverStuck | src/rtx/mvcc_rdma.cc:542-555 | An aborted transaction can release exactly what it holds |
| MvccProgress.RtsIsATimestamp | src/rtx/mvcc_rdma.cc:401-411 | A record's read timestamp is 0 or that of a transaction |
| MvccStaleRead.StaleReadIsReachable | src/rtx/mvcc_rdma.cc:390-424 | A reachable state in which a read that is not whole has passed its recheck with the bytes of an older version |
| MvccHandlers.Header.CheckReadAt | src/rtx/mvcc_rdma.h:408-421 | A read is refused exactly if an earlier writer holds the record or every version is empty or not earlier; else the scan returns the latest earlier version |
| MvccHandlers.Header.CheckWriteAt | src/rtx/mvcc_rdma.h:391-405 | 0 exactly if nothing later was read or written, and else the largest of all read and write timestamps |
| MvccHandlers.Header.ScanSlots | src/rtx/mvcc_rdma.cc:495-509 | The scan finds the first oldest and the first newest slot |
| MvccHandlers.Header.ReadRpc | src/rtx/mvcc_rdma.cc:390-424 | Undisturbed, a read fails exactly if an earlier writer holds the record or there is no earlier version; it returns the data of the latest earlier version, and only raises `rts`, to its own timestamp |
| MvccHandlers.Header.TryLock | src/rtx/mvcc_rdma.cc:453-484 | The lock is taken exactly when it is free and nothing later was read or written; the counter reported is that of a timestamp in the record and leads to one above all blockers |
| MvccHandlers.Header.FinishLock | src/rtx/mvcc_rdma.cc:484-531 | Under the lock: grant with oldest slot and newest data exactly when nothing later has appeared, else unlock and report |
| MvccHandlers.Header.UpdateRpc | src/rtx/mvcc_rdma.cc:573-590 | The new version replaces its slot and the record is free |
| MvccHandlers.Header.ReleaseRpc | src/rtx/mvcc_rdma.cc:542-555 | A release frees the record and changes nothing else |
| MvccHandlers.UpdateKeepsNewest | src/rtx/mvcc_rdma.cc:495-509 | Installing into the slot that was picked evicts the smallest timestamp only, and later readers pick the new version |
| OccTheorems.SerializableExactlyWhen | src/rtx/occ.cc:45-105 | In every run, replaying the committed transactions in the order in which they finished locking gives each exactly the values it read if and only if no committed read missed a write locked before, or the last one missed stored the same bytes |
| OccTheorems.Serializable | src/rtx/occ.cc:45-105 | So it does in every run whose committed validations are clean |
| OccTheorems.SerializableIfAtomic | src/rtx/occ_rdma.cc:381-384 | So it does in every run in which a validation loads both words at once |
| OccTheorems.CleanMissesNobody | src/rtx/occ_rdma.cc:381-384 | In every run, a committed read whose lock was found free while the sequence number was unchanged has missed no write locked before |
| OccTheorems.LockOrderExists | src/rtx/occ.cc:474-549 | The moments at which write sets were completely locked put the committed transactions into one order |
| OccTheorems.StoreIsReplay | src/rtx/occ.cc:749-760 | A record that no committed transaction holds contains what the serial replay leaves there |
| OccTheorems.ReadsAreWhole | src/rtx/local_op_impl.hpp:20-37 | Every accepted read is a value installed whole, under the sequence number it was read with |
| OccTheorems.SequenceNumberTells | src/rtx/local_op_impl.hpp:104-130 | The sequence number is the flag exactly while the holder overwrites the value; otherwise it counts the installs, is even, and the value is the last one installed |
| OccTheorems.BackupsFollowPrimary | src/rtx/default_log_cleaner_impl.hpp:37-83 | Each backup has applied exactly the primary's installs in their order and holds its value, except that it is one write ahead while a transaction that is logging or installing holds the record and has reached it |
| OccTheorems.UnlockedMeansReplicated | src/rtx/occ.cc:388-434 | Primary and backups agree on every unlocked record |
| OccTheorems.AppliesUnderLock | src/rtx/default_log_cleaner_impl.hpp:57-77 | A backup applies a write only for the transaction that holds the record, and only once it has applied everything before |
| OccTheorems.InstalledMeansLogged | src/rtx/occ.cc:97-101 | Nothing is installed before every backup has it |
| OccTheorems.InstallsInSerialOrder | src/rtx/occ.cc:337-363 | The installs of each record are in serial order |
| OccProgress.BeginsExactlyWhenIdle | src/rtx/occ.cc:36-43 | A coroutine can begin exactly if its last transaction is over, and a transaction can start to read any record |
| OccProgress.GetNeverStuck | src/rtx/local_op_impl.hpp:20-37 | A read can always go on copying or start over |
| OccProgress.GetAcceptedExactlyWhen | src/rtx/local_op_impl.hpp:20-37 | A copied value is accepted exactly if no version was installed since its sequence number was loaded and none is being written |
| OccProgress.MayCommit | src/rtx/occ.cc:45-63 | A transaction can start to commit, with exactly the values that fit its records |
| OccProgress.LocksExactlyWhenFree | src/rtx/occ.cc:672-703 | A record can be locked exactly if no transaction holds it |
| OccProgress.GrantedExactlyWhenLatest | src/rtx/occ.cc:672-703 | The lock is granted exactly if the version that was read is still the last one |
| OccProgress.ValidatesExactlyWhen | src/rtx/local_op_impl.hpp:91-94 | The two loads of a validation succeed exactly if the version read is still the last one and not being overwritten, and exactly if no transaction holds the record |
| OccProgress.AppliesExactlyOnce | src/rtx/default_log_cleaner_impl.hpp:37-83 | A backup can apply a committed write exactly as long as it has only what the primary has |
| OccProgress.InstallsExactlyWhenLogged | src/rtx/occ.cc:97-101 | A committed transaction goes on to install exactly if every backup of every record it writes has applied its write last |
| OccProgress.InstallNeverStuck | src/rtx/local_op_impl.hpp:104-130 | An install can go on exactly as long as the record is held |
| OccProgress.EndsExactlyWhen | src/rtx/occ.cc:101-109 | A transaction can finish exactly if it holds nothing, and an aborted one can release until it can end |
| OccWriteSkew.WriteSkew | src/rtx/local_op_impl.hpp:91-94 | A reachable state whose committed transactions fit no serial order |
| OccHandlers.Server.LockRpc | src/rtx/occ.cc:672-709 | A batch succeeds exactly if all own items are free, unchanged and named once; otherwise the locks taken before the first item that fails, and the lock of an item whose sequence number changed, stay taken |
| OccHandlers.Server.ReleaseRpc | src/rtx/occ.cc:713-727 | Exactly the requester's own locks among the batch's records are freed |
| OccHandlers.ReleaseUndoesLock | src/rtx/occ.cc:365-386 | Releasing a batch after trying to lock it restores every lock word exactly if the requester held none of them before |
| OccHandlers.Server.ValidateRpc | src/rtx/occ.cc:762-782 | A batch is valid exactly if all own items are unlocked and unchanged |
| OccHandlers.Server.InplaceWrite | src/rtx/local_op_impl.hpp:104-130 | The value is replaced, the sequence number goes up by two and the lock is freed |
| OccHandlers.Server.CommitRpc | src/rtx/occ.cc:729-747 | Each record that an own item names ends with the value of the last such item, two up in its sequence number for each, and unlocked; no other record changes |
| SundialTheorems.Serializable | src/rtx/sundial_rdma.h:399-431 | In every run with atomic renewals in which no repeated release finds somebody else's lock, replaying the committed transactions by commit time, and by decision where those agree, gives each exactly the values it read |
| SundialTheorems.SerializableIfCalm | src/rtx/sundial_rdma.h:399-431 | The same in every calm run, atomic renewals or not |
| SundialTheorems.CommitOrderExists | src/rtx/sundial_rdma.h:193-219 | Commit times and decisions put the committed transactions into one order |
| SundialTheorems.StoreIsReplay | src/rtx/sundial_rdma.cc:36-82 | A record without a pending committed write contains what the serial replay leaves there |
| SundialTheorems.VersionTimesIncrease | src/rtx/sundial_rdma.cc:646-653 | The versions of a record carry strictly increasing write times |
| SundialTheorems.ReadIsLatestForever | src/rtx/sundial_rdma.cc:480-531 | In every orderly run, what a transaction with commit time c has read is, then and ever after, the version with the greatest write time not above c |
| SundialTheorems.ReadIsLatestIfCalm | src/rtx/sundial_rdma.cc:480-531 | The same in every calm run |
| SundialTheorems.LeaseIsKept | src/rtx/sundial_rdma.cc:278-280 | No version that starts within a lease is installed over the version it was given for, so a lease that reaches the commit time needs no renewal |
| SundialTheorems.OneHolder | src/rtx/sundial_rdma.cc:591-657 | At most one transaction holds a record's lock |
| SundialCalm.CalmMeans | src/rtx/sundial_rdma.cc:360-395 | A run is calm exactly if no store of a renewal found its record locked, overwritten or promised for longer, and no repeated release found somebody else's lock |
| SundialCalm.OrderlyIsCalm | src/rtx/sundial_rdma.cc:360-395 | A run is calm if renewals are atomic and no repeated release finds somebody else's lock |
| SundialCalm.OnlyOvertakenRenewalDisturbs | src/rtx/sundial_rdma.cc:381-392 | The store of a renewal disturbs a calm run exactly if the record is locked, has a newer version than the one read, or is promised for longer |
| SundialCalm.OnlyRepeatedReleaseDisturbs | src/rtx/sundial_rdma.h:380-407 | A release disturbs a calm run exactly if it is a repetition and another transaction has locked the record |
| SundialTheorems.NoReadAndWrite | src/rtx/sundial_rdma.cc:378-380 | A transaction that reads and writes one record does not commit |
| SundialProgress.BeginsExactlyWhenIdle | src/rtx/sundial_rdma.h:372-378 | A coroutine can begin exactly if its last transaction is over; a transaction can read any record, and what it has locked |
| SundialProgress.LocksExactlyWhenFree | src/rtx/sundial_rdma.cc:591-657 | A record can be locked exactly if no transaction holds it |
| SundialProgress.ConfirmsExactlyWhenLatest | src/rtx/sundial_rdma.cc:503-510 | The second READ confirms the first exactly if no version was installed in between |
| SundialProgress.RenewsExactlyWhen | src/rtx/sundial_rdma.cc:360-395 | A renewal keeps the lease exactly if the version is the last one and the lease long enough, extends it exactly if it is too short and the record was unlocked, and fails in all other cases |
| SundialProgress.DecidesExactlyWhen | src/rtx/sundial_rdma.h:380-397 | When all renewals are over, a transaction commits exactly if none has failed, and gives up exactly if one has |
| SundialProgress.PreparesExactlyWhen | src/rtx/sundial_rdma.h:399-406 | A transaction can go on to renew exactly if everything is confirmed and locked |
| SundialProgress.InstallNeverStuck | src/rtx/sundial_rdma.cc:36-82 | A committed transaction can install or unlock a record exactly as long as it holds it, and finish exactly if it holds none |
| SundialProgress.ReleaseNeverStuck | src/rtx/sundial_rdma.h:380-407 | An aborted transaction can release, or else begin its next round or end |
| SundialProgress.CommitTimeIsLeast | src/rtx/sundial_rdma.h:193-219 | A commit time is the least that is not before any version read, past every lease on what is written, and not before the coroutine's earlier ones |
| SundialProgress.LeaseIsACommitTime | src/rtx/sundial_rdma.cc:381-392 | A record is never promised for longer than some transaction's commit time |
| SundialLostUpdate.LostUpdate | src/rtx/sundial_rdma.h:380-407 | A reachable state with two committed updates of one version, which fit no serial order |
| SundialLateRenewal.StaleAtCommitTime | src/rtx/sundial_rdma.cc:360-395 | A reachable state in which a renewal stored after an overtaking commit leaves a stale read at its commit time |
| SundialHandlers.PackRoundTrip | src/rtx/rwlock.hpp:20-21 | Two 32-bit times come back out of the shared word exactly if both are below 2^31 |
| SundialHandlers.NewLease | src/rtx/sundial_rdma.cc:382-386 | Storing a lease keeps the write time; the lease reads back exactly if it is below 2^31 |
| SundialHandlers.RenewalAgrees | src/rtx/sundial_rdma.cc:360-395 | Where the lock word has just been loaded, the handler refuses, keeps or extends a lease exactly where the protocol's steps do |
| SundialHandlers.Server.RenewLocal | src/rtx/sundial_rdma.cc:360-395 | Renewal succeeds exactly if the version is the same and the lease is long enough or the record unlocked; it never changes the lease of a locked record or shortens one |
| SundialHandlers.Server.RenewRpc | src/rtx/sundial_rdma.cc:423-449 | One reply per own item in their order, each by the item's own version, lease and lock; exactly the leases that may be extended are, to the commit time |
| SundialHandlers.Server.Install | src/rtx/sundial_rdma.cc:43-52 | Both times become the commit time, the value is replaced and the lock is freed |
| DslrTheorems.ExclusiveIsAlone | src/rtx/dslr.cc:200-230 | In every run, an exclusive holder is the only holder |
| DslrTheorems.ExclusiveWaitsForAll | src/rtx/dslr.cc:338-341 | An exclusive holder got in after all earlier tickets of both kinds were released |
| DslrTheorems.SharedWaitsForExclusive | src/rtx/dslr.cc:334-337 | A shared holder got in after all earlier exclusive tickets were released, and no later one has been served |
| DslrTheorems.AskStaysInSegment | src/rtx/dslr.cc:25-26 | No request for a ticket carries into another counter |
| DslrTheorems.BackOutStaysInSegment | src/rtx/dslr.cc:129-136 | No request taken back, by adding 2^64-1 or 2^64-2^16, borrows from another counter |
| DslrTheorems.ReleaseStaysInSegment | src/rtx/dslr.cc:240-266 | No release carries into another counter |
| DslrTheorems.WordCountsTickets | src/rtx/rdma_req_helper.hpp:114-118 | The four counters are the numbers of tickets released and of tickets handed out or being taken back |
| DslrTheorems.OneResetter | src/rtx/dslr.cc:196-198 | At most one client is to reset the word |
| DslrTheorems.ResetExactlyWhenQuiet | src/rtx/dslr.cc:280-296 | The reset succeeds exactly when every ticket is released and no request is being taken back; then all other clients are idle |
| DslrTheorems.ResetStartsAnew | src/rtx/dslr.cc:280-296 | A reset that finds everything released leaves the word 0, no tickets and only idle clients; any other changes nothing |
| DslrTheorems.LastTicketResets | src/rtx/dslr.cc:196-198 | The holder of the last of 32768 tickets of a kind, and nobody else, is to reset the word |
| DslrTheorems.TicketExactlyWhenOpen | src/rtx/dslr.cc:44-81 | A request gets a ticket exactly if fewer than 32768 of either kind have been handed out |
| DslrTheorems.ServedAtOnceExactlyWhen | src/rtx/dslr.cc:200-209 | A client gets in at once exactly if every exclusive ticket is released and, for an exclusive one, every shared ticket too |
| DslrTheorems.ServedExactlyWhen | src/rtx/dslr.cc:331-341 | In every run, a waiting client's turn has come exactly if every exclusive ticket before its own is released and, for an exclusive one, every shared one too; its next look at the word then lets it in, unless it is a reader that is turned away |
| DslrTheorems.NeverStuck | src/rtx/dslr.cc:233-300 | A client can always ask, take back, release or try to reset |
| DslrTheorems.OnlySharedIsTurnedAway | src/rtx/dslr.cc:331-341 | A waiting writer is never turned away; a waiting reader is exactly if more shared tickets have been released than came before its own |
| DslrTheorems.LostTicketBlocks | src/rtx/dslr.cc:331-333 | Once a ticket is lost, nobody with a later exclusive ticket gets the lock and the word is never reset |
| DslrLostTicket.TicketIsLost | src/rtx/dslr.cc:306-342 | A reachable state in which a ticket is lost while every client is idle |
| DslrWord.DecodeEncode | src/rtx/rdma_req_helper.hpp:114-118 | Decoding undoes encoding on 16-bit counters |
| DslrWord.AddOne | src/rtx/rdma_req_helper.hpp:163-184 | Adding one to a counter that is not full changes that counter only |
| DslrWord.CarriesWhenFull | src/rtx/rdma_req_helper.hpp:163-184 | A request changes the neighbouring counter exactly if its own is full |
| DslrWord.TakeBack | src/rtx/dslr.cc:129-131 | The two large addends take exactly one off their counter |
| DslrClient.Lock.Acquire | src/rtx/dslr.cc:22-230 | A request is refused at once exactly if a kind of ticket has run out; otherwise the ticket is given at once if all before are served, and else by the first poll that shows it served or overtaken; the last ticket of a kind carries the reset value |
| DslrClient.Lock.Release | src/rtx/dslr.cc:233-300 | The word after a release, a lapsed lease, or a reset attempt |
| DslrClient.AloneNeverWaits | src/rtx/dslr.cc:200-209 | A lone client is served at once and leaves a word that serves the next one at once |
| BTreeStore.BPlusTree.Insert | src/memstore/memstore_bplustree.h:498-559 | Insertion keeps the tree well formed and linked, leads to every old entry and, if the key is new, to the new one, and returns the key's record |
| BTreeStore.BPlusTree.InnerInsert | src/memstore/memstore_bplustree.h:561-759 | Below an inner node: one or two well-formed subtrees that fill the range, the up-key in the sibling's last slot, one leaf of the chain changed, no foreign cell touched |
| BTreeStore.BPlusTree.LeafInsert | src/memstore/memstore_bplustree.h:761-857 | The leaf, its new neighbour, the links and the version after an insertion |
| BTreeStore.BPlusTree.AddToLeaf | src/memstore/memstore_bplustree.h:828-834 | The shifting loop inserts the entry at its place |
| BTreeStore.BPlusTree.CutLeaf | src/memstore/memstore_bplustree.h:794-800 | The copying loop moves the upper entries |
| BTreeStore.BPlusTree.LinkAfter | src/memstore/memstore_bplustree.h:808-812 | The new leaf is linked between its neighbours |
| BTreeStore.BPlusTree.AddToInner | src/memstore/memstore_bplustree.h:712-720 | The shifting loop inserts key and child and keeps the last key slot while the node is not full |
| BTreeStore.BPlusTree.CutInner | src/memstore/memstore_bplustree.h:681-691 | The copying loop moves the upper keys and children |
| BTreeStore.BPlusTree.AdoptHalves | src/memstore/memstore_bplustree.h:680-703 | A full node is cut at its middle key and the new child goes to the half its range is in |
| BTreeStore.BPlusTree.AdoptCells | src/memstore/memstore_bplustree.h:669-720 | Which cells a node has after taking in a child, in each of the three cases |
| BTreeStore.BPlusTree.GrowRoot | src/memstore/memstore_bplustree.h:739-747 | A split root gets a new root above both parts |
| BTreeStore.BPlusTree.FindLeaf | src/memstore/memstore_bplustree.h:177-191 | The descent ends at the only leaf that can have the key |
| BTreeStore.BPlusTree.Get | src/memstore/memstore_bplustree.h:194-237 | A key is found exactly if it is present, with its record |
| BTree.AbsorbWF | src/memstore/memstore_bplustree.h:664-720 | A node that takes in what became of its child is, or is split into, well-formed trees that fill its range |
| BTree.LeafInsWF | src/memstore/memstore_bplustree.h:784-834 | Insertion into a leaf gives one or two well-formed leaves; one of its own only at the far right end |
| BTree.LeafInsMeans | src/memstore/memstore_bplustree.h:761-857 | A leaf and its new neighbour have the old entries and the new one in order; only a full leaf is split, into halves unless the new key is the greatest of all, which gets a leaf of its own |
| BTree.AdoptMeans | src/memstore/memstore_bplustree.h:664-720 | A node that takes in a child keeps all keys and children in order; only a full one is split, at its middle key, unless the child was started at the far right end |
| BTreeChain.AbsorbGrown | src/memstore/memstore_bplustree.h:664-720 | However nodes are split above it, exactly one leaf of the chain changes |
| BTreeChain.LeavesChain | src/memstore/memstore_bplustree.h:33-57 | The leaves of a well-formed tree are ordered, in and between leaves |
| BTreeEntries.GrownHolds | src/memstore/memstore_bplustree.h:761-857 | Insertion adds the entry if its key is new and keeps every other one |
| BTreeEntries.HoldsOne | src/memstore/memstore_bplustree.h:33-45 | A key leads to one record |
| BTreeMemory.AbsorbFromOld | src/memstore/memstore_bplustree.h:664-720 | No cell is used twice after a split |
| BTreeIterator.Iterator.Seek | src/memstore/memstore_bplustree.cc:251-289 | Positions at the smallest key not below the target, or at the end if there is none |
| BTreeIterator.Iterator.Next | src/memstore/memstore_bplustree.cc:134-181 | After any insertions, goes to the smallest key of the present tree above the last one, or to the end if there is none |
| BTreeIterator.Iterator.Search | src/memstore/memstore_bplustree.cc:147-165 | The walk to the right finds the first greater key |
| BTreeIterator.StepKeepsPos | src/memstore/memstore_bplustree.cc:147-166 | An insertion leaves every iterator's key in its leaf or further right, and untouched if the leaf's version is the same |
| BTreeScan.ScanRun | src/memstore/memstore_bplustree.cc:134-181 | After one seek, any number of moves with any insertions in between yield strictly increasing keys from the target on, each with its record, and skip no key that was there from the start or came in while still ahead; when the scan ends nothing is ahead |
| BTreeScan.InsertAll | src/memstore/memstore_bplustree.cc:147-166 | Any insertions leave the iterator at a place from which it can go on |
| BTreeScan.SkipsNothing | src/memstore/memstore_bplustree.cc:134-181 | Moving to the next key of the present tree each time skips nothing that was ahead at any call |
| LogRing.RoomIsReal | src/db/db_logger.cc:245-273 | The producer's idea of the room left never exceeds the free space |
| LogRing.HeaderTells | src/db/db_logger.cc:249-264 | Reading the header gives the free space exactly unless everything has been fed back; whenever the producer has to read it, it gives the free space |
| LogRing.NeverStalls | src/db/db_logger.cc:245-273 | When everything has been fed back, the room the producer remembers is enough for any entry |
| LogRing.ReservesExactlyWhenFree | src/db/db_logger.cc:245-273 | A reservation succeeds exactly if its bytes and the hole are really free |
| LogRing.ConsumesExactlyWhen | src/framework/backup_worker.cc:85-98 | The consumer finds an entry exactly if the next one has been acknowledged |
| LogRing.ReportsExactlyWhen | src/framework/backup_worker.cc:94-127 | It reports exactly when an eighth of the ring has been consumed since its last report, and zeroes exactly the entry |
| LogRing.WriteNeverStuck | src/db/db_logger.cc:276-283 | What has been reserved can always be written and acknowledged |
| LogRing.CaughtUpMeansRoom | src/framework/backup_worker.cc:100-127 | When everything has been consumed, whether fed back or not, the producer finds room for any entry |
| LogRing.WritesIntoZeros | src/db/db_logger.cc:276-283 | Whatever the producer writes, it writes into zero bytes, and no byte of another entry changes |
| LogRing.EntriesKeepApart | src/db/db_logger.cc:276-283 | Entries stay within ring and padding, and those not fed back share no byte |
| LogRing.ConsumesInOrder | src/framework/backup_worker.cc:85-102 | Entries are consumed in order, and the tail is always where the next one starts |
| LogRing.TailIsClean | src/framework/backup_worker.cc:89-98 | At the tail there are zeros or the next entry's own bytes |
| LogRing.Producer.LogSetup | src/db/db_logger.cc:245-283 | Place, offset and room left after a reservation, for every series of header values |
| LogRing.Consumer.Pass | src/framework/backup_worker.cc:100-127 | The tail after an entry, and when it is fed back |
| WaitList.GlobalLockManager.AddToWaitlist | src/rtx/global_lock_manager.h:51-61 | A new waiter goes to the front, and the list stays linked both ways with its count |
| WaitList.GlobalLockManager.CheckToNotify | src/rtx/global_lock_manager.h:75-175 | A pass gives each free lock to its first waiter, answers everybody else whose stamp is not below the one in its lock, and keeps the others in order |
| WaitList.GlobalLockManager.Unlink | src/rtx/global_lock_manager.h:159-171 | Taking a node out keeps the list linked both ways with its count |
| WaitList.EachOnce | src/rtx/global_lock_manager.h:155-175 | Every waiter either stays or is answered, once |
| WaitList.StampTells | src/rtx/global_lock_manager.h:93-126 | The word that a granted request stores tells its transaction's start: the start itself in the lease protocol, 512 times the start, and one more for writers, in the wait-die protocol |
| WaitList.FateOf | src/rtx/global_lock_manager.h:93-155 | A pass grants a request exactly if the lock was free and nobody before asked for it; of the others it leaves exactly those that started before the holder or face their own write lock, and refuses the rest |
| WaitList.RepliesAnswer | src/rtx/global_lock_manager.h:155-160 | Every reply answers a waiter that does not stay, and a lock is granted to one at most |
| WaitList.OthersKeepTheirWord | src/rtx/global_lock_manager.h:93-126 | A lock that was taken, or that nobody asked for, keeps its word |
| WaitList.LeftIsOlder | src/rtx/global_lock_manager.h:109-146 | Whoever stays has a stamp below the one in its lock |
| WaitList.DeadlockIsOwnLock | src/rtx/global_lock_manager.h:93-120 | After a pass some transaction waits for itself, through any chain of transactions, exactly if a read request that stays faces the write lock of its own transaction |
| WaitList.DeadlockExactlyWhen | src/rtx/global_lock_manager.h:93-120 | A pass leaves a deadlock exactly if before it a transaction asked to read what it has locked for writing, or gets locked for writing in this pass |
| WaitList.WaitsForItself | src/rtx/waitdie_rdma.cc:692-717 | A transaction that has locked a record for writing and asks to read it is left waiting for itself by the pass |
| WaitList.LeasesNeverDeadlock | src/rtx/sundial_rdma.cc:786-800 | With the requests of the lease protocol starts increase along every chain of waiters |
| WaitList.NewestFirst | src/rtx/global_lock_manager.h:51-61 | Of two requests for a free lock the later one gets it and is answered first; the other goes on waiting if its stamp is smaller |
| ClusterHash.Table.Get | src/memstore/cluster_chaining.hpp:100-118 | A key is found, in a slot that holds it, exactly if some slot of its chain does |
| ClusterHash.Table.GetWithInsert | src/memstore/cluster_chaining.hpp:120-126 | The key's old slot, or else a free slot of its chain if there is one, or else the next overflow node; nothing exactly if the chain is full and no overflow node is left. The new slot is found again exactly if the key is below 2^63, and otherwise only for the key with the same 63 bits, if that one has no slot yet and the same header node; no key's slot moves |
| ClusterHash.Table.Insert | src/memstore/cluster_chaining.hpp:194-222 | The first free slot of the chain, or a new overflow node, or nothing if there is none |
| ClusterHash.Table.RemoteGet | src/memstore/cluster_chaining.hpp:130-158 | Going by offsets arrives at the offset of a slot that holds the key, the one that a local lookup finds |
| ClusterHash.OffsetsDiffer | src/memstore/cluster_chaining.hpp:142 | If a node's slots lie apart within it, different slots of the table have different offsets |
| ClusterHash.Table.SlotsDistinct | src/memstore/cluster_chaining.hpp:194-222 | No two keys share a slot |

## Left out

- SundialTheorems.Serializable: assumes an orderly run, and SundialTheorems.SerializableIfCalm a calm one; SundialLostUpdate and SundialLateRenewal show runs that need it. A disturbance can be harmless, so the conditions are not necessary in every run.
- BTreeStore.BPlusTree.Insert: nodes are records in two maps by address instead of separately allocated objects; memory reuse is not captured, and each operation is atomic as its hardware transaction makes it. `Get` leaves its hardware transaction open on an empty leaf, which is not captured.
- WaitList.GlobalLockManager.CheckToNotify: nobody else changes lock words during a pass. Every worker has a list of its own, and chains of waiters are followed within one list.
- The 64-bit wrap-around of timestamps and versions, of the leases' 32-bit counters, and of sequence numbers.
- Each scan of four slots by `check_read` and `check_write` is one step.
- A key is at most once in a multiversion transaction's read set and write set. A key twice in an optimistic or lease-protocol write set makes the transaction abort, which is modelled as any abort.
- Acknowledgements are waited for; passive acknowledgement is not modelled. Deletes in the log and the retry loop of a blocked log application are not modelled.
- The one-sided reads of the multiversion protocol, the RPC reads and updates and the one-sided renewal of the lease protocol.
- Lease recovery of the ticket lock, random back-off, timeouts and real clocks.
- The iterator's backward moves, `SeekToFirst`, `SeekToLast` and links; the tree's delete operations.
- The contents of log entries: an entry is complete when its last word has arrived.
- Two-phase commit, whose participants always vote to commit; NOWAIT, Calvin and the other protocol variants.
- The coroutine ring, completion accounting, batched message codec, views, RDMA verbs, network adapters, benchmarks, configuration and statistics.
