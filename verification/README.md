# Verified model of the transactional storage

A Dafny model of a transactional key/value storage written in C++, from the bytes of its files
up to what concurrent readers see. The storage keeps an append-only data file as the truth and
derives three structures from it: a version index with two slots per serial, a log index by
sequence, and a saved state record. The question at the centre is whether two slots per serial
and one commit number always answer as a full multi-version log would: at every point between
two file writes, after a rollback, after a rebuild, and on a replica. The answer is yes exactly
under a discipline on the calls that is stated and proved as an if-and-only-if.

## How it is built

The reference for all version questions is `VersionLog`: the answer to a read is found by
scanning the complete list of records, with no index at all. Everything else is proved to agree
with it.

- `Records`, `Tables`: the records of the data file and the offsets of their frames; a table as
  the meaning of an indexed file.
- `VersionLog`: the reference semantics, and folds that compute it.
- `SlotIndex`: the two slots of a serial, how writes recycle the older one and rollbacks erase
  the newer one, and what the slots hold after any data file.
- `StoreModel`: the writer as a state machine with one step per file write. `history` holds every
  state the four files have been in, so a reader of another process may run at any of them.
- `SessionInvariant`, `History`: what holds between calls of any session, and which part of the
  data file the index stands for in every state between two file writes.
- `Isolation`, `Discipline`, `Sessions`, `Rollbacks`, `Replay`, `Replica`: the theorems about all
  runs; what one state answers, the discipline read off the calls, isolation and atomic
  visibility, the writer's reads and rollbacks, rebuild, and readers on a replica.
- `CallLog`, `WriteOrder`, `CallReads`, `ReplayLogs`: the same told from the calls alone, in literal
  payloads, numbers and error codes: every record of the data file, the order of all file writes,
  what every read returns, and counters and log index after a rebuild and on a replica.
- `SafeStorage`: the storage handle as a class with the fields of the C++ object; each method is
  proved to take the abstract state to the state the state machine says, and whole sessions,
  readers and replicas on the class inherit the theorems.
- `Bytes`, `Xors`, `Crc32`, `CrcTable`: the checksum. The table is linear and its top byte is
  one-to-one; from that follow the equality of the unrolled loop and the byte loop and the
  detection of damage. The table is generated from the polynomial 0x04C11DB7; the update is the
  least-significant-bit-first form, so this is not the standard IEEE 802.3 checksum.
- `Frames`, `DataArrays`, `BaseSafeFile`: frames as bytes, gathering and scattering of pieces, and
  the file handle with its work area and read cache as a class.
- `IndexedFile`, `DataFile`, `RecordBytes`, `IndexRows`, `StateBytes`: indexed files behave as
  tables, the data file parses back to what was appended, records, index and log entries and the
  state record survive being written as bytes.
- `StoreBytes`, `SessionBytes`: each file write of the store is one write of bytes, so every state
  of a session has files; a reader that parses all of them is isolated exactly under the same
  discipline.
- `Layouts`: the bytes of records, entries and frames at inputs written out.
- `Connection`: reassembly of frames from a stream that arrives in arbitrary pieces.
- `IniFile`: the wildcard matcher and the choice of a group.

A session is a list of calls `CallWrite`, `CallCommit`, `CallRollback`, from the creation of the
store; serials are 1 and up, because serial and sequence 0 hold the hash key.

## Where the code is not what its comments say

The model follows the code.

- The comment on rollback lists saving and syncing the state as steps 3 and 8; that code is
  commented out (src/lib/safe_storage.cpp:879-886). Neither commit nor rollback saves the state.
  A new commit number reaches other readers with the next write or status record.
- `setNewestOffset` stores the offset as the sequence (src/lib/safe_storage.cpp:1032). It is only
  called with -1, and that -1 is what makes an erased slot invisible.
- A second write, in one transaction, to a serial with a committed version recycles the slot of
  that version. `SnapshotIsolation`, `WriterReadsExactly` and `RollbackRestores` state exactly when
  this loses something, and `TwiceWrittenHides` and `TwiceWrittenLost` show it at the shortest
  sessions. What an earlier rollback lost stays lost until the serial is committed again: the
  `Alive` serials are those whose committed version still has a slot.
- `rebuild` uses a handle that is not in read/write mode, so the rebuilt state is never written
  to the state file (`RebuildEqualsLive` states both cases).
- A rebuild and a replica count the STATUS records of the data file and enter their own after every
  49 records on top, so their counts and last sequences drift from the live ones
  (`RebuildCounts` and `ReplicaLog` give both exactly).
- `read` of a checked file promises a length with the checksum; it returns the payload length
  (src/lib/base_safe_file.cpp:390-466).
- For a dynamic frame `read` looks for zeros in all but the last four payload bytes, behind a
  length prefix that is not zero; `Frames.LooksEmpty` keeps this.
- Log entries of rollback records carry offset 0, because the offset of their data record is
  discarded (src/lib/safe_storage.cpp:813, 842).

## Model

| member | source | states |
|---|---|---|
| Sessions.SnapshotIsolation | src/lib/safe_storage.cpp:785-899 | at every point between two file writes of a session without auto-commit, a committed-mode reader gets for every serial the newest WRITE up to the saved commit number that was not rolled back, if and only if no transaction writes a committed serial twice |
| Sessions.AtomicVisibility | src/lib/safe_storage.cpp:803-875 | every file write of a session leaves the committed view of all serials as it was or is a state save that moves all serials at once to the in-memory commit, and the saved commit number never goes back, if and only if no transaction writes a committed serial twice |
| Sessions.SecondWriteHides | src/lib/safe_storage.cpp:785-806 | the index write of a second write to a committed serial makes every committed read of that serial fail, though the log has a version at the saved commit number; the state save before it does not, if the session was write-once until then |
| Sessions.NotOnceHides | src/lib/safe_storage.cpp:1006-1035 | every session that is not write-once hides some serial from committed readers at some point between two file writes |
| Sessions.TwiceWrittenHides | src/lib/safe_storage.cpp:785-806 | write, commit, write, write of one serial is such a session: at one point a committed read of the serial fails |
| History.HistoryOfRun | src/lib/safe_storage.cpp:769-899 | in every session, disciplined or not, each state of the files follows from the one before by one append, one index or log entry or one state save, and its index is that of a prefix of the data file with the first n dirty serials erased, its saved commit number that of the prefix |
| History.WriteRecordAt | src/lib/safe_storage.cpp:785-808 | one WRITE with the status snapshot behind it keeps this at each of its file writes, and saves the commit number |
| History.EraseAt | src/lib/safe_storage.cpp:820-831 | so does every index write of the rollback loop |
| Isolation.AnswersExactly | src/lib/safe_storage.cpp:578-620 | in any such state, a committed reader gets the right version of a serial if and only if its committed version survived the earlier rollbacks and at most one write of it is pending |
| Isolation.PlacedPoints | src/lib/safe_storage.cpp:1006-1035 | in any such state, each slot that is not erased names the offset of a WRITE record of its serial with its sequence |
| Sessions.SlotsPointToWrites | src/lib/safe_storage.cpp:1006-1035 | so it does at every point between two file writes of any session |
| Sessions.AutoCommitBetweenWrites | src/lib/safe_storage.cpp:744-758 | with auto-commit, at every point between two file writes every reader in every mode gets the newest of all writes, the record just being written aside |
| Sessions.AutoCommitReads | src/lib/safe_storage.cpp:744-758 | with auto-commit, every reader in every mode and at any commit number gets the newest write as soon as the call returns |
| CallLog.DataFileOfCalls | src/lib/safe_storage.cpp:744-877 | every field of every record of the data file, payloads, rollback lists and STATUS records included, follows from the calls of the session |
| CallLog.PayloadsStored | src/lib/safe_storage.cpp:744-758 | the WRITE records hold, in order, exactly the serials, lengths and payloads that the write calls hand over |
| WriteOrder.WritesInOrder | src/lib/safe_storage.cpp:785-875 | the order of all file writes: a WRITE goes to data, state, log, index; a COMMIT to data and log; a rollback to data and log, then to the index once per listed serial; a STATUS to data, log, state |
| CallReads.NewestReads | src/lib/safe_storage.cpp:578-620 | what the writer, a dirty read, and with auto-commit any read returns after any session: the payload last written and not taken back, or exactly -505, or -40 for a read-only handle if and only if the serial is above all written so far, or -52 below zero |
| CallReads.CommittedReads | src/lib/safe_storage.cpp:578-620 | what a committed read returns after any session, disciplined or not: the payload that the calls up to the last save leave committed, or the exact error |
| CallReads.CommittedReadsAlways | src/lib/safe_storage.cpp:578-620 | at every point between two file writes of any session, all committed reads return what the first m calls say, payload or exact error |
| CallReads.OnceReadsAlways | src/lib/safe_storage.cpp:578-620 | in a write-once session that is the payload committed last in those calls, as a store without slots would keep it |
| CallReads.ReadsOwnWrite | src/lib/safe_storage.cpp:744-758 | a write of any bytes is read back by the writer as these bytes, with or without auto-commit |
| CallReads.ReadsAfterRollback | src/lib/safe_storage.cpp:424-460 | after a rollback the writer reads the committed payload, or -505 if there is none or two writes have lost it |
| CallReads.NeverCommitted | src/lib/safe_storage.cpp:588-597 | a committed read of a serial never committed fails with -40 above all serials written and with -505 otherwise |
| SessionInvariant.SavedState | src/lib/safe_storage.cpp:888-894 | after any session, every field of the saved state is that of the last WRITE or STATUS record |
| Rollbacks.WriterReadsNewest | src/lib/safe_storage.cpp:578-620 | after every call of a session the writer reads, for every serial, the newest WRITE not undone by a rollback, if and only if no rolled-back transaction had written a committed serial twice |
| Rollbacks.WriterReadsExactly | src/lib/safe_storage.cpp:578-620 | for each serial after any calls: the writer reads it right if and only if it is pending, alive, or was never committed |
| Rollbacks.RollbackRestores | src/lib/safe_storage.cpp:424-460 | for each serial of any session, a rollback brings back every read of every mode as it was before the transaction, if and only if the transaction did not write that serial twice or more while its committed version was alive; earlier transactions may have done anything |
| Rollbacks.OnceRestores | src/lib/safe_storage.cpp:424-460 | so a transaction that wrote each committed serial at most once is undone for every serial, whatever was lost before |
| Rollbacks.LostRead | src/lib/safe_storage.cpp:1027-1035 | two pending writes of a committed serial and a rollback: every read of it, in any mode and at any commit number, fails while the log has a version |
| Rollbacks.TwiceWrittenLost | src/lib/safe_storage.cpp:424-460 | write, commit, write, write, rollback of one serial leaves the writer unable to read it |
| Replay.RebuildEqualsLive | src/lib/safe_storage.cpp:277-310 | replaying the data file of any run gives the same slot pair for every serial, the same commit number and counts, and the same log entries except STATUS |
| ReplayLogs.RebuildCounts | src/lib/safe_storage.cpp:277-310 | all five counters of the rebuilt state, and of the saved one if the handle was opened for writing: with n records the count is n + n / 49 and the last sequence n, or n + 1 exactly if 49 divides n > 0; and every log entry |
| Replay.ReplicaConverges | src/lib/safe_storage.cpp:760-767 | a fresh replica fed with the records of any run answers every read in every mode and at every commit number as the master does, though offsets may differ |
| Replica.ReplicaIsolation | src/lib/safe_storage.cpp:760-767 | at every point between two file writes of a replica, whose own STATUS records save its state at other times than the master, committed readers get what the log of the master holds at the commit number the replica saved, if and only if no transaction of the master wrote a committed serial twice |
| ReplayLogs.ReplicaLog | src/lib/safe_storage.cpp:760-767 | on a replica of any run, readLog of each WRITE and COMMIT sequence returns that very record, rollback entries keep type and serial, a STATUS is found only where the replica entered its own; its data file, counters and saved state are given exactly |
| SessionInvariant.SequenceDiscipline | src/lib/safe_storage.cpp:769-877 | sequences are 1, 2, 3, ... in file order, a record is STATUS exactly at the multiples of 50, and the counters are folds over the data file |
| SessionInvariant.LogIndexAgreement | src/lib/safe_storage.cpp:622-649 | every issued sequence has a log entry with its type and serial, and with offset 0 for a rollback; reading a WRITE, COMMIT or STATUS sequence returns that very record, and any other sequence fails with -70 on the writer, -40 on a reader, -52 below zero |
| SessionInvariant.RunsKeepInv | src/lib/safe_storage.cpp:769-877 | every reachable state satisfies the session invariant: the index is the fold of the data file, the dirty list is what is pending |
| SlotIndex.IndexRefinesLog | src/lib/safe_storage.cpp:1006-1035 | after any data file a session can write, the two slots of a serial hold its surviving committed version and its pending writes, the newest two of them |
| SlotIndex.RegAfterRollback | src/lib/safe_storage.cpp:820-831 | erasing the newer slot once for each listed serial leaves the surviving version, or nothing if two pending writes had filled both slots |
| SlotIndex.SurvivingIsCommitted | src/lib/safe_storage.cpp:1006-1035 | the surviving version is the committed one or lost, never an older one |
| SlotIndex.SafeSurvives | src/lib/safe_storage.cpp:1006-1035 | it is the committed one in every log whose rolled-back transactions wrote each committed serial at most once |
| SlotIndex.EraseLoopAt | src/lib/safe_storage.cpp:820-831 | the rollback loop erases the slot pair of a serial as often as the serial is listed, and no other pair |
| SlotIndex.SetOldestShifts | src/lib/safe_storage.cpp:1006-1025 | a newer write becomes the newest slot and the former newest the oldest |
| SlotIndex.EraseShifts | src/lib/safe_storage.cpp:1027-1035 | erasing the newest slot makes the other one the newest |
| VersionLog.FoldsAreScans | src/lib/safe_storage.cpp:1037-1056 | the incremental notions of committed, pending and newest version equal scans of the complete log |
| VersionLog.SnapshotAtCommit | src/lib/safe_storage.cpp:1037-1056 | what the log answers at a commit record is the committed version there, whatever follows |
| VersionLog.SnapshotStable | src/lib/safe_storage.cpp:1037-1056 | later records do not change what the log answers at an earlier commit |
| Discipline.RunsMatch | src/lib/safe_storage.cpp:395-409 | what the log holds can be told from the calls alone: pending, committed and surviving serials, and both disciplines |
| SafeStorage.Storage.Create | src/lib/safe_storage.cpp:222-275 | a created store is the fresh state of the state machine |
| SafeStorage.Storage.Rebuild | src/lib/safe_storage.cpp:277-310 | rebuild takes a data file to the replayed state, one record at a time |
| SafeStorage.Storage.Put | src/lib/safe_storage.cpp:744-758 | write is one step of the state machine, with the payload length as result |
| SafeStorage.Storage.Commit | src/lib/safe_storage.cpp:372-393 | commit is one step; under auto-commit it does nothing |
| SafeStorage.Storage.Rollback | src/lib/safe_storage.cpp:424-460 | rollback is two records with the dirty list as payload; under auto-commit it is refused |
| SafeStorage.Storage.RollbackBeginRecord | src/lib/safe_storage.cpp:811-838 | the loop over the listed serials, with the register that a failed read leaves behind |
| SafeStorage.Storage.GetLastOffset | src/lib/safe_storage.cpp:1037-1056 | the loop over two slots finds the visible slot with the largest sequence |
| SafeStorage.Session | src/lib/safe_storage.cpp:372-460 | a new object on which the calls of a session are made, one after the other, is in the state of the run |
| SafeStorage.ReadAfter | src/lib/safe_storage.cpp:578-620 | the writer object after such a session reads a serial right if and only if it is pending, alive, or was never committed, and returns exactly the payload or error that the calls say |
| SafeStorage.WriteAndRead | src/lib/safe_storage.cpp:744-758 | after any session on the object, a write of any bytes and a read give back the length and the bytes |
| SafeStorage.ReadCommittedAfter | src/lib/safe_storage.cpp:578-620 | a new read-only object after a session returns exactly the payload or error that the calls up to the last save say |
| SafeStorage.ReadDuring | src/lib/safe_storage.cpp:578-620 | a read-only object opened between any two file writes of a write-once session, which loads the saved state first, reads the snapshot of the multi-version log |
| SafeStorage.Replicate | src/lib/safe_storage.cpp:760-767 | an object that is fed the records of a data file is the replica of the theorems above |
| SafeStorage.RebuildAfter | src/lib/safe_storage.cpp:277-310 | an object rebuilt from the data file of a session has the live index and exactly these counters |
| SafeStorage.ReadReplicaLog | src/lib/safe_storage.cpp:622-649 | an object fed with the records of a session returns each WRITE and COMMIT under its sequence |
| CrcTable.Compute | src/base/crc32.cpp:265-295 | the slicing loop with its unrolled part and byte tail computes the byte-at-a-time checksum, for every length and initial value |
| Crc32.BlockIsEightSteps | src/base/crc32.cpp:265-269 | one block of eight table lookups is eight byte steps |
| CrcTable.CrcConcat | src/base/crc32.cpp:271-295 | the checksum of a + b is that of b started from that of a |
| CrcTable.BurstDetected | src/base/crc32.cpp:288-294 | no change confined to four consecutive bytes of a valid frame gives another valid frame |
| CrcTable.KitIsGood | src/base/crc32.cpp:7-39 | table 0 is linear and its top byte is one-to-one |
| CrcTable.TableEntries | src/base/crc32.cpp:7-263 | all 2048 entries of the eight tables: each is the exclusive or of the entries that the program spells out for the single bits of its byte |
| CrcTable.ZeroRecords | src/base/crc32.cpp:288-294 | 13 and 26 zero bytes have a checksum other than zero |
| CrcTable.CheckValue | src/base/crc32.cpp:271-295 | the checksum of the digits 1 to 9 is 0x7EAD5C77 |
| Bytes.MemZero | src/base/crc32.cpp:298-321 | true exactly if all bytes are zero, over the 128-byte rounds, the words and the tail |
| Frames.DamageDetected | src/lib/base_safe_file.cpp:439-482 | a change confined to four bytes of a stored static frame, in payload, checksum or across them, is never returned by a checking read |
| Frames.DynamicDamageDetected | src/lib/base_safe_file.cpp:439-482 | the same for a dynamic frame behind its length prefix |
| Frames.CacheTransparentStatic | src/lib/base_safe_file.cpp:744-814 | with or without the cache a static read succeeds on the same offsets and delivers the same bytes |
| Frames.CacheTransparentDynamic | src/lib/base_safe_file.cpp:744-814 | so does a dynamic read |
| Frames.RawReadsAgree | src/lib/base_safe_file.cpp:760-813 | cached and plain reads differ exactly on empty reads and in the error of reads that straddle the end of the file |
| Frames.WriteElsewhere | src/lib/base_safe_file.cpp:567-610 | a write leaves other bytes as they are, and a gap reads as zeros |
| Frames.StaticOutcome | src/lib/base_safe_file.cpp:439-482 | a static frame in the file is delivered if valid, reported empty exactly if it is all zeros and that was asked for, and otherwise damaged |
| Frames.DynamicOutcome | src/lib/base_safe_file.cpp:403-482 | so is a dynamic one, but it is reported empty only without payload |
| Frames.DynamicEndIs | src/lib/base_safe_file.cpp:403-446 | when and how far a dynamic read moves the current position, good frame or damaged |
| BaseSafeFile.SafeFile.Write | src/lib/base_safe_file.cpp:333-370 | the file becomes the old file with one frame of the gathered pieces written at the position, or stays as it is with an error; the cache stays right |
| BaseSafeFile.SafeFile.Read | src/lib/base_safe_file.cpp:403-498 | result and buffers are those of the byte-level read of the file, whatever the cache holds; a successful read moves the current position behind the frame, that is by the result and 4 bytes, or 8 for a dynamic one |
| BaseSafeFile.SafeFile.ReadWorkArea | src/lib/base_safe_file.cpp:744-814 | the bytes of the file arrive behind the skipped ones, or the error that the byte-level read names |
| BaseSafeFile.SafeFile.ReadCached | src/lib/base_safe_file.cpp:760-795 | the fill-and-copy loop ends, succeeds exactly if the file has the bytes, and keeps the cache a slice of the file |
| BaseSafeFile.SafeFile.FillWorkArea | src/lib/base_safe_file.cpp:508-556 | the work area holds the frame of the pieces: length prefix, pieces in order, checksum, all within the rounded size |
| BaseSafeFile.SafeFile.WriteWorkArea | src/lib/base_safe_file.cpp:567-610 | seek, write and their errors; overlapping cached bytes are dropped before a failed write is reported, and what stays cached equals the file |
| BaseSafeFile.SafeFile.ClearCache | src/lib/base_safe_file.cpp:618-648 | the cache is kept as it is or dropped, exactly by whether it overlaps the bytes written; what stays equals the file |
| BaseSafeFile.SafeFile.CheckWorkAreaSize | src/lib/base_safe_file.cpp:713-734 | the area grows to whole pages, to less than a page more than needed, and keeps its bytes |
| BaseSafeFile.SafeFile.CheckFrame | src/lib/base_safe_file.cpp:448-482 | the verdict on a frame: good, empty or damaged |
| DataArrays.GatherScatter | src/base/data_array.cpp:104-149 | fixed pieces followed by a variable one come back unchanged, the variable one as the longest prefix that fits its receiver |
| DataArrays.FixedRoundTrip | src/base/data_array.cpp:104-149 | fixed pieces alone come back unchanged |
| DataArrays.AllServed | src/base/data_array.cpp:104-149 | scattering succeeds exactly if the fixed pieces before a variable one fit and no other fixed piece needs bytes |
| DataArrays.UnpackUndoesPack | src/base/data_array.cpp:33-51 | the length in the low 24 bits and the flag above it are recovered from one word |
| DataArrays.DataArray.constructor | src/base/data_array.cpp:18-55 | pieces, total size, and size before the first variable piece |
| DataArrays.DataArray.SetFromBuffer | src/base/data_array.cpp:104-149 | each buffer holds its share, bytes behind it and later buffers are untouched, and -1 means a piece was not served |
| DataFile.ScanReturnsAll | src/lib/base_safe_file.cpp:403-498 | a scan from the header on returns exactly the appended records in order, up to the first without payload |
| DataFile.NoneEmpty | src/lib/safe_storage.cpp:301-305 | nothing is cut off exactly if every record has a payload |
| DataFile.ReadsRecord | src/lib/base_safe_file.cpp:403-498 | a read at a recorded offset returns that record and moves to the next one |
| DataFile.AppendsKeepRecords | src/lib/base_safe_file.cpp:333-370 | later appends change no record and no recorded offset |
| DataFile.Append | src/lib/base_safe_file.cpp:333-370 | an append makes the file that of one more record, at the offset it remembers |
| DataFile.Scan | src/lib/safe_storage.cpp:294-305 | the reading loop delivers every appended record, as far as it fits the buffers |
| DataFile.ReadAll | src/lib/safe_storage.cpp:293-305 | wherever the position was, the read of the header at 0 and the loop behind it deliver every record, unchanged if it fits the buffers, otherwise the prefix that fills them, and end with -40 or -70 |
| RecordBytes.DecodeEncode | src/include/safe_storage_imp.h:48-55 | every record with int32 fields is read back from its packed bytes |
| RecordBytes.ReadsLocated | src/lib/base_safe_file.cpp:403-498 | a read of the bytes at the offset of a record of the log returns that record |
| RecordBytes.AppendRefinesLog | src/lib/safe_storage.cpp:972-984 | appending a frame at the end of the bytes is appending the record to the log |
| Layouts.WriteHeader | src/include/safe_storage_imp.h:48-55 | the 17 bytes of a WRITE header written out |
| Layouts.TypeBytes | include/safe_storage.h:80-84 | the first four bytes of a record of each type |
| IndexedFile.ReadsLastPut | src/include/safe_file.h:85-101 | after any writes of rows, a read returns the last record written to its row, and a row never written is reported empty, or past the end on a read-only handle |
| IndexedFile.WriteRefines | src/include/safe_file.h:91-95 | a row write changes that row of the table and no other, also when it leaves holes |
| IndexedFile.ReadRefines | src/include/safe_file.h:85-89 | a row read is a table lookup for every number, negative ones included |
| IndexedFile.HoleIsEmpty | src/lib/base_safe_file.cpp:454-475 | a row of zeros reads as empty if and only if zeros have another checksum than zero; otherwise it reads as a record of zeros |
| IndexedFile.WriteIndex | src/include/safe_file.h:91-95 | the method on a handle |
| IndexedFile.ReadIndex | src/include/safe_file.h:85-89 | the method on a handle |
| IndexRows.IndexRoundTrip | src/include/safe_storage_imp.h:84-89 | every index entry is read back from its 26 bytes |
| IndexRows.LogRoundTrip | src/include/safe_storage_imp.h:77-82 | every log entry is read back from its 13 bytes |
| IndexRows.GetRefines | src/include/safe_file.h:85-89 | a lookup in the bytes gives the typed entry, for rows from 1 on |
| Layouts.LogBytes | src/include/safe_storage_imp.h:77-82 | the 13 bytes of a log entry written out |
| Layouts.IndexBytes | src/include/safe_storage_imp.h:84-89 | 26 bytes written out and the index entry that they are |
| StateBytes.StateRoundTrip | src/include/safe_storage_imp.h:57-75 | the counters, commit number and sequence are read back from the 181 bytes of the state record, whatever its other fields hold |
| StoreBytes.FreshOnBytes | src/lib/safe_storage.cpp:679-697 | once the hash key is in all files and the state saved, their bytes are those of the fresh store |
| StoreBytes.DataWriteOnBytes | src/lib/safe_storage.cpp:972-984 | the data write of the store as a write of bytes |
| StoreBytes.IndexWriteOnBytes | src/lib/safe_storage.cpp:806 | the index write of the store as a write of bytes |
| StoreBytes.LogWriteOnBytes | src/lib/safe_storage.cpp:805 | the log write of the store as a write of bytes |
| StoreBytes.SaveOnBytes | src/lib/safe_storage.cpp:888-894 | the state save of the store as a write of bytes |
| StoreBytes.BytesAnswer | src/lib/safe_storage.cpp:578-620 | a read in any mode that goes through the bytes of index and data file answers as the model does, its errors included, wherever slots point to writes |
| StoreBytes.CommittedOnBytes | src/lib/safe_storage.cpp:578-620 | so does a reader that parses the saved state as well |
| SessionBytes.StepBytes | src/lib/safe_storage.cpp:769-899 | every file write of the store is one write to the bytes of one file |
| SessionBytes.SessionOnBytes | src/lib/safe_storage.cpp:769-899 | every session whose records fit their fields has bytes for each state its files pass through, from those of a store just created on, each obtained from the one before by one write |
| SessionBytes.ReadsOnBytes | src/lib/safe_storage.cpp:578-620 | at every point between two file writes of such a session, every read through the bytes is the read of the model |
| SessionBytes.SnapshotIsolationOnBytes | src/lib/safe_storage.cpp:578-620 | at every such point, a reader that parses state, index and data file gets for every serial the snapshot at the commit number it parsed, if and only if no transaction writes a committed serial twice |
| SessionBytes.LogReadsOnBytes | src/lib/safe_storage.cpp:622-649 | after any calls, readLog through the bytes returns every WRITE, COMMIT and STATUS record |
| SessionBytes.LogEndsOnBytes | src/lib/safe_storage.cpp:622-649 | beyond the last sequence it fails with -70 on a handle for writing and -40 otherwise |
| SessionBytes.AnswersOnBytes | src/lib/safe_storage.cpp:578-620 | at every point between two file writes of any session, a reader that parses the files gets for every serial the payload or exact error that the first m calls say |
| StoreBytes.LogBytesAnswer | src/lib/safe_storage.cpp:622-649 | readLog through the bytes returns the record that the model finds |
| Connection.Reassembly | src/lib/safe_storage_connection.cpp:43-78 | of any frames followed by part of another one, exactly the frames are completed, in order, and the part is left |
| Layouts.StreamBytes | src/include/safe_storage_net.h:20-27 | a header with 20 in its len field, four bytes of data and one byte more: one request, and one byte left |
| Connection.SafeStorageConnection.OnData | src/lib/safe_storage_connection.cpp:43-78 | whatever the pieces that read() returns, the requests are the completed frames of all bytes received, the buffer holds the bytes behind them, and no write leaves it |
| Connection.SafeStorageConnection.Realloc | src/lib/safe_storage_connection.cpp:30-41 | the buffer grows to whole blocks and keeps its bytes |
| Connection.SafeStorageConnection.Fire | src/lib/safe_storage_connection.cpp:57-61 | the requests get one more, with the header and the payload of the frame in the buffer, and the buffer is empty again |
| IniFile.WildcardMatch | src/base/ini_file.cpp:181-200 | true exactly if the string can be divided into one part for each pattern character, each part being what the character stands for; the recursion ends |
| IniFile.MatchStar | src/base/ini_file.cpp:189-190 | a star takes nothing, or one character and then itself again |
| IniFile.Ini.GetWildcardMatchGroup | src/base/ini_file.cpp:202-216 | the chosen group matches and no matching group has an earlier first line; without a match it is the default |
| IniFile.Ini.AddKeyValue | src/base/ini_file.cpp:116-136 | the maps and the list of names keep agreeing with the lines of the file |
| IniFile.Ini.InternalGetParam | src/base/ini_file.cpp:138-153 | the last value of the key in the group, else in the default group, else the default |
| IniFile.NamesInOrder | src/base/ini_file.cpp:116-136 | the list holds every named group, in the order of their first lines |

## Left out

- Crash recovery, reopening a store for writing, and sessions closed with uncommitted writes: `close` drops the dirty list without a rollback, so nothing is promised across it. One writer session from creation is modelled.
- `verify` and `recoverDirtySerials`: both take a successful read for an error, and the second is never called.
- State fields that writeFiles does not maintain (rollback counts, last close, last rollback, last updated), the ring of last offsets, and the hash key with its record in row 0: serial 0 and sequence 0 are absent in the tables of the model.
- `readLog` on rollback sequences: their log offset is 0, and what the program makes of the header record there is left out.
- I/O errors, short reads of regular files, sync, and overflow of int32 sequences, counts and sizes. Payloads beyond the 24-bit length of a piece are outside the model too.
- A stored length below four in a data file: the program goes on with a negative size and undefined behaviour, the model returns the read error.
- A stream header whose len is below the header size: the program hands read() a negative size, the model stops with the outcome Stuck.
- Caches of several handles on one file: a cache is proved right for the reads and writes of its own handle; index and log files are read without a cache, which is the default.
- A reader's load of the state, index read and data read are one step between two file writes of the writer.
- Two handles writing, threads, mutexes, sockets, epoll, the proxy, bridge, client and replica stubs, logging, exceptions as control flow, and file permissions.
- `F_DYNAMIC_ALLOCATE`, a receiver that gets a new buffer: nothing in the repository uses it.
- `findLastSignatureReg`: its scan never advances within a block.
- Splitting the text of an INI file into lines and number conversion: `AddKeyValue` receives group, key and value.
- The contents of a ROLLBACK_BEGIN record are a list of serials in the model of the store; `RecordBytes` gives its bytes.
- Replay.RebuildEqualsLive: assumes that rollback lists fit the 1 MB read buffer of rebuild. For a longer one the bytes are cut while the count in front of them is kept (src/lib/safe_storage.cpp:292, 300-303, 818-830), so the program reads past its buffer; that behaviour is undefined and nothing is claimed about it.
- SessionBytes.SessionOnBytes: assumes that the records of the session fit their int32 fields and the data file an int64 offset; the fields of the state record that the model leaves out, and the hash key, are arbitrary bytes.
