# ZidaneDB: a verified model

ZidaneDB is a key/value store made of two files: an append-only log of checksummed records, and a hash
index whose chains are threaded through the index file by absolute byte offsets. A clean flag and a
checkpoint in the index header decide, when the database is opened, whether the index is trusted or
rebuilt from the log.

This project models the four core source files down to the bytes they write and proves what they are for:

* **Crash atomicity.** Every operation is a list of single file writes, and the process may be killed
  between any two of them or inside one of them after any number of bytes, during recovery too. Between
  two lives of the process the index file may vanish or be overwritten, as long as the log is whole.
  `CrashRuns.CrashAtomicity` says for every run that every operation that returned is kept and returned
  what a map would have returned, and that every killed one happened entirely or not at all.
  `CrashRuns.NextOpenSucceeds` says that the next open always succeeds and changes nothing of that, and
  `CrashRuns.CleanFlagSound` that a set clean flag never lies.
* **Lost updates.** A `put` or `erase` may throw between two of its writes while the process lives on, and
  an index may be rebuilt from a later record than the first. `LostUpdates.CloseGuardExact` says after which
  calls `close` then accepts the files, and when it is right to; `LostUpdates.OtherCallsRight` that every
  other key is still served correctly.
* **The index is a map.** On any well-formed byte image, `set`, `erase` and `find` are map update,
  removal and lookup, and every image between two of their writes is accounted for.
* **The log is a list.** Record encoding is prefix-free, reading classifies every prefix exactly,
  scanning finds the one longest run of records, and any damage within four consecutive bytes of a record
  that spares its length fields is noticed. `Damage.DamagedReads` says what that means to the database: the
  key whose value was hit throws, every other key reads as before, and no wrong value is ever returned.
* **The classes do this.** The methods of `Index` and `Database` are proved to make exactly the writes of
  those lists, in order: a ghost journal on the disk records every write.

## How the model is built

| file | models |
|---|---|
| `Codec.dfy` | integers, strings and streams of `src/utils.cpp` |
| `BinaryDigits.dfy`, `Crc32c.dfy` | bits of numbers; the CRC32C of section 12.1 of RFC 3720, bit by bit, and why it catches bursts |
| `Castagnoli.dfy`, `CrcWords.dfy` | the same checksum as the remainder of a polynomial, and as a computation on 32-bit words |
| `Vectors.dfy` | published and golden values of both hash functions and of every byte format |
| `Records.dfy` | `src/record.cpp` |
| `Log.dfy` | lists of records, scanning, replaying, the log header |
| `IndexImage.dfy`, `IndexUpdates.dfy`, `IndexPlans.dfy` | index bytes: well-formedness and meaning, single writes, whole updates |
| `IndexSetup.dfy`, `IndexMetadata.dfy`, `IndexCounts.dfy` | new and rebuilt indexes, header fields, chain statistics |
| `DiskModel.dfy` | the files and the journal of writes |
| `HashIndex.dfy` | the `Index` class of `src/index.cpp` |
| `Protocol.dfy` | the writes and results of every database operation |
| `CrashSteps.dfy`, `CrashPlans.dfy`, `CrashRuns.dfy` | kills inside one write, one operation, a whole run |
| `LostUpdates.dfy` | calls that throw part of the way, and what `close` makes of them |
| `Recovery.dfy` | recovery and opening on arbitrary files |
| `Damage.dfy` | reading, scanning and opening a damaged log |
| `Database.dfy` | the `Database` class of `src/database.cpp` |

Choices that matter for reading it:

* A file is a sequence of bytes. Renaming and resizing happen at once or not at all; every other write can
  be cut after any byte. Writes that were issued survive a kill in the order they were issued.
* Integers are natural numbers and every 64-bit field is encoded modulo 2^64. Files are kept below 2^62
  bytes (`Protocol.FILE_LIMIT`), so that no offset wraps.
* The stored offset of a key is the start of its record (src/database.cpp:237, src/database.cpp:465), not
  the value's length prefix as the comment at src/index.cpp:27 says.
* Well-formedness of an index speaks of reachable entries only. Bytes that no chain reaches, such as erased
  entries and entries cut short by a kill, may be anything.
* Where the source throws because bytes it needs are missing, the model asserts that they are there: the
  methods of an open database are proved never to reach those throws.

## What does not hold

* The index is meant to be disposable, since the log can replace it (src/database.cpp:94-96). That fails for
  a log whose last record was cut short: with the index missing or its header damaged, opening is refused.
  `Recovery.TornTailNeedsIndex` gives the exact condition and `Recovery.TornTailRefused` the smallest case.
* `Index::erase` passes through an image that maps the key to offset zero (`IndexPlans.EraseEveryStep`).
  Only the dirty flag covers that state.
* `close` is meant to declare an index clean only if it represents the whole log (src/database.cpp:142-143),
  but it compares sizes only. If the index update of a `put` or `erase` is lost to an exception and any later
  one succeeds, the checkpoint jumps over the lost record and `close` accepts. `LostUpdates.CloseGuardExact`
  gives the exact condition after any calls: what `close` marks clean is the index of the log if and only if
  no key is left stale, that is, every key whose update was lost has been logged again since, or the index
  rebuilt from the first record. For one lost update and one later call, `LostUpdates.LostThenLogged` reads:
  exactly when the two name the same key, so retry the failed key first. Until then `get` goes on returning
  the old value (`LostUpdates.LostPutUnseen`), and the next open trusts the index.
  `LostUpdates.LostThenLoggedInstance` is the smallest run. Kills cannot cause any of this.
* `rebuild_index` from a later record moves the checkpoint to the end of the log all the same
  (src/database.cpp:492-493), and `close` accepts. `LostUpdates.RebuiltFromRecord` gives the exact condition:
  the index is right if and only if no live key has its value before that record, and otherwise it misses
  exactly those keys. `LostUpdates.RebuiltFromInstance` is the smallest run.

## Model

| member | source | states |
|---|---|---|
| `CrashRuns.CrashAtomicity` | src/database.cpp:64-283 | after any run from an open database, with kills at any byte and the index lost over a whole log while no process runs, the log accounts for the whole history: completed operations kept with the right results, killed ones all or nothing |
| `CrashRuns.NextOpenSucceeds` | src/database.cpp:64-125 | at every instant of every run the next open succeeds and keeps exactly what the log holds |
| `CrashRuns.CleanFlagSound` | src/database.cpp:110-150 | in every reachable state an index that loads and is marked clean has checkpoint = log size and is the replay of the whole log; and it does load in every state, unless lost from outside |
| `CrashRuns.InvariantStep` | src/database.cpp:64-283 | every begin, single write, return, kill and loss of the index keeps the files safe and the history explained, and all but the last keep the index header intact |
| `CrashRuns.InvariantRun` | src/database.cpp:64-283 | the same over whole runs |
| `CrashRuns.CreatedInvariant` | src/database.cpp:76-86 | a new database is empty and satisfies the invariant every run keeps |
| `CrashRuns.BegunInvariant` | src/database.cpp:64-125 | so does any open database between operations |
| `CrashRuns.PreparedOpen` | src/database.cpp:76-86 | a new log beside any empty index, however large its table or its dead entries, is an open and empty database |
| `CrashRuns.EveryOpCorrect` | src/database.cpp:64-283 | each operation is crash-safe, returns what a map would and ends with its effect |
| `CrashRuns.OpenCorrect` | src/database.cpp:64-125 | opening has no effect on the contents, before, during and after its writes, with an index that is clean, dirty, missing or unacceptable |
| `CrashRuns.CloseCorrect` | src/database.cpp:137-157 | closing an open database is always accepted and leaves files that can be trusted |
| `CrashRuns.PutCorrect` | src/database.cpp:192-244 | `put` within the limits is map update, beyond them nothing |
| `CrashRuns.EraseCorrect` | src/database.cpp:246-283 | `erase` is map removal and reports whether the key was there |
| `CrashRuns.GetCorrect` | src/database.cpp:159-190 | the record at an indexed offset is a readable Put of that key with its current value, so the three throws are unreachable |
| `CrashRuns.GetExact` | src/database.cpp:159-190 | on any files: a value is returned exactly if the log at the indexed offset begins with the record that puts it, none exactly if the key is not indexed, and otherwise it throws |
| `CrashRuns.ReadThrough` | src/database.cpp:159-190 | a key whose indexed offset is the one the log gives it reads as its current value, whatever the index holds for others |
| `CrashRuns.RebuildCorrect` | src/database.cpp:399-494 | `rebuild_index` and `recover_records` on an open database change nothing |
| `CrashSteps.HarmlessSafe` | src/database.cpp:233-243 | writes that spare the header identity of a dirty index are safe at every byte |
| `CrashSteps.DirtySafe` | src/database.cpp:110-115 | a dirty index with an intact header makes any recoverable log safe, whatever else the index holds |
| `CrashSteps.KillLeavesPrefix` | src/database.cpp:210-228 | a kill during a write leaves any prefix of its bytes; the rename happens or does not |
| `CrashSteps.LogTorn` | src/database.cpp:210-228 | an append cut after any byte leaves a recoverable log holding the old contents, or the new ones if complete |
| `CrashSteps.AppendSafe` | src/database.cpp:210-228 | the log append alone decides between the contents before and after |
| `CrashSteps.CrashSafeConcat` | src/database.cpp:192-283 | crash-safe stretches of writes compose |
| `CrashPlans.LoggedSafe` | src/database.cpp:210-241 | append, index writes and checkpoint are together safe at every byte |
| `CrashPlans.LoggedServing` | src/database.cpp:210-241 | whatever map the index held, after the writes of a logged record it is that map with the record applied, and the checkpoint is the end of the log |
| `CrashPlans.LoggedDone` | src/database.cpp:210-241 | so an index of the whole log is one of the log including the new record |
| `CrashPlans.FlagSafe` | src/database.cpp:123-150 | setting or clearing the flag of a caught-up index is safe and changes only the flag |
| `CrashPlans.StagedSafe` | src/database.cpp:450-478 | nothing done to the staging index can hurt |
| `CrashPlans.RebuildSafe` | src/database.cpp:431-494 | a rebuild over a dirty, missing or unacceptable index is safe at every byte, since what is renamed into place is dirty |
| `CrashPlans.RebuildDone` | src/database.cpp:480-493 | a finished rebuild installs an index of the whole log, not marked clean, with the bucket count asked for |
| `CrashPlans.ValidPart` | src/database.cpp:338-397 | the log up to the failing offset is the header and exactly the scanned records |
| `CrashPlans.RecoverSafe` | src/database.cpp:399-424 | recovery with truncation is safe at every byte and keeps the contents |
| `CrashPlans.OpenSafe` | src/database.cpp:64-125 | opening files left by any kill, or without their index, succeeds, is safe under further kills and keeps the contents |
| `CrashPlans.LostIndexReplaced` | src/database.cpp:93-108 | a missing or unacceptable index over whole records is replaced; a kill at any byte of that leaves files that open again with the same contents |
| `Recovery.TruncationBounded` | src/database.cpp:409-414 | recovery of any log cuts less than one record of the largest size, and something exactly when the scan ran out of bytes |
| `Recovery.RecoveryIdempotent` | src/database.cpp:399-424 | recovery keeps everything before the failing offset, reports the bytes it removed, and done twice changes nothing more |
| `Recovery.RebuiltTwice` | src/database.cpp:431-494 | rebuilding again reproduces the files byte for byte |
| `Recovery.BucketCountIrrelevant` | src/database.cpp:426-468 | the rebuilt map does not depend on the number of buckets |
| `Recovery.ScanDecides` | src/database.cpp:366-394 | a scan succeeds exactly on whole records, and reports truncation exactly on whole records and a cut one |
| `Recovery.OpensExactly` | src/database.cpp:64-125 | for all files, when opening succeeds, in terms of what the log is, whether the index header is intact, and the clean and checkpoint bytes |
| `Recovery.TrustsExactly` | src/database.cpp:110-120 | an index that loads is used without recovery if and only if byte 40 is 1 and bytes 32 to 39 hold the size of the log |
| `Recovery.DistrustRebuilds` | src/database.cpp:110-120 | if those bytes say otherwise and the log can be recovered, what opens is an index of the records that are there |
| `Recovery.OpenRebuilds` | src/database.cpp:89-120 | opening by way of a rebuild ends with an index of the records the log held, cuts off what it reports, and has the buckets of the old index, or those asked for if it did not load |
| `Recovery.OpenReports` | src/database.cpp:89-120 | the report of every opening: missing, invalid or unclean index, or none, exactly when it was so, and the bytes removed; and the number of buckets afterwards |
| `Recovery.RecoverDone` | src/database.cpp:399-424 | recovery keeps what was scanned, removes the bytes it reports and gives the index the number of buckets it was called with |
| `Recovery.TornTailNeedsIndex` | src/database.cpp:89-120 | with a torn tail, opening succeeds if and only if the index header is intact |
| `Recovery.TornTailRefused` | src/database.cpp:102-108 | one byte of a record and no index: refused, though the same log without that byte opens |
| `LostUpdates.CloseGuardExact` | src/database.cpp:137-150 | after any calls, some of which threw part of the way or rebuilt from a later record: `close` accepts if and only if a logging call or rebuild finished after the last such throw; the index is that of the log if and only if no key is left stale; the next open trusts it either way |
| `LostUpdates.CallStep` | src/database.cpp:192-283 | exactly which keys the index is wrong about after a call, finished or thrown after any of its writes, whether the checkpoint falls short, and that the number of buckets stays |
| `LostUpdates.CallSteps` | src/database.cpp:192-283 | the same after any number of calls |
| `LostUpdates.LoggedCall` | src/database.cpp:210-241 | a call that logs and indexes its record settles its key and no other, and moves the checkpoint to the end of the log over everything that was lost |
| `LostUpdates.ThrownCall` | src/database.cpp:233-243 | a throw after the append makes the key stale unless the last index write was made, and leaves the checkpoint behind |
| `LostUpdates.CallRight` | src/database.cpp:159-283 | on an index that lags, every call that does not read or erase a stale key does and returns what a map would |
| `LostUpdates.OtherCallsRight` | src/database.cpp:159-283 | the same after any number of calls that threw |
| `LostUpdates.AttachedOpened` | src/database.cpp:142-145 | no stale key and the checkpoint at the end is the state of an open database that lost nothing |
| `LostUpdates.LostThenLogged` | src/database.cpp:142-150 | one lost update, one later call that logs: `close` always marks the files clean, and rightly so if and only if both name the same key |
| `LostUpdates.LostThenLoggedInstance` | src/database.cpp:142-150 | on a new database: a lost `put` of one key, a `put` of another, and the first is missing from an index marked clean |
| `LostUpdates.LostPutUnseen` | src/database.cpp:233-237 | a `put` whose index update was lost is in the log, and reading its key still returns what it returned before |
| `LostUpdates.RebuiltFromStep` | src/database.cpp:431-494 | a rebuild from any offset, unless it throws, leaves an index of exactly the records read from there, and the checkpoint at the end of the log |
| `LostUpdates.RebuiltFromRecord` | src/database.cpp:426-494 | from record `i` on it is wrong about exactly the keys whose value lies before that record, so right if and only if there are none |
| `LostUpdates.ReplaySuffix` | src/database.cpp:456-473 | replaying a suffix of the records finds the offsets that lie there and no others |
| `LostUpdates.RebuiltFromInstance` | src/database.cpp:426-494 | on a new database: two puts, a rebuild from the second, and the first key is missing though `close` accepts |
| `Damage.DamagedReads` | src/database.cpp:159-190 | with one record of the log damaged within four bytes sparing its length fields, reading throws for the key whose value that record holds and is as before for every other key |
| `Damage.ReadAroundDamage` | src/record.cpp:34-84 | every record but the damaged one reads back, at the place it had |
| `Damage.DamagedScan` | src/database.cpp:366-394 | the scan returns the records before the damage and reports a bad checksum or type, never a truncation |
| `Damage.DamageNeverTruncated` | src/database.cpp:399-424 | so recovery refuses and cuts nothing; the database opens if and only if its index is marked clean and caught up |
| `Databases.Database.Create` | src/database.cpp:76-86 | without a log: opens exactly if there is no index or an acceptable empty one, writes the log header, checkpoint and flag, and is a state every run may start from; otherwise nothing is written |
| `Databases.Database.NewIndex` | src/index.cpp:76-90 | a new index file holds the empty image |
| `Databases.Database.SetupLog` | src/database.cpp:310-332 | a new log is its 24-byte header |
| `Databases.Database.LoadLog` | src/database.cpp:290-308 | accepts exactly the logs that begin with that header |
| `Databases.DbHeaderExact` | src/database.cpp:300-307 | that header, field by field |
| `Databases.Database.Open` | src/database.cpp:64-125 | opens exactly when the protocol says, with its writes; reports the reason and the bytes removed as they were, and keeps or sets the number of buckets; otherwise log and index are untouched; what it rebuilt, or found as a kill may leave it, is usable with the contents the log held |
| `Databases.Database.Close` | src/database.cpp:137-157 | throws with nothing written exactly when the checkpoint is not the log size, on any index that loads; otherwise the bytes say clean and caught up; a caught-up database always closes; a second close does nothing |
| `Databases.Database.Get` | src/database.cpp:159-190 | the protocol's answer on any index; the map's value, or that there is none, for every key that is not stale, and none is on a database that lost nothing |
| `Databases.Database.Append` | src/database.cpp:210-228 | one write of the encoded record at the end of the log, and where it starts and ends |
| `Databases.Database.Advance` | src/database.cpp:241 | the checkpoint write follows the index writes |
| `Databases.Database.Put` | src/database.cpp:192-244 | accepts exactly keys of up to 1024 and values of up to 16777216 bytes, appends the record to the log, then writes index and checkpoint in that order; map update, whatever was lost before; nothing is written otherwise |
| `Databases.Database.Erase` | src/database.cpp:246-283 | no write for a key that is not indexed, else a deletion with an empty value in the log, unlink, checkpoint in that order, and map removal unless the key is stale |
| `Databases.Database.ScanLog` | src/database.cpp:338-397 | on any log and from any offset: status, start of the last valid record, and failing offset of the scan |
| `Databases.Database.ScanRecords` | src/database.cpp:338-397 | the same through an open database; from the first record it always reaches the end, and reports the start of the last record |
| `Databases.ScanReported` | src/database.cpp:366-396 | what a scan from any record of whole records and something after them reports: each verdict under its own name, the start of the last whole record, and where they end |
| `Databases.DamageReported` | src/database.cpp:374-385 | a damaged record is reported as a checksum mismatch, or as an invalid type if its type byte no longer is one, at its own start |
| `Databases.Database.RecoverImpl` | src/database.cpp:399-424 | succeeds exactly on clean or truncated logs, writes truncation then rebuild, reports exactly the bytes removed and keeps the buckets asked for; any other damage writes nothing |
| `Databases.Database.RecoverRecords` | src/database.cpp:399-424 | on an open database: nothing to truncate, contents and number of buckets unchanged, and an index that lagged is that of the log again |
| `Databases.Database.RebuildIndex` | src/database.cpp:426-429 | from any offset, keeping the number of buckets: throws exactly when reading from there does not end after a whole record; from the first record the contents are unchanged and an index that lagged is that of the log again |
| `Databases.Database.RebuildIndexImpl` | src/database.cpp:431-494 | from any offset, all or nothing: fails exactly when reading from there does not end after a whole record, and then log and installed index are unchanged |
| `Databases.Database.ReplayRecord` | src/database.cpp:460-473 | one replayed record adds exactly its index writes to the staging file |
| `Databases.Database.Abandon` | src/database.cpp:486-490 | a failed rebuild leaves log and installed index as they were and no staging file |
| `Databases.Database.Install` | src/database.cpp:480-493 | rename, reload, checkpoint: the installed index is well-formed |
| `Databases.Database.IndexMetadataClean` | src/database.cpp:496-500 | true exactly if byte 40 of the index is 1 and bytes 32 to 39 hold the size of the log, on any index that loads; never of an open database |
| `Databases.Database.GetIndexStats` | src/database.cpp:285-288 | bucket count and empty buckets of the index, every key counted once, the average zero without keys, the longest chain attained and bounding all; as many keys as the database holds if nothing was lost |
| `HashIndex.LoadsExact` | src/index.cpp:240-264 | the header fields of an acceptable image, and that its division form is 41 + 8 * buckets <= size |
| `HashIndex.Index.ReadHeader` | src/index.cpp:240-258 | the field reads and checks succeed exactly on such fields and return them |
| `HashIndex.Index.Load` | src/index.cpp:230-265 | accepts exactly the loadable images and caches their fields; a well-formed one is usable again |
| `HashIndex.Index.WriteAt` | src/index.cpp:136-166 | one seek and write is the next write of the operation's plan, and the journal's next entry |
| `HashIndex.Index.Setup` | src/index.cpp:267-302 | writes the empty index of the given bucket count, head by head |
| `HashIndex.Index.FindEntryOffset` | src/index.cpp:33-75 | entry, predecessor, bucket and chain head of a key, with a terminating walk |
| `HashIndex.Index.Find` | src/index.cpp:92-118 | lookup in the map |
| `HashIndex.Index.Set` | src/index.cpp:120-175 | map update by exactly the planned writes; an oversized key is refused with none |
| `HashIndex.Index.Erase` | src/index.cpp:177-228 | map removal by exactly the planned writes, and whether the key was there |
| `HashIndex.Index.SetIndexedUpTo` | src/index.cpp:456-477 | sets the checkpoint on disk and in memory, map unchanged |
| `HashIndex.Index.SetClean` | src/index.cpp:433-454 | sets the flag on disk and in memory, map unchanged |
| `HashIndex.Index.IsEmpty` | src/index.cpp:394-427 | true exactly when the map is empty, erased bytes notwithstanding |
| `HashIndex.Index.Stats` | src/index.cpp:310-368 | empty + occupied = buckets, with the empty ones counted exactly, average * occupied = number of keys, zero without keys, maximum attained and an upper bound |
| `HashIndex.Index.ReadChain` | src/index.cpp:329-351 | the length of one chain, and that a zero head is an empty one |
| `HashIndex.ReadEntry` | src/index.cpp:370-392 | reads back an entry, none of its throws can happen; the empty entry at offset zero |
| `IndexPlans.EntryThere` | src/index.cpp:370-392 | every chained entry of a well-formed image lies in the file and points further down |
| `IndexImage.Fnv1a` | src/utils.cpp:109-118 | the loop computes the hash that `HashIsFnv1a` and `Vectors.HashOfA` describe |
| `IndexImage.HashIsFnv1a` | src/utils.cpp:109-118 | from 0xCBF29CE484222325, each byte is added bit by bit without carry, and then the sum multiplied by 1099511628211 modulo 2^64 |
| `BinaryDigits.XorBits` | src/utils.cpp:112 | the sum without carry is the exclusive or of every bit |
| `IndexImage.WalkLinked` | src/index.cpp:50-65 | following the stored pointers recovers the chain that was laid out |
| `IndexImage.RepresentsUnique` | src/index.cpp:18-31 | the bytes determine the chains |
| `IndexImage.Bound` | src/index.cpp:33-65 | the map of an image is what a first-match search of the key's chain finds |
| `IndexUpdates.OwnedWrite` | src/index.cpp:136-221 | an eight-byte write inside one bucket leaves all other entries, heads and the header alone |
| `IndexUpdates.RebindStep` | src/index.cpp:136-142 | overwriting an offset gives the same chains with that offset |
| `IndexUpdates.GrowStep` | src/index.cpp:144-157 | bytes past the end, such as an unlinked or cut entry, change nothing |
| `IndexUpdates.PrependStep` | src/index.cpp:144-166 | linking a fully appended entry puts it at the head of its chain |
| `IndexUpdates.UnlinkStep` | src/index.cpp:193-221 | bypassing removes exactly that entry at the head, in the middle or at the tail |
| `IndexPlans.LookupExact` | src/index.cpp:92-118 | a key is in the map exactly when its chain holds it, with that offset |
| `IndexPlans.RemoveBindings` | src/index.cpp:177-228 | dropping the entry of a key removes that key and no other |
| `IndexPlans.PrependBindings` | src/index.cpp:144-166 | a new head binds its key and no other |
| `IndexPlans.RebindBindings` | src/index.cpp:136-142 | a changed offset rebinds that key and no other |
| `IndexPlans.SetEveryStep` | src/index.cpp:132-170 | after each single write of `set` the image is well-formed and stands for exactly the old or the new map |
| `IndexPlans.EraseEveryStep` | src/index.cpp:193-221 | `erase` removes the key; between its writes the map sends the key to zero |
| `IndexPlans.ChainsDescend` | src/index.cpp:50-65 | stored next-pointers strictly decrease and no two entries overlap: chains are acyclic and never meet |
| `IndexMetadata.CheckpointStep` | src/index.cpp:456-477 | the checkpoint write changes the checkpoint only |
| `IndexMetadata.CleanStep` | src/index.cpp:433-454 | the flag write changes the flag only |
| `IndexMetadata.CleanHeader` | src/index.cpp:433-454 | it does so for any acceptable header, well-formed chains or not |
| `IndexSetup.SetupBuilds` | src/index.cpp:267-302 | the setup writes build the empty image |
| `IndexSetup.EmptyImageMeans` | src/index.cpp:267-302 | that image is well-formed, empty, dirty and has seen nothing of the log |
| `IndexSetup.RecordEveryStep` | src/database.cpp:463-470 | after each single index write of a record: nothing has changed before the last one, but for the zero that an erase passes through |
| `IndexSetup.RecordStep` | src/database.cpp:463-470 | one record does to the index map what it does to the log's offsets |
| `IndexSetup.RebuildExact` | src/database.cpp:431-478 | replaying any valid records, absent-key deletes included, gives the map kept record by record, for any bucket count, in a dirty index of bounded size |
| `IndexCounts.TotalIsSize` | src/index.cpp:326-356 | chain lengths summed over all buckets are the number of keys |
| `IndexCounts.TotalZero` | src/index.cpp:394-427 | there is no entry exactly when every bucket is empty |
| `IndexCounts.EmptyCountIs` | src/index.cpp:340-343 | counting empty chains bucket by bucket finds exactly the empty buckets |
| `Log.ScanEncoded` | src/database.cpp:366-370 | scanning past whole records finds them and goes on with what follows |
| `Log.ScanSound` | src/database.cpp:366-394 | what a scan returns is there, and the next read fails as reported |
| `Log.ScanMaximal` | src/database.cpp:366-394 | any list of valid records at the front is a prefix of what the scan finds |
| `Log.ScanTorn` | src/database.cpp:386-389 | a log cut inside a record scans to the records before it, truncated there |
| `Log.ScanCleanExact` | src/database.cpp:390-393 | a scan reaches end of file exactly on lists of encoded records |
| `Log.ScanFromRecord` | src/database.cpp:338-397 | started at any record of a whole log, a scan finds that record and all after it |
| `Log.EncodeAllInjective` | src/record.cpp:94-112 | different record lists have different encodings |
| `Log.OffsetsLive` | src/database.cpp:205-241 | exactly the live keys are indexed, each at the start of the last record naming it, a Put of its value |
| `Log.LastNamingLive` | src/database.cpp:205-241 | the last Put of a key is its value in the replay |
| `Log.ReadAtStart` | src/database.cpp:170-181 | reading at the start of any record of a longer log yields that record |
| `Records.Serialize` | src/record.cpp:94-112 | the field-by-field writer with its running checksum emits the encoding, and refuses exactly keys over 1024 and values over 16777216 bytes |
| `Records.ExtendString` | src/record.cpp:12-26 | extending by length and bytes is the checksum of everything written so far |
| `Records.Read` | src/record.cpp:34-84 | the streaming reader gives the verdict of `ParseVerdicts` and replaces its argument only on success |
| `Records.ParseVerdicts` | src/record.cpp:34-84 | over the bytes themselves: exactly when a read ends in each of the six verdicts, with both limits in numbers and the first fault deciding |
| `Records.ReadField` | src/record.cpp:52-72 | one key or value read, with the checksum kept in step |
| `Records.ParseExact` | src/record.cpp:34-84 | a read succeeds exactly when the bytes begin with the encoding of a record within the limits |
| `Records.ParseEncoded` | src/record.cpp:34-112 | an encoded record reads back as itself whatever follows |
| `Records.ParsePrefix` | src/record.cpp:34-84 | the empty prefix of a record is end of file, every other strict prefix truncated |
| `Records.PrefixFree` | src/record.cpp:94-112 | no encoding is a proper prefix of another |
| `Records.VerdictFinal` | src/record.cpp:34-84 | a verdict other than end of file or truncated does not change when bytes are appended |
| `Records.TruncatedIsShort` | src/record.cpp:50-77 | a truncated read had fewer bytes than the longest record |
| `Records.DamageDetected` | src/record.cpp:34-84 | any damage within four consecutive bytes that spares the length fields reads as a bad checksum or type, never as a record or a cut one |
| `Records.LengthFieldsDecide` | src/record.cpp:50-80 | with its length fields intact a record reads to its end |
| `Crc32c.ExtendConcat` | src/record.cpp:12-28 | piecewise extension is the checksum of the concatenation |
| `Crc32c.FeedAllSameSum` | src/record.cpp:12-28 | up to 32 input bits act on the register through their sum with it, injectively |
| `Crc32c.SealedResidue` | src/record.cpp:94-109 | data followed by its checksum always leaves the same residue |
| `Crc32c.WindowChangesSeal` | src/record.cpp:71-80 | strings that differ within four bytes leave different registers |
| `Castagnoli.FeedIsTimesX` | src/record.cpp:12-28 | feeding one bit is multiplication by x modulo the polynomial with the exponents 32, 28, 27, 26, 25, 23, 22, 20, 19, 18, 14, 13, 11, 10, 9, 8, 6 and 0 |
| `Castagnoli.FeedAllDivides` | src/record.cpp:12-28 | feeding a string of bits is division by that polynomial, with the register as the remainder |
| `Castagnoli.CrcIsRemainder` | src/record.cpp:12-28 | the checksum is the complemented remainder of the message with 32 ones before it and 32 zeros after it |
| `Castagnoli.RemainderUnique` | src/record.cpp:12-28 | there is only one such remainder |
| `CrcWords.CrcIsDigest` | src/record.cpp:12-28 | the same number comes out of shifting 32-bit words and adding 0x82F63B78 |
| `Vectors.CheckValue` | src/record.cpp:12-28 | the checksum of "123456789" is 0xE3069283 |
| `Vectors.ZerosValue` | src/record.cpp:12-28 | that of 32 zero bytes is 0x8A9136AA |
| `Vectors.RecordBytes` | src/record.cpp:94-112 | the bytes of a Put and of a Delete, checksum included |
| `Vectors.LogHeaderBytes` | src/database.cpp:310-332 | the 24 bytes of the log header |
| `Vectors.NewIndexBytes` | src/index.cpp:267-302 | the 49 bytes of a new index of one bucket |
| `Vectors.IndexBytes` | src/index.cpp:120-175 | the 70 bytes of that index after one `set`: head, offset, link, key length and key in their places |
| `Vectors.HashOfA` | src/utils.cpp:109-118 | FNV-1a of "a" is 0xAF63DC4C8601EC8C, in bucket 0 of 4 |
| `Vectors.HashOfD` | src/utils.cpp:109-118 | that of "d" falls into bucket 3 of 4 |
| `Codec.InputStream.ReadUint` | src/utils.cpp:42-88 | success, truncated or end of input by the bytes available, and the number they encode |
| `Codec.InputStream.ReadUint32` | src/utils.cpp:71-88 | the same for four bytes |
| `Codec.InputStream.ReadUint64` | src/utils.cpp:42-59 | the same for eight bytes |
| `Codec.InputStream.ReadUint8` | src/utils.cpp:97-103 | one byte, or end of input |
| `Codec.InputStream.ReadString` | src/utils.cpp:21-40 | each status exactly by the bytes available and the announced length; an oversized length is rejected with only the prefix consumed and the result unchanged |
| `Codec.OutputStream.WriteUint32` | src/utils.cpp:90-95 | the shifted bytes are the little-endian digits |
| `Codec.OutputStream.WriteUint64` | src/utils.cpp:61-69 | the same for eight bytes |
| `Codec.OutputStream.WriteString` | src/utils.cpp:12-19 | length and bytes, or nothing at all when oversized |
| `Codec.U32RoundTrip` | src/utils.cpp:71-95 | reading undoes writing for every 32-bit value |
| `Codec.U64RoundTrip` | src/utils.cpp:42-69 | reading undoes writing for every 64-bit value |
| `Codec.U32Decoded` | src/utils.cpp:71-95 | writing undoes reading for every four bytes |
| `Codec.U64Decoded` | src/utils.cpp:42-69 | writing undoes reading for every eight bytes |
| `Codec.StringRoundTrip` | src/utils.cpp:12-40 | a written string reads back and leaves what follows it |

## Left out

- Kills during the first creation of the two files: a half-written header makes the next open throw. Runs start at an open database, such as `Databases.Database.Create` leaves.
- Power loss, fsync and reordering of writes: the code only flushes its streams.
- Exceptions, but for those of `LostUpdates`: `put` and `erase` throwing between two of their writes. A write that itself stops part of the way while the process lives on, and a throw inside a rebuild, have no counterpart here.
- Well-formed headers over chains damaged by something other than a kill: `find`, `set`, `erase` and `stats` are proved on well-formed images only.
- The destructor, which closes and swallows exceptions (src/database.cpp:127-135).
- Paths, the extension check, the random names of staging directories and staging files left by a kill, none of which is ever read again.
- Files of 2^62 bytes and more; a put or erase that would grow the log past that has no counterpart here.
- The tables of the vendored CRC library and the hash quality of `fnv1a`.
- Floating point: the average chain length is a real number.
- The command-line programs, workloads, crash-test driver and build files.
