# mini-Garnet, verified

A Dafny model of mini-Garnet's storage engine and of the logic above it, with
proofs of the properties its comments and tests promise. The engine is a
concurrent hash index over a log that spans memory and disk. It is modelled at
two grains:

- **Sequential, imperative.** `HybridLog.dfy` and `Store.dfy` are classes whose
  methods follow `log.rs`, `epoch.rs` and `store.rs` branch by branch, for one
  session, with an arbitrary environment (other threads' epoch slots, page turns,
  boundary moves, phase changes) between the attempts of a call. `RecordRules.dfy`
  says which records an attempt may overwrite; the concurrent models of the log and
  the checkpoint take these rules as the guards of their write steps.
  `Refinement.dfy` shows that such a store is a plain map with deadlines for any
  callbacks that answer alike in every log region, and `Strings.dfy` which of the
  string commands do, exactly. `StringRecords.dfy` does the same callbacks on bytes.
- **Concurrent, one atomic step at a time.** `EpochMachine.dfy` is the epoch
  protocol; `LogMachine.dfy` puts the log's boundaries on it, `EpochWord.dfy` and
  `CheckpointRun.dfy` the checkpoint's phases, `Checkpoint.dfy` and `Recovery.dfy`
  its effect on records. `Allocator.dfy` is the fetch-and-add tail,
  `IndexMachine.dfy` the tentative insert, `LatchWord.dfy` the shared latch word,
  `TxnLock.dfy` ordered two-phase locking. Theorems are about every run.

`EpochGrace.dfy` says exactly whom a deferred action waits for, from any state.

Above the store: `Commands.dfy` (lock lists), `Glob.dfy`, `Numbers.dfy`,
`Resp.dfy` / `RespParser.dfy` / `Server.dfy` (parser and connection loop) and
`Aof.dfy` (append-only file). `RecordLayout.dfy` and `Scan.dfy` are record layout
and scans on bytes, `ScanRun.dfy` a log as it is built up, and `ScanBuilt.dfy`
what a scan of it visits.

`Environment.dfy` is what other threads may do around a call: rounds of steps, one
round before each attempt and each fetch from disk. A store is *quiet* when no other
thread is inside the epoch and no record of version v+1 makes a session in PREPARE
start over. A round is *calm* when it admits no other thread to the epoch, allocates
no pages, holds no bucket latch and puts no PREPARE in force but at the tail; it is
*tidy* when it may do all of that, but leaves a quiet store quiet. A call has *peace*
from a round on when the store is quiet after it, its bucket latch is free, and five
calm rounds follow. A call is *hopeless* when no round gives it peace in time for its
retries, *starved* when its latch is held in every round.

`dafny verify dfyconfig.toml` checks the whole project.

## Results that qualify what the code promises

- The string callbacks do not agree in every region. `Strings.CopyOk` is the exact
  condition, operation by operation; SET XX and SET GET without an expiration,
  GETEX and SET GET on an expired record, KEEPTTL with an expiration, and PERSIST
  without a deadline are the exceptions. SETNX's reply is one more, on expired
  records exactly (`Strings.SetNxCreatedIff`). `Strings.AdmittedIff` is the condition
  on the map's entry.
- A record larger than a page ends the thread that needs it, at the assertion in
  `try_allocate`. The receive buffer takes far longer values than a page does;
  `Strings.PanicsAreTooBig` says for which commands on which entries that can happen,
  `Strings.RunFresh` also that the first command on a key does panic then, and that
  a deletion never does.
- A call answers Error after a million retries. For every environment that happens to
  hopeless calls only (`Stores.Store.Rmw`, `Upsert`, `Delete`, `Read`): from a round
  that brings peace on, four more attempts are enough. Visitors to the epoch, page
  turns of others and held latches cannot bring it about if every round is tidy and
  there are fewer of them than retries (`Environment.TidyIsHopeful`); a calm
  environment never can. A starved upsert or RMW does end in Error.
- Recovery can bring back a value of version v+1 when two keys share a (bucket,
  tag), because `find_on_disk` does not test Valid. `Recovery.RecoveryExact` is the
  exact condition on the record found, `Recovery.RecoveryAnswersIff` on the answer.
- The re-check after a disk read in RMW and Delete always passes
  (`DiskRecheck.RecheckAlwaysPasses`); it is right only if no record of the key was
  added meanwhile, and `DiskRecheck.UpdateIsLost` is a run in which one was. The
  sequential theorems therefore take one RMW or Delete call as exclusive against
  other writers of its (bucket, tag).
- The epoch's grace period counts from the load of the epoch in `bump_with_action`,
  not from the push (`EpochMachine.PushIsTooLate`); `EpochGrace.WaitsForIff` is the
  exact condition.
- The log comment's `Begin <= ClosedUntil` does not hold at start (begin is 64,
  closed is 0); it holds exactly once a page has been closed (`LogMachine.BeginIff`).
  The rest of the chain, from ClosedUntil upward, always holds.
- A transaction that queues KEYS, SCAN, DBSIZE, FLUSHDB or FLUSHALL goes over keys
  that it has not locked (`Commands.KeysReachesUnlocked`); all others lock every key
  they touch (`Commands.KeysCovered`, `Commands.TransactionCovered`).
- An append-only file that is reopened behind a torn entry does not keep what is
  appended to it: that holds exactly if replay gets to the end of the file
  (`Aof.ReopenedIff`), after a crash exactly if the cut fell between two entries
  (`Aof.CrashKeepsIff`).

## Model

| member | source | states |
|---|---|---|
| `Strings.RunStrings` | crates/garnet/src/functions.rs:154-589 | any sequence of commands gets, from the store with every callback of this file, the replies of a plain map from keys to strings with deadlines, whatever page turns, read-only shifts, flushes, evictions and phase changes come between attempts, up to the first RMW command that is not admitted on the entry the map has for its key; a command is left out of the map's history only if it panicked, for which what it makes of that entry has to be too big for a page, or if it ran out of retries, for which the call has to be hopeless; the first command on a key with nothing stored panics exactly if its record is too big; starved writes end in Error; no command does in a quiet store and calm environments, nor in tidy ones with fewer rounds than retries |
| `Strings.RunFresh` | crates/garnet/src/functions.rs:154-589 | the same from a newly opened store and the empty map, for every geometry: there is nobody around at the start, every key is absent, and no deletion panics |
| `Strings.PanicsAreTooBig` | crates/tsavorite/src/log.rs:258-264 | for every command and entry of the map: there is a record behind the entry on which the call can meet the assertion on the record size if and only if the record that the map's own values make, with room for a deadline exactly where one is kept, is larger than a page |
| `Strings.AdmittedIff` | crates/garnet/src/functions.rs:325-625 | for every command and entry of the map: both paths have the same effect and reply on every record that shows this entry if and only if the command is admitted on it; behind a missing entry there may be an expired record, so GETEX, SET GET and SETNX are not admitted there |
| `Strings.OutgrowsNew` | crates/tsavorite/src/log.rs:258-264 | with nothing stored for its key a call overflows a page exactly if it creates a record and key, first value and deadline do not fit |
| `Refinement.PerformAll` | crates/tsavorite/src/store.rs:688-1133 | for any callbacks and any meaning: up to the first RMW on an entry of the map on which they do not agree, every status and value returned by a sequence of calls is the map's, and the store looks like the map after all of them; a call that panicked needed a record larger than a page for what the map then held, and the first one on an absent key panics exactly then; where every stored key has room for a tombstone that stays so and no deletion panics; a call returns Error only if it was hopeless, whatever each call before it left behind, a starved upsert or RMW always does, none does in a quiet store and calm environments, nor in tidy ones with fewer rounds than retries |
| `Refinement.Perform` | crates/tsavorite/src/store.rs:688-1133 | one call, with its retries and its environment, does to the map what the call says, and nothing if it gave up: with Error only if it was hopeless, always if it was starved and writes, with a panic only on a record that does not fit, and on an absent key exactly then; it leaves of the others what one of its rounds left, and from a round of peace on four more attempts are enough |
| `Refinement.PerformRmw` | crates/tsavorite/src/store.rs:842-868 | an RMW call on an entry that its callbacks agree on is the map's update of what was visible at its time, says Created only if nothing was, or gives up as `Perform` says |
| `Refinement.PerformRead` | crates/tsavorite/src/store.rs:688-718 | a read leaves the map as it was and answers what the map holds, expired entries hidden |
| `Refinement.PerformUpsert` | crates/tsavorite/src/store.rs:770-785 | an upsert sets the key's entry |
| `Refinement.PerformDelete` | crates/tsavorite/src/store.rs:1028-1050 | a delete removes the key's entry and says whether there was one |
| `Refinement.RmwRefines` | crates/tsavorite/src/store.rs:872-1022 | in place, copied or created, an RMW step on an entry that the callbacks agree on has the effect and the reply of the one region-free update, and says Created only on a missing entry |
| `Refinement.UnfinishedRefines` | crates/tsavorite/src/store.rs:909-912 | an attempt that tombstoned an expired record and then backed off changed nothing that can be seen |
| `Refinement.AllRightExtends` | crates/tsavorite/src/store.rs:688-1133 | a right reply to one more call extends a right history |
| `Refinement.StaysRoomy` | crates/tsavorite/src/store.rs:1109-1120 | a record that fits on a page leaves room for its tombstone, so every call keeps that room and no deletion of a stored key panics |
| `Refinement.WaitedMeans` | crates/tsavorite/src/store.rs:663-682 | over a sequence of calls on a quiet store: no Error in calm environments, and in tidy ones a quiet store at the end and no Error but to calls with as many rounds as retries |
| `Environment.HopelessOnlyIf` | crates/tsavorite/src/store.rs:604-682 | a call is hopeless only if its rounds go on for as long as its retries, or if at their end a thread is inside the epoch or a record makes a session in PREPARE start over |
| `Environment.TidyIsHopeful` | crates/tsavorite/src/store.rs:604-682 | where all rounds of all calls so far are tidy, whichever of them each call lived to see, the next call is hopeless only with as many rounds as retries |
| `Environment.CalmIsHopeful` | crates/tsavorite/src/store.rs:604-682 | in calm environments no call is hopeless |
| `Environment.WindsThroughDisk` | crates/tsavorite/src/store.rs:863-867 | a fetch from disk delays a call by two rounds and loses nothing of the progress of its waits |
| `Environment.WindsUp` | crates/tsavorite/src/store.rs:663-682 | a call whose every wait since a round of peace brought the log nearer takes at most four attempts more than that |
| `Callbacks.ResumeRmw` | crates/tsavorite/src/store.rs:847-867 | a retry after an unfinished attempt completes the same operation as if it were the first |
| `Stores.Store.Read` | crates/tsavorite/src/store.rs:688-718 | returns Found with the reader's output on the key's cell, NotFound otherwise; changes no cell and never panics; the first round with a free latch and no record to start over for ends it, whoever is inside the epoch, so Error means there was none in time, and a starved read of a known slot does return it; in a quiet store and a calm environment one attempt is enough |
| `Stores.Store.Upsert` | crates/tsavorite/src/store.rs:770-785 | the key's cell becomes the written value or the value overwritten in place; no other cell changes; of the calls that have to make a record, on absent keys always, exactly those whose record does not fit on a page panic; for every environment: Error only if the call was hopeless, always if it was starved, and four attempts from a round of peace on are enough |
| `Stores.Store.Rmw` | crates/tsavorite/src/store.rs:842-868 | the key's cell takes one RMW step, or at most loses an expired record when it gives up; no other cell changes; it panics only if a record the step has to make does not fit, and what it made fits; for every environment: Error only if the call was hopeless, always if it was starved, and four attempts from a round of peace on are enough, fetches from disk included |
| `Stores.Store.Delete` | crates/tsavorite/src/store.rs:1028-1050 | the key's cell becomes empty and the status says whether it was; no other cell changes; a panic needs a stored value and a tombstone that does not fit; Error only if the call was hopeless, and always if it was starved and the slot known |
| `Stores.Store.InternalRead` | crates/tsavorite/src/store.rs:720-768 | one protected attempt: done means the read's answer on the key's cell, and for a session in PREPARE that the record was not of v+1; otherwise it says where the chain goes on disk |
| `Stores.Store.InternalUpsert` | crates/tsavorite/src/store.rs:787-840 | one protected attempt: done means the cell was written or overwritten in place, not done that no cell changed; nothing breaks the record rules, and a session in PREPARE goes through only if the newest record of the key it looked at is not of v+1 |
| `Stores.Store.InternalRmw` | crates/tsavorite/src/store.rs:872-957 | one protected attempt over all four regions, with or without a record fetched from disk: done is one RMW step, not done loses at most an expired record; nothing breaks the record rules, and a session in PREPARE goes through only if the newest record of the key it looked at is not of v+1 |
| `Stores.Store.InternalDelete` | crates/tsavorite/src/store.rs:1052-1107 | one protected attempt: done means the cell is empty and the status says whether it was, not done that nothing changed; nothing breaks the record rules, and a session in PREPARE goes through only if the newest record of the key it looked at is not of v+1 |
| `Stores.Store.AppendRecord` | crates/tsavorite/src/store.rs:531-560 | reserves, fills and publishes a record; the allocator's assertion fails exactly if the record does not fit on a page, and every refusal for lack of a page brings the boundaries nearer to a free one |
| `Stores.Store.RmwBelowHead` | crates/tsavorite/src/store.rs:930-956 | where the chain leaves memory: the step is made from the record fetched from disk, or the caller is told where to read on |
| `Stores.Store.RmwMutable` | crates/tsavorite/src/store.rs:901-922 | where overwriting is allowed: done is one RMW step, not done loses at most an expired record, and the record rules hold |
| `Stores.Store.RmwCopy` | crates/tsavorite/src/store.rs:984-1022 | one copy step: copied, cancelled or deleted; no record is overwritten, new ones lie above and carry the session's version |
| `Stores.Store.RmwInitial` | crates/tsavorite/src/store.rs:959-981 | on an empty cell: a record is created exactly if the callbacks want one, and none is overwritten |
| `Stores.Store.TraceBack` | crates/tsavorite/src/store.rs:519-529 | a hit is the first record of the key on its chain; a stop says where the chain leaves memory and that nothing was skipped |
| `Stores.Store.FindOnDisk` | crates/tsavorite/src/store.rs:581-596 | reads the first record of the key on the chain, with its Sealed bit cleared |
| `Stores.Store.Replace` | crates/tsavorite/src/store.rs:531-579 | the key's cell becomes the new value and no other cell changes, or nothing happens; old records change in the Sealed bit at most |
| `Stores.Store.CasIntoChain` | crates/tsavorite/src/store.rs:562-579 | publishing a filled record makes it the first of its key and leaves every other key's first record |
| `Stores.Store.HandleRetry` | crates/tsavorite/src/store.rs:663-682 | gives up exactly at the retry limit; no record, no Head and nothing about the others changes, and after RetryLater with nobody else inside all that was deferred has run, so that fewer boundaries have to move |
| `Stores.Store.InterfereOnce` | crates/tsavorite/src/store.rs:604-682 | what other sessions, page turns and phase changes may do between attempts keeps every record, never lowers Head and leaves no more behind than the step says; a calm step keeps a settled store settled and takes no boundary further from its target |
| `RecordRules.ProtectedForever` | crates/tsavorite/src/store.rs:643-661 | over any sequence of attempts that keep the record rules, each of its own session and moment, a record that every one of them must leave alone is never lost, moved or changed but for the Sealed bit |
| `RecordRules.ReadOnlyIsFinal` | crates/tsavorite/src/store.rs:531-579 | as ReadOnly never falls, a record below it at one time keeps its contents for good |
| `RecordRules.OldVersionIsFinal` | crates/tsavorite/src/store.rs:654-661 | while all sessions are of v+1, records of version v keep their contents |
| `RecordRules.ProtectedIff` | crates/tsavorite/src/store.rs:643-661 | exactly the records that an attempt may overwrite are not protected from it |
| `RecordRules.ThenExtends` | crates/tsavorite/src/store.rs:909-912 | tombstoning an expired record and then creating another keeps the rules |
| `Stores.Store.Overwrite` | crates/tsavorite/src/store.rs:811-816 | writes the newest record of a key where that is allowed: its cell changes, no other, no chain moves, and the record rules hold |
| `Stores.Store.UpsertMutable` | crates/tsavorite/src/store.rs:804-821 | the mutable region's branch of upsert: in place if allowed and possible, else a new record |
| `Stores.Store.DeleteInMemory` | crates/tsavorite/src/store.rs:1065-1081 | the in-memory branch of delete |
| `Stores.Store.RmwUntouched` | crates/tsavorite/src/store.rs:898-928 | tombstones, immutable and fuzzy records, and records that v+1 must leave alone are never overwritten |
| `HybridLogs.HybridLog.TakeReady` | crates/tsavorite/src/epoch.rs:214-231 | splits the list exactly at the safe epoch |
| `Chains.LookupFrame` | crates/tsavorite/src/store.rs:519-529 | a lookup depends only on keys and links at or below its start |
| `Chains.UpdateOk` | crates/tsavorite/src/store.rs:901-924 | overwriting the newest record of a key keeps all chains and every other cell |
| `Chains.SealOk` | crates/tsavorite/src/store.rs:1015-1019 | sealing a record that is no longer its key's newest keeps every cell |
| `Chains.FillOk` | crates/tsavorite/src/store.rs:531-560 | filling a record that no chain reaches keeps every cell |
| `Chains.PublishOk` | crates/tsavorite/src/store.rs:562-579 | prepending a record changes the cell of its own key only |
| `DiskRecheck.RecheckAlwaysPasses` | crates/tsavorite/src/store.rs:934-949 | the check for a newer in-memory record after a disk read holds whenever it is evaluated |
| `DiskRecheck.CurrentIff` | crates/tsavorite/src/store.rs:519-529 | the fetched record is still the newest exactly if a trace down to the head seen before finds none |
| `DiskRecheck.RightIff` | crates/tsavorite/src/store.rs:930-949 | the check is right if and only if no record of the key was put in front of that head |
| `DiskRecheck.UpdateIsLost` | crates/tsavorite/src/store.rs:930-949 | a run from the empty log in which a value is stored and evicted between the fetch and the second look, the check passes, and the update is lost; hence one call is taken as exclusive on its (bucket, tag) |
| `Strings.StringsRegionFree` | crates/garnet/src/functions.rs:217-590 | in-place, copy and initial callbacks agree on every record, in effect and in what the command's reply is made from, if and only if the command is on the list: SET NX, INCRBY, APPEND, SETRANGE, GETDEL, EXPIRE, SET KEEPTTL without and SET XX with an expiration; SETNX, which asks for Created, is not on it |
| `Strings.CopyOk` | crates/garnet/src/functions.rs:432-625 | for every operation and record: the copy path does what the in-place path does if and only if `CopySame` holds |
| `Strings.InPlaceOk` | crates/garnet/src/functions.rs:325-430 | in place every operation has the effect of the map's update on value, deadline and reply |
| `Strings.InitialOk` | crates/garnet/src/functions.rs:258-323 | creation has the effect of the map's update on a missing entry |
| `Strings.StringsAgreeable` | crates/garnet/src/functions.rs:179-255 | reader and writers agree with the map, and expiry is final |
| `Strings.SetNxCreatedIff` | crates/garnet/src/commands.rs:349-359 | SETNX's reply, whether the status is Created, is the same on the in-place and the copy path if and only if the record has not expired |
| `Strings.RangeExact` | crates/garnet/src/functions.rs:162-173 | GETRANGE's half-open bounds select exactly the positions between its two inclusive, possibly negative bounds |
| `Strings.RangeBounds` | crates/garnet/src/functions.rs:162-173 | bounds are ordered and inside the value |
| `StringRecords.StringRecord.InPlaceUpdater` | crates/garnet/src/functions.rs:325-430 | on the record's bytes: outcome, value, deadline and reply are those of the specification, never past capacity, and a record that needs a copy is left as it was |
| `StringRecords.StringRecord.InitialUpdater` | crates/garnet/src/functions.rs:287-323 | fills a new record of the size asked for and computes the reply, padding never shown |
| `StringRecords.StringRecord.CopyUpdater` | crates/garnet/src/functions.rs:510-589 | fills a copy of the size asked for from the old record, carries its deadline forward and computes the reply |
| `StringRecords.CopyRecord` | crates/garnet/src/functions.rs:432-589 | asked for, sized, allocated and filled, the copy of a record is what the specification says, and the reply is put together from both callbacks |
| `StringRecords.InitialRecord` | crates/garnet/src/functions.rs:275-323 | a first value, sized, allocated and filled, is what the specification says |
| `StringRecords.StringRecord.CopySize` | crates/garnet/src/functions.rs:481-508 | asks for exactly the room that the copied bytes and deadline take |
| `StringRecords.StringRecord.NeedCopyUpdate` | crates/garnet/src/functions.rs:432-479 | copies, cancels or deletes as the specification says, expired records included |
| `StringRecords.StringRecord.InPlaceWriter` | crates/garnet/src/functions.rs:236-255 | overwrites in place if value and deadline fit, else changes nothing |
| `StringRecords.StringRecord.ApplyTtlInPlace` | crates/garnet/src/functions.rs:598-625 | sets, clears or keeps the deadline, or reports that there is no slot and changes nothing |
| `StringRecords.StringRecord.OverlayInPlace` | crates/garnet/src/functions.rs:382-397 | SETRANGE in place: zeros from the old end to the offset, then the operand |
| `StringRecords.OverlayShape` | crates/garnet/src/functions.rs:382-397 | the buffer after zero-fill and copy is the padded overlay |
| `Numbers.Fmt` | crates/garnet/src/resp.rs:267-285 | the bytes written from the back of the buffer are the number in decimal, for every i64 |
| `Numbers.DigitLen` | crates/garnet/src/resp.rs:294-307 | counts exactly the bytes that formatting writes |
| `Numbers.DecimalFits` | crates/garnet/src/resp.rs:251-253 | twenty bytes are enough for any i64 |
| `Numbers.ParseDecimal` | crates/garnet/src/resp.rs:288-292 | parsing what was written gives the number back |
| `Recovery.RecoveryRebuildsVersion` | crates/tsavorite/src/checkpoint.rs:126-234 | after any run of a checkpoint, with sessions of v and v+1 overlapping, and a crash at any time once it is saved, the recovered store holds exactly the map that version v built, for every key, if keys do not share a (bucket, tag) |
| `Recovery.RecoveryExact` | crates/tsavorite/src/checkpoint.rs:203-226 | without that assumption: the record recovery finds for a key is version v's if and only if none of the key's v+1 records lies under a kept record of the same slot |
| `Recovery.RecoveryAnswersIff` | crates/tsavorite/src/checkpoint.rs:203-226 | and the recovered store answers for a key as version v does if and only if the last of those buried records, if there is one, says the same, be it a value or a tombstone |
| `Recovery.CollisionBreaksRecovery` | crates/tsavorite/src/checkpoint.rs:207-215 | a reachable checkpoint after which recovery brings back a v+1 value of a key that shares its slot |
| `Recovery.Recover` | crates/tsavorite/src/checkpoint.rs:182-234 | undoes exactly the v+1 records in the fuzzy region, clears seals of kept records, and leaves each slot at its highest kept record |
| `Recovery.RecoveryRestarts` | crates/tsavorite/src/checkpoint.rs:182-234 | recovering again after a crash during recovery gives the same heads and the same image |
| `Recovery.ExactCell` | crates/tsavorite/src/store.rs:581-596 | finding the right record means answering what version v held, tombstones included |
| `CheckpointRun.VersionDrain` | crates/tsavorite/src/checkpoint.rs:102-122 | when the phase change has returned, no session inside a section holds an older phase |
| `CheckpointRun.VersionFrozen` | crates/tsavorite/src/checkpoint.rs:142-154 | once the shift to v+1 has drained, version v gains no record and no key, value or tombstone of its records changes |
| `CheckpointRun.RunInv` | crates/tsavorite/src/checkpoint.rs:126-176 | every reachable state of phases, epochs and writes satisfies the invariant |
| `CheckpointRun.CoreStep` | crates/tsavorite/src/checkpoint.rs:99-176 | every interleaved move is a step of the checkpoint core under a phase at most one behind |
| `CheckpointRun.HoldsPhase` | crates/tsavorite/src/store.rs:604-623 | a session works under the current phase, or the one before while a change drains |
| `Checkpoint.StepInv` | crates/tsavorite/src/checkpoint.rs:126-176 | chains, phases, version separation, the map of v and the device image survive every step |
| `Checkpoint.StepSeparated` | crates/tsavorite/src/store.rs:643-661 | for each key, v+1 records lie above v records |
| `Checkpoint.GateHolds` | crates/tsavorite/src/store.rs:643-652 | a version-v session that may append meets no v+1 record of its key |
| `Checkpoint.UpdatesTop` | crates/tsavorite/src/store.rs:654-661 | a version-v session updates only the last version-v record of a key, a v+1 session never updates one |
| `Checkpoint.ChainFinds` | crates/tsavorite/src/store.rs:581-596 | the first record for a key on a chain is the highest valid one |
| `Checkpoint.ClosedStep` | crates/tsavorite/src/checkpoint.rs:142-154 | no step after the drain touches version v |
| `EpochWord.RunFindsAll` | crates/tsavorite/src/checkpoint.rs:108-121 | when the drain action may run, everyone inside entered after the phase was published |
| `EpochWord.StepInv` | crates/tsavorite/src/checkpoint.rs:102-122 | publication and registration keep the link between words and epoch slots |
| `EpochMachine.GracePeriod` | crates/tsavorite/src/epoch.rs:133-231 | with loads and stores split and slots scanned one at a time, an action runs only after every thread inside at its registration has left or refreshed |
| `EpochMachine.RunsOnce` | crates/tsavorite/src/epoch.rs:214-231 | an action that has run never runs again |
| `EpochMachine.ObservedSincePublication` | crates/tsavorite/src/epoch.rs:198-211 | a word published before registration has been seen by whoever is inside when the action runs |
| `EpochMachine.GraceFromPush` | crates/tsavorite/src/epoch.rs:198-211 | threads inside at the push are waited for too, if no bump came since the epoch was loaded; a case of `EpochGrace.GraceFromPublication` |
| `EpochGrace.WaitsForIff` | crates/tsavorite/src/epoch.rs:133-231 | from every state the machine can be in, exactly whom an action waits for: it can run while a thread stays inside if and only if it has been taken, the thread's slot is above its epoch, or a drain under way looked at the thread too early; in all other states no continuation runs it before the thread leaves or refreshes |
| `EpochGrace.GraceFromPublication` | crates/tsavorite/src/epoch.rs:133-231 | a thread that publishes its slot before the epoch the action is tagged with is over is waited for, whether that was before the load, before the push or after |
| `EpochGrace.HeldStep` | crates/tsavorite/src/epoch.rs:174-231 | a thread that holds an action up goes on doing so through any step but its own leaving or refreshing |
| `EpochMachine.PushIsTooLate` | crates/tsavorite/src/epoch.rs:198-211 | with a bump in between they are not: a run in which a thread inside at the push is still inside when the action runs |
| `EpochMachine.RunInv` | crates/tsavorite/src/epoch.rs:133-231 | the invariant holds in every reachable state |
| `LogMachine.RunInv` | crates/tsavorite/src/log.rs:10-26 | ClosedUntil <= SafeHead <= Head <= FlushedUntil <= SafeReadOnly <= ReadOnly <= Tail in every reachable state |
| `LogMachine.BeginIff` | crates/tsavorite/src/log.rs:10-16 | Begin <= ClosedUntil holds in exactly the reachable states before which some page was closed |
| `LogMachine.BoundariesMonotone` | crates/tsavorite/src/log.rs:327-433 | no boundary ever moves back, in whatever order deferred actions run |
| `LogMachine.FlushedIsFinal` | crates/tsavorite/src/log.rs:327-389 | below FlushedUntil the device holds the last image up to the Sealed bit, and the image never changes again |
| `LogMachine.PageReuseIsSafe` | crates/tsavorite/src/log.rs:249-294 | when a slot is zeroed, every record it held is on the device and no thread inside holds a Head at or below it |
| `LogMachine.OldPageIsBelowHeads` | crates/tsavorite/src/log.rs:249-294 | every address of the pages that had the slot, whether a record is there or not, is closed and below every Head that a thread inside has read |
| `LogMachine.NoWriterBelowSafeReadOnly` | crates/tsavorite/src/log.rs:345-358 | nobody updates in place or fills a fresh record below SafeReadOnly |
| `Allocator.RunInv` | crates/tsavorite/src/log.rs:258-305 | grants are disjoint, ascending, inside one page and past its header, and a page turn has one owner |
| `Allocator.AllocationsExceedHeads` | crates/tsavorite/src/store.rs:532-560 | an allocation exceeds any chain head read earlier, so chains descend |
| `HybridLogs.HybridLog.AllocateAlone` | crates/tsavorite/src/log.rs:258-321 | alone, retrying with a bump between attempts gets memory after at most two RetryLater results, for any 1 <= M <= B-1 |
| `HybridLogs.HybridLog.TryAllocate` | crates/tsavorite/src/log.rs:258-294 | fails the assertion exactly if the record is larger than a page, and is refused exactly if the page is full and the next one not free, after which fewer boundaries have to move; a grant is where the tail word says, at or above the old tail, on one page, past its header and above ReadOnly |
| `HybridLogs.HybridLog.IssueShiftAddresses` | crates/tsavorite/src/log.rs:307-321 | ReadOnly and Head reach the page-aligned targets, Head capped by what is flushed |
| `HybridLogs.HybridLog.ShiftReadOnlyAddress` | crates/tsavorite/src/log.rs:327-343 | ReadOnly becomes the larger of itself and the target, and says whether it moved |
| `HybridLogs.HybridLog.ShiftHeadAddress` | crates/tsavorite/src/log.rs:393-413 | Head never passes FlushedUntil |
| `HybridLogs.HybridLog.OnPagesMarkedReadOnly` | crates/tsavorite/src/log.rs:350-357 | SafeReadOnly and FlushedUntil rise to the target and never fall, and the log stays valid with one action fewer outstanding |
| `HybridLogs.HybridLog.OnPagesClosed` | crates/tsavorite/src/log.rs:417-433 | SafeHead rises to the target; ClosedUntil moves by whole pages as far as fits below it and no further |
| `HybridLogs.HybridLog.FlushUntil` | crates/tsavorite/src/log.rs:360-389 | the device holds every record below the target, up to the Sealed bit |
| `HybridLogs.HybridLog.TurnPage` | crates/tsavorite/src/log.rs:276-290 | the tail moves to the new page and the log stays valid: only closed pages lose their slot |
| `HybridLogs.HybridLog.ComputeSafeEpoch` | crates/tsavorite/src/epoch.rs:174-185 | one less than the smallest published epoch |
| `HybridLogs.HybridLog.Drain` | crates/tsavorite/src/epoch.rs:214-231 | runs the ready actions, keeps the log valid, and with nobody protected leaves none waiting |
| `HybridLogs.HybridLog.BumpWithAction` | crates/tsavorite/src/epoch.rs:198-211 | the epoch advances, the action is never forgotten, and with nobody protected nothing is left waiting |
| `HybridLogs.HybridLog.TrySeal` | crates/tsavorite/src/record.rs:117-135 | only the Sealed bit of a valid record changes |
| `IndexMachine.OnePerTag` | crates/tsavorite/src/index.rs:288-324 | any number of threads, any interleaving of single-word steps, overflow linking included: a chain never holds two non-tentative entries with one tag |
| `IndexMachine.StaysPublished` | crates/tsavorite/src/index.rs:288-324 | a published entry stays where it is |
| `IndexMachine.SameSlot` | crates/tsavorite/src/index.rs:297-324 | whatever calls for one tag return, at whatever times, is one cell |
| `IndexMachine.FindsPublished` | crates/tsavorite/src/index.rs:190-210 | a walker that began after publication returns that entry and never misses it |
| `IndexMachine.StepYields` | crates/tsavorite/src/index.rs:269-324 | of two entries with one tag, at least one is tentative and its owner will give it up |
| `IndexMachine.RunInv` | crates/tsavorite/src/index.rs:190-324 | the invariant holds in every reachable state |
| `LatchWord.CountsReaders` | crates/tsavorite/src/index.rs:335-407 | the count in the word is the number of readers, and the top bit is set exactly while someone holds or awaits the exclusive latch |
| `LatchWord.ExclusiveExcludes` | crates/tsavorite/src/index.rs:360-394 | a granted exclusive latch excludes every reader and writer |
| `LatchWord.HeldUntilUnlock` | crates/tsavorite/src/index.rs:396-402 | it stays granted until its holder unlocks it |
| `LatchWord.LinkIsForGood` | crates/tsavorite/src/index.rs:245-265 | latch traffic never changes a link that is set, and it is set at most once |
| `LatchWord.Fields` | crates/tsavorite/src/index.rs:36-39 | the three fields of the word are independent |
| `LatchWord.DropShared` | crates/tsavorite/src/index.rs:352-358 | the wrapping subtraction takes one reader off and touches nothing else |
| `LatchWord.TakeShared` | crates/tsavorite/src/index.rs:335-350 | the addition adds one reader and touches nothing else |
| `LatchWord.SetLink` | crates/tsavorite/src/index.rs:247-264 | linking sets the low bits and keeps the latch |
| `TxnLock.DeadlockFree` | crates/tsavorite/src/store.rs:1139-1165 | in every reachable state of any number of sessions locking in bucket order, unless all are finished some session can make its next acquisition or release in one or two steps of its own, and there is a way on for all of them to finish |
| `TxnLock.TransactionsExclude` | crates/tsavorite/src/store.rs:1139-1175 | while a session holds a bucket exclusively no other holds it at all |
| `TxnLock.StepRemaining` | crates/tsavorite/src/store.rs:1151-1175 | every acquisition and release brings the system one step nearer its end, retries never set it back |
| `TxnLock.WantedExact` | crates/tsavorite/src/store.rs:1145-1150 | each requested bucket is locked once, in bucket order, in its strongest requested mode |
| `TxnLock.SortIsPermutation` | crates/tsavorite/src/store.rs:1149 | the list is sorted by bucket, exclusive first, and loses nothing |
| `Commands.KeysCovered` | crates/garnet/src/commands.rs:146-255 | every key that a queued command reads or writes is in its lock list, in a mode that suffices, if and only if the command is none of KEYS, SCAN, DBSIZE, FLUSHDB and FLUSHALL, which go over all keys |
| `Commands.TransactionCovered` | crates/garnet/src/commands.rs:728-760 | the latches of a transaction cover the bucket of everything its commands read or write, however keys are spread over buckets, if and only if none of those commands is queued |
| `Commands.KeysReachesUnlocked` | crates/garnet/src/commands.rs:907-946 | MULTI, KEYS *, FLUSHALL: the lock list holds the pattern alone, while the first reads the key "a" and the second removes it |
| `Server.Connection.HandleConnection` | crates/garnet/src/server.rs:83-158 | reads that go on as long as there can be anything to read dispatch exactly the commands of the stream, as far as no command fills the largest buffer, and end the connection as the stream says, however they cut it; shorter schedules use every read unless one returned nothing or the connection closed, and dispatch the commands of what they took |
| `Server.ReadTwice` | crates/garnet/src/server.rs:83-158 | two ways of cutting one stream into reads run the same commands and end alike |
| `Server.Connection.Turn` | crates/garnet/src/server.rs:91-157 | one turn reads as much as is ready and fits, and ends the connection exactly on a read of nothing, a full largest buffer, or what the commands say |
| `Server.HeardAll` | crates/garnet/src/server.rs:91-102 | a stream in which no incomplete command reaches the largest buffer is heard to its end |
| `Server.Connection.Process` | crates/garnet/src/server.rs:112-156 | one batch runs every complete command and keeps exactly the rest at the front |
| `Server.Connection.Grow` | crates/garnet/src/server.rs:92-101 | a full buffer doubles up to the limit and keeps its bytes |
| `Server.RunBatch` | crates/garnet/src/server.rs:119-140 | the command loop runs the stream's commands up to the first incomplete, closing or malformed one |
| `Server.ConverseMore` | crates/garnet/src/server.rs:119-140 | more bytes leave what was heard as it was and go on where it stopped |
| `Server.CommandsGrow` | crates/garnet/src/server.rs:91-157 | the commands of a stream's beginning are the beginning of its commands |
| `Server.PipelineHeard` | crates/garnet/src/server.rs:91-157 | a pipeline of encoded commands is heard as exactly those commands |
| `Resp.ParseStable` | crates/garnet/src/resp.rs:60-186 | a complete command and an error both survive appended bytes |
| `Resp.EncodedParses` | crates/garnet/src/resp.rs:115-161 | an encoded command parses to its arguments, whatever follows |
| `Resp.PrefixIncomplete` | crates/garnet/src/resp.rs:60-161 | every strict prefix of an encoded command is incomplete, never an error |
| `Resp.CutShort` | crates/garnet/src/resp.rs:60-186 | so is any complete command cut short |
| `RespParser.ParseCommand` | crates/garnet/src/resp.rs:60-73 | cursor, argument ranges and outcome are those of the bytes at the position |
| `RespParser.ParseArrayAt` | crates/garnet/src/resp.rs:115-161 | the array loop reads what the framing says |
| `RespParser.ParseInlineAt` | crates/garnet/src/resp.rs:163-186 | inline words are split at blanks |
| `RespParser.ParseIntChecked` | crates/garnet/src/resp.rs:88-113 | the checked digit loop fails exactly on no digits, a non-digit or an overflow |
| `RespParser.FindCrlfFrom` | crates/garnet/src/resp.rs:75-86 | the first CRLF at or after the position |
| `Glob.GlobMatch` | crates/garnet/src/commands.rs:948-1032 | the single-saved-star loop terminates and accepts exactly the language of the pattern's tokens |
| `Glob.MatchesLanguage` | crates/garnet/src/commands.rs:947-1032 | the recursive matcher accepts what the tokens stand for; a set that is not closed matches nothing |
| `Glob.FirstStarSettled` | crates/garnet/src/commands.rs:1001-1004 | at a second star the first need never be tried again |
| `Glob.SearchSet` | crates/garnet/src/commands.rs:1014-1030 | single characters and ranges, read left to right |
| `Aof.AppendOnlyFile.CrashAndReplay` | crates/garnet/src/aof.rs:219-256 | for a file opened on any contents: after a crash that keeps any length from committed to written, replay delivers what it delivered at the opening, and, if replay got to the end then, also a prefix of the entries appended since, exactly those that end at or below the cut |
| `Aof.CrashReplay` | crates/garnet/src/aof.rs:219-256 | replay of a cut log delivers exactly the entries that lie whole below the cut |
| `Aof.AppendOnlyFile.Enqueue` | crates/garnet/src/aof.rs:143-167 | appends one entry, returns its end, and is durable at once in mode Always |
| `Aof.AppendOnlyFile.Commit` | crates/garnet/src/aof.rs:180-190 | everything enqueued is durable |
| `Aof.AppendOnlyFile.WaitCommitted` | crates/garnet/src/aof.rs:192-203 | returns only when the address is committed |
| `Aof.AppendOnlyFile.ReplayAll` | crates/garnet/src/aof.rs:219-256 | delivers what the opened file said, and every entry appended since if that file was whole |
| `Aof.AppendOnlyFile.ReadEntries` | crates/garnet/src/aof.rs:224-255 | the cursor loop delivers what the bytes hold |
| `Aof.FramesRead` | crates/garnet/src/aof.rs:145-155 | framed entries are read back as they were written |
| `Aof.ReopenedIff` | crates/garnet/src/aof.rs:90-132 | for every contents of a file: everything that can be appended to it is replayed behind what it says if and only if replay gets to its end |
| `Aof.CrashKeepsIff` | crates/garnet/src/aof.rs:90-132 | a log reopened after a crash keeps what is appended if and only if the crash fell between two entries |
| `Aof.ReplayGoesOn` | crates/garnet/src/aof.rs:219-256 | whatever is appended, replay delivers what it delivered before and goes on from where it stopped |
| `Aof.CutEnd` | crates/garnet/src/aof.rs:224-255 | in a log cut anywhere, replay gets to the end of the last whole entry |
| `Scan.ScanExact` | crates/tsavorite/src/log.rs:530-591 | over pages laid out with cuts between records: the scan visits each page's records from the device below the flushed boundary and from memory above it |
| `ScanBuilt.BuiltScan` | crates/tsavorite/src/log.rs:530-591 | over any log that a run of appends, refusals, flushes, Head moves, page closings and rewrites came to, with memory in a circular buffer: a scan from any record to any place between records visits exactly the records in between, each once, in strictly ascending address order across pages |
| `ScanBuilt.ScanOfRun` | crates/tsavorite/src/log.rs:537-591 | the scan's loop on such a log |
| `ScanBuilt.BuiltLaidOut` | crates/tsavorite/src/log.rs:541-590 | the pages of such a log are laid out as the scan expects them |
| `ScanBuilt.PlacesCut` | crates/tsavorite/src/log.rs:541-590 | every tail the log has had, every page start and both ends of every record are places between records |
| `ScanRun.RunInv` | crates/tsavorite/src/log.rs:258-453 | in every reachable state memory holds all records of open pages, the device all those below the flushed boundary, each with zeros behind the last, and that boundary cuts no record |
| `ScanRun.FlushHolds` | crates/tsavorite/src/log.rs:360-389 | copying up to a flush target leaves whole records on the device |
| `Scan.ScanLog` | crates/tsavorite/src/log.rs:537-591 | the page loop visits what the device below the flushed boundary and memory above it hold |
| `Scan.PageExact` | crates/tsavorite/src/log.rs:559-588 | wherever the boundary falls in a page, its records are visited once, in order |
| `Scan.WalkExact` | crates/tsavorite/src/log.rs:455-484 | the zero-header walker recovers a page's records |
| `Scan.ForEachRecord` | crates/tsavorite/src/log.rs:465-484 | the walker's loop |
| `Scan.ImageIsRecord` | crates/tsavorite/src/record.rs:187-210 | the size set aside for a record is the size its header says |
| `Scan.RecordInPlace` | crates/tsavorite/src/record.rs:383-402 | a record's header reads the same in its page as alone |

## Left out

- Memory ordering: every run is sequentially consistent; relaxed and acquire/release orders are not modelled.
- Bytes of a record in the store: `Store` and `LogMachine` treat a record as one cell of memory and device; byte layout is in `Scan` and `StringRecords` only.
- One call of `rmw` or `delete` is exclusive against other writers of its (bucket, tag) in the sequential model, and no CAS on an index entry fails there, since the bucket latch is held across an attempt.
- Reads of the device never fail; the code turns a failed read into "absent".
- The tail word is page * page_size + offset; `tail_address` uses a bitwise or, which differs on an exactly full odd page, and the 32-bit offset does not wrap in the model.
- The Begin address stays at the first valid address: nothing truncates the log.
- The mutable fraction is a page count M with 1 <= M <= B-1; the float arithmetic that computes it is not modelled.
- Hashing is an uninterpreted function from keys to (bucket, tag) slots; exhaustion of the overflow arena does not occur.
- `SlotRef::try_elide`, `HashIndex::clear` and FLUSHALL on a live store, which also zeroes held latches.
- Termination of `find_or_create_tag` under contention: two inserts may back off forever.
- Allocator: whether the next page is free is decided freely in the concurrent model; progress is proved for a session with no other thread protected.
- Peace asks for no other thread inside the epoch also where an allocation does not have to wait for one; only reads are shown to end whoever is inside.
- Stores.Store.InterfereOnce: other sessions write no records between the attempts of a call; one call is exclusive on its (bucket, tag), and writes of others to other slots are left out.
- Stores.Store.CasIntoChain: the CAS that fails and invalidates the new record, since the latch is held.
- HybridLogs.HybridLog.AllocateAlone: starts from a state of the sequential log, where a flush is over when its action is.
- LogMachine: allocating a record and writing its sealed header is one step; flushing copies record by record.
- Checkpoint: ReadOnly is assumed to stay at or below the start address until WAIT_FLUSH, because the version gate only sees records above the floor of its trace; a latched operation body is one step.
- Recovery.CollisionBreaksRecovery: the run is one of the checkpoint core, not of the composed machine with epoch slots.
- Recovery.Recover: records are visited by address; that the page walker finds them is `Scan.WalkExact`. Allocation after recovery at a page boundary, where the code would resume inside the page header, is not modelled.
- Strings: lengths that do not fit in 32 bits, and i64 overflow in computing an absolute expiration from a relative one.
- Commands.KeysCovered: SAVE and BGSAVE, which write the whole store to disk, count as touching no key.
- Commands: how a name is normalized and how options are parsed; GETEX without a key, which the code does not guard, touches nothing in the model.
- WATCH versions, scripts of MULTI replay, AOF as an exact concurrent history, and SAVE's truncation of the append-only file.
- TxnLock: latches of single operations are sessions that ask for one bucket; the bounded spins may give up at any time.
- `scan_live` against concurrent writers: scans are sequential here.
- Server: the send buffer and replies, sockets, connection limits and error kinds of the operating system.
- ScanRun.RunInv: a record is placed and filled in one step; a scan that meets a reserved record with its header still zero stops there, as the code's walker does.
- HybridLogs.HybridLog.AllocateAlone: starts from the sequential `Valid`, in which a flush is over with the action that asked for it, so FlushedUntil equals SafeReadOnly; the lag between them is in `LogMachine`.
- Stores.Store.InterfereOnce: other sessions write no records between the attempts of a call, not even of other (bucket, tag) slots; the guard for writes to the same slot is in `DiskRecheck`.
- Stores.Store.Rmw: a panic is a status here; that the guards drop the latch and the epoch slot as the thread unwinds is taken from the code, and what becomes of the connection is left out.
