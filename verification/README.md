# Verified models of a Squishy node's core data structures

This project models eight components of the node in Dafny and proves that each optimised or stateful structure
behaves like the simple specification it stands for, over every input and every run:

- the coins view cache: a stack of write-back caches with DIRTY and FRESH flags is indistinguishable from plain maps
  (`CoinRecord`, `CacheOverlay`, `CoinsCache`, `CoinsLevels`, `CoinsStack`, `CoinsOps`, `CoinsLaws`, `CoinsRun`);
- the address manager: three indexes, two bucket tables, reference counts and counters stay consistent, and survive
  the disk (`AddrState`, `AddrMoves`, `AddrShuffle`, `AddrMan`, `AddrFields`, `AddrRun`, `AddrFile`, `AddrLoad`, `AddrReload`,
  `AddrRoundTrip`);
- the script check queue as a state machine over its critical sections (`CheckQueue`, `CheckQueueLoop`);
- the cuckoo cache with its bit-packed flags and epochs (`CuckooTable`, `CuckooWalk`, `CuckooCache`);
- 256-bit integers and compact targets (`Limbs`, `Shifts`, `BaseUint`, `Compact`);
- the block index with skip links and the active chain (`BlockIndex`, `SkipWalk`, `Chain`);
- the codecs: Bech32 (`Bech32Checksum`, `Bech32`, `Bech32Exact`, `Bech32Code`), Base58 (`Radix`, `Base58`), and stored coins with
  compressed amounts and scripts (`Amount`, `AmountWrap`, `VarInt`, `ScriptCodec`, `CoinsCodec`, `CoinsStream`);
- the cJSON printer and parser with their string buffers (`Json`, `JsonRoundTrip`, `JsonUnicode`, `JsonGrammar`,
  `JsonBuffers`, `JsonCode`).

`Common` holds what several of them share.

`dafny verify dfyconfig.toml` checks everything. Code that updates fields or buffers step by step is a method, most
often of a class; its postcondition ties the new state to a function of the old one, and the lemmas are about that
function. Hashes, clocks, random draws, public keys and number formats are parameters. Where a property of the source
holds only under a condition, the lemma is an if-and-only-if.

Where the code differs from its comments, or from what a caller may expect, the model follows the code:

- `insert` of the cuckoo cache: the comment says that the first displaced element is at `locs[0]`; the code takes
  `locs[1]` (src/cuckoocache.h:416-430).
- `contains` of the cuckoo cache reports the default element, which the table is filled with, before anything has been
  inserted (src/cuckoocache.h:467-477); `CuckooCache.BlankFound` shows it.
- `Add_` of the address manager reports a new address even when the newcomer is rejected at once because its slot is
  taken (src/addrman.cpp:303-331); `AddrRun.AddUnknownMoves` says exactly when, and `AddrRun.AddedAndUnknown` is such a run.
- `Unserialize` of the address manager accepts a file that repeats an address (src/addrman.h:407-527);
  `AddrReload.LoadExactly` says exactly when the tables are consistent all the same, and `AddrReload.RepeatedRecord` is
  a file for which they are not.
- `Flush` hands its hashes to the parent even when they are null, and then the parent forgets its own
  (src/coins.cpp:543-545); `CoinsStack.CoinsViewStack.Flush` and `CoinsOps.StepPlain` state exactly when a hash survives,
  and `CoinsRun.FlushLosesBestBlock` is a run in which it does not.
- `x *= x` gives zero, because the number is cleared before its other operand is read (src/arith_uint256.cpp:83-97).
- Amounts whose compressed form takes more than 64 bits are written modulo 2^64 (src/compressor.cpp:157-200);
  `AmountWrap.KeptExactly` proves that exactly those are lost, and `AmountWrap.LargestLost` names one.
- The comment on variable-length integers lists `[0x80 0xFF 0x7F]` for 16511 and `[0x82 0xFD 0x7F]` for 65535
  (src/serialize.h:353-354); the code writes `[0xFF 0x7F]` and `[0x82 0xFE 0x7F]` (`VarInt.LongExamples`).
- cJSON reads `\u` before anything but four hexadecimal digits as a zero byte, which cuts the string short
  (src/cJSON.c:508-542); `JsonUnicode.BadHexIsZero` states it.
- A negative version or height of a coins record is written as its last seven bits (src/serialize.h:375-389);
  `CoinsCodec.RoundTrip` states exactly which records survive.

The comment in src/chain.cpp:138-140 that a walk over skip links takes at most 110 steps among the first 2^18 blocks is
proved, and exact (`SkipWalk.MaxSteps`, `SkipWalk.WalkBoundReached`).

## Model

| member | source | states |
|---|---|---|
| `CoinRecord.Cleanup` | src/coins.h:137-142 | the loop drops exactly the trailing spent outputs |
| `CoinRecord.TrimUnique` | src/coins.h:137-142 | trimming stops exactly behind the last unspent output |
| `CoinsCache.FillKeepsStack` | src/coins.cpp:121-137 | a lookup that fills a cache with what its base answers changes no view of any level |
| `CoinsCache.TopKeepsStack` | src/coins.cpp:362-381 | a change to the topmost cache leaves every lower level as it was |
| `CoinsStack.BatchWriteCoins` | src/coins.cpp:502-535 | the merged map shows what the child showed over the parent, keeps the meaning of DIRTY and FRESH and the usage sum, and the FRESH assertion holds |
| `CoinsStack.BatchWriteAnchors` | src/coins.cpp:460-491 | flipping `entered` without copying the tree still shows the child's anchors, because the root determines the tree |
| `CoinsStack.BatchWriteNullifiers` | src/coins.cpp:438-457 | the merged nullifiers show what the child showed |
| `CoinsStack.BatchWrite` | src/coins.cpp:493-547 | the parent shows what the child showed; its hashes become the child's, null or not |
| `CoinsStack.StoreWriteSeen` | src/txdb.cpp:181-216 | writing a cache to the store makes the store answer what the cache answered |
| `CoinsStack.CoinsViewStack.constructor` | src/coins.cpp:105-110 | a store without caches is a valid stack |
| `CoinsStack.CoinsViewStack.GetCoins` | src/coins.cpp:353-360 | answers as the plain ledger of the level; a pruned record counts as absent; no view changes |
| `CoinsStack.CoinsViewStack.FetchCoins` | src/coins.cpp:121-137 | brings the record into the cache with the right flags and usage, without changing any view |
| `CoinsStack.CoinsViewStack.HaveCoins` | src/coins.cpp:392-399 | true exactly when the plain ledger has unspent outputs; of a record that is being edited, exactly when any outputs are left |
| `CoinsStack.CoinsViewStack.GetAnchorAt` | src/coins.cpp:140-184 | the tree under a root, as on the plain ledger |
| `CoinsStack.CoinsViewStack.GetNullifier` | src/coins.cpp:186-209 | spent or not, as on the plain ledger |
| `CoinsStack.CoinsViewStack.GetBestBlock` | src/coins.cpp:401-414 | the best block as on the plain ledger; every level that the question went through now has the answer as its own hash |
| `CoinsStack.CoinsViewStack.GetBestAnchor` | src/coins.cpp:417-432 | the best anchor as on the plain ledger; every level that the question went through now has the answer as its own hash |
| `CoinsStack.CoinsViewStack.ModifyCoins` | src/coins.cpp:362-381 | opens the record for writing; FRESH only if the base has no unspent outputs for it |
| `CoinsStack.CoinsViewStack.WriteCoins` | src/coins.h:450-463 | while the modifier is live, what it holds is what the cache shows |
| `CoinsStack.CoinsViewStack.CloseModify` | src/coins.cpp:719-731 | the edit is cleaned up, a fresh and pruned entry is dropped, and the usage is exact again |
| `CoinsStack.CoinsViewStack.PushAnchor` | src/coins.cpp:212-264 | the anchor is entered and becomes the best one; nothing else changes |
| `CoinsStack.CoinsViewStack.PopAnchor` | src/coins.cpp:284-336 | the best anchor is removed and the given one becomes the best |
| `CoinsStack.CoinsViewStack.SetNullifiers` | src/coins.cpp:338-351 | exactly the given nullifiers are marked |
| `CoinsStack.CoinsViewStack.SetBestBlock` | src/coins.cpp:434-436 | only the best block of the topmost level changes |
| `CoinsStack.CoinsViewStack.Enter` | src/coins.cpp:105 | a new cache on top answers what was on top before |
| `CoinsStack.CoinsViewStack.Leave` | src/coins.cpp:107-110 | dropping an unflushed cache gives back the views below it |
| `CoinsStack.CoinsViewStack.Flush` | src/coins.cpp:549-558 | the base answers what the cache answered for all coins, anchors and nullifiers; each hash survives if and only if it is set or the base had none to lose |
| `CoinsRun.Edit` | src/coins.cpp:362-381 | one whole edit is one write to the plain ledger |
| `CoinsOps.StepPlain` | src/coins.cpp:121-558 | an operation acts on levels with hashes of their own as on plain ledgers if and only if it sets no null hash over one that is not null and hands none down to one |
| `CoinsOps.RunPlain` | src/coins.cpp:121-558 | a run of steps where levels and ledgers agree gives the same answers and contents on both |
| `CoinsOps.FilledShown` | src/coins.cpp:401-432 | reading a hash changes nothing but each level's own copy of it, and no answer of any level |
| `CoinsLevels.ShownIsView` | src/coins.cpp:401-432 | the answer found by falling through null hashes is the one of the view |
| `CoinsLaws.ModifiedRead` | src/coins.cpp:362-399 | the outputs written are read back without the spent ones at the end; no other read changes |
| `CoinsLaws.MarkedRead` | src/coins.cpp:338-351 | exactly the given nullifiers of that pool read as spent, or as unspent again; no other read changes |
| `CoinsLaws.PushedRead` | src/coins.cpp:212-264 | a new anchor is the best one and its tree is found under its root; no other read changes |
| `CoinsLaws.PoppedRead` | src/coins.cpp:284-336 | a popped anchor is unknown and the given one is the best; no other read changes |
| `CoinsLaws.PushPop` | src/coins.cpp:212-336 | popping back to the former best anchor undoes pushing a new one, as when a block is disconnected |
| `CoinsLaws.BestBlockRead` | src/coins.cpp:401-436 | the best block is the one set, or for a null hash what the level below answers |
| `CoinsLaws.ReadRead` | src/coins.cpp:353-432 | no read changes a later answer |
| `CoinsLaws.EnterLeave` | src/coins.cpp:105-110 | a new cache answers as the one below it, and dropping it gives that one back |
| `CoinsLaws.FlushLeave` | src/coins.cpp:493-558 | an answer is the same after flushing and dropping a cache, but for a hash if and only if that does not survive |
| `CoinsRun.Replay` | src/coins.cpp:121-558 | any sequence of reads, edits, anchors, nullifiers, nested caches and flushes, over any store, gives the answers and the levels of a stack of plain maps with nullable hashes; and of plain ledgers, if every step is one where these agree |
| `CoinsRun.FlushLosesBestBlock` | src/coins.cpp:543-558 | a concrete family of runs in which flushing a child with a null hash loses the parent's best block |
| `AddrState.EmptyConsistent` | src/addrman.h:266-286 | the cleared tables are consistent |
| `AddrState.EnterStep` | src/addrman.cpp:108-118 | a new entry keeps the permutation, the inverse maps and the counters |
| `AddrState.SwapStep` | src/addrman.cpp:120-138 | swapping two places of vRandom keeps nRandomPos its inverse |
| `AddrState.DeleteStep` | src/addrman.cpp:140-152 | removing an unreferenced entry keeps all indexes consistent |
| `AddrState.UnreferenceStep` | src/addrman.cpp:154-167 | clearing a slot keeps reference counts exact, and the count was positive |
| `AddrState.ReferenceStep` | src/addrman.cpp:321-324 | filling a free slot keeps reference counts exact |
| `AddrState.EvictStep` | src/addrman.cpp:187-197 | taking an entry out of its tried slot keeps everything else exact |
| `AddrState.TryStep` | src/addrman.cpp:210-215 | putting a loose entry in its own free tried slot keeps everything exact |
| `AddrMoves.ClearKeeps` | src/addrman.cpp:154-167 | clearing a slot costs at most its occupant, and only when that was its last reference |
| `AddrMoves.PlaceKeeps` | src/addrman.cpp:310-330 | placing an entry costs at most one entry |
| `AddrMoves.MakeTriedStep` | src/addrman.cpp:169-215 | MakeTried restores full consistency |
| `AddrMoves.MakeTriedMoves` | src/addrman.cpp:169-215 | the tried set gains the entry and loses the occupant of its slot, which returns to the new set; at most one new entry is lost |
| `AddrMan.CAddrMan.constructor` | src/addrman.h:266-286 | the cleared manager is consistent |
| `AddrMan.CAddrMan.Find` | src/addrman.cpp:95-106 | finds the id of an address exactly when it is known |
| `AddrMan.CAddrMan.Create` | src/addrman.cpp:108-118 | the new entry has the next id, and no index forgets anything |
| `AddrMan.CAddrMan.SwapRandom` | src/addrman.cpp:120-138 | exactly the two places are exchanged |
| `AddrMan.CAddrMan.Delete` | src/addrman.cpp:140-152 | exactly the entry is gone from every index |
| `AddrMan.CAddrMan.ClearNew` | src/addrman.cpp:154-167 | the slot is free and the manager consistent; the reference count assertion holds |
| `AddrMan.CAddrMan.DropFromNew` | src/addrman.cpp:171-181 | the loop takes the entry out of every new bucket and leaves its count at zero |
| `AddrMan.CAddrMan.Vacate` | src/addrman.cpp:187-209 | the tried slot becomes free and its occupant goes back to its new bucket |
| `AddrMan.CAddrMan.MakeTried` | src/addrman.cpp:169-215 | all assertions hold and full consistency is kept |
| `AddrMan.CAddrMan.FindNewBucket` | src/addrman.cpp:243-258 | the search always finds a bucket, so the exit without one is unreachable |
| `AddrMan.CAddrMan.Good` | src/addrman.cpp:217-264 | full consistency is kept; the result is the state that `AddrRun.GoodMoves` describes |
| `AddrMan.CAddrMan.Settle` | src/addrman.cpp:310-330 | an entry gets its slot, is rejected or deleted, and the manager is consistent |
| `AddrMan.CAddrMan.Add` | src/addrman.cpp:266-332 | full consistency is kept; true exactly for routable addresses that were unknown |
| `AddrMan.CAddrMan.AddKnown` | src/addrman.cpp:275-302 | the entry is as `AddrMan.Heard` says and gets another slot when `AddrMan.MayRepeat` holds; `AddrFields.KnownFields` states both in plain numbers |
| `AddrMan.CAddrMan.GetAddr` | src/addrman.cpp:495-514 | acceptable addresses without repetition, at most 23 percent of all and at most 2500, and all of them when no limit is hit; they are those met by a Fisher-Yates shuffle of vRandom |
| `AddrShuffle.ShuffledPermutes` | src/addrman.cpp:502-507 | a shuffle neither loses nor repeats an entry |
| `AddrShuffle.EveryOrder` | src/addrman.cpp:502-507 | every order of the entries is reached by some draws |
| `AddrMan.CAddrMan.Attempt` | src/addrman.cpp:334-351 | only the statistics of the known address change |
| `AddrMan.CAddrMan.Connected` | src/addrman.cpp:516-534 | only the time of the known address changes, and only if it is old |
| `AddrRun.AddKnownMoves` | src/addrman.cpp:275-332 | hearing of a known address never loses it and costs at most the entry in its target slot |
| `AddrFields.KnownFields` | src/addrman.cpp:275-332 | hearing of a known address: its time is moved forward if and only if it is unset or stale by more than the interval and the penalty, its services are the union, it gains one reference exactly when `AddrFields.Gains` says so, in its target slot, and nothing else of it changes |
| `AddrFields.UnknownFields` | src/addrman.cpp:303-332 | a new address, if it is entered, is as announced with its time set back, and has one reference, in its target slot |
| `AddrFields.GoodFields` | src/addrman.cpp:217-264 | a good address has its clocks set and its failures forgotten, and is in its tried slot; its time is not touched |
| `AddrFields.EvictedFields` | src/addrman.cpp:187-209 | the entry that has to leave the tried slot has one reference, where its own source leads |
| `AddrFields.TerribleCases` | src/addrman.cpp:53-71 | the five cases of a terrible entry, in seconds, and the exception for one tried in the last minute |
| `AddrFields.SlotsExactly` | src/addrman.cpp:26-51 | the bucket and position of each kind of entry, modulo 1024, 256 and 64 |
| `AddrRun.AddUnknownMoves` | src/addrman.cpp:303-332 | an unknown address is entered exactly when its slot is free or its occupant is terrible or referenced elsewhere |
| `AddrRun.AddedAndUnknown` | src/addrman.cpp:303-331 | a family of runs in which Add_ returns true for an address that is unknown afterwards |
| `AddrRun.GoodMoves` | src/addrman.cpp:217-264 | how the tried and the new set change, with at most one entry lost |
| `AddrRun.ConsistentPasses` | src/addrman.cpp:418-492 | a consistent table with sane clocks passes the repository's own check |
| `AddrRun.GoodTimed` | src/addrman.cpp:217-264 | clocks stay sane if and only if the time is positive or the address unknown |
| `AddrRun.AddTimed` | src/addrman.cpp:266-332 | adding keeps the clocks sane |
| `AddrRun.Run` | src/addrman.cpp:418-492 | every run from the cleared manager stays consistent, and passes the check when clocks are positive |
| `AddrFile.ListsExact` | src/addrman.h:364-382 | the lists written are exactly the new and the tried set, so both count assertions hold |
| `AddrFile.Serialize` | src/addrman.h:350-404 | the file is the dump of the state |
| `AddrLoad.Unserialize` | src/addrman.h:407-527 | for any file: it fails exactly for a wrong key size, an excessive count or a short stream, and otherwise loads the state that the stages define |
| `AddrLoad.HomesBelow` | src/addrman.h:465-478 | bucket numbers read from the file are in range |
| `AddrReload.LoadConsistent` | src/addrman.h:407-527 | whatever the hashes, a file with distinct addresses and natural counts loads to consistent tables |
| `AddrReload.LoadExactly` | src/addrman.h:407-527 | an accepted file loads to consistent tables if and only if its counts are natural and any two entries with one address have both found no place |
| `AddrReload.RepeatedRecord` | src/addrman.h:434-446 | an accepted file with one record twice that loads to inconsistent tables, whatever the hashes |
| `AddrReload.Header` | src/addrman.h:350-362 | the header that Serialize writes, in plain numbers |
| `AddrReload.RejectedExactly` | src/addrman.h:407-460 | when a file is rejected, in plain numbers |
| `AddrReload.FiledFirst` | src/addrman.h:500-509 | when the stored buckets cannot be used, each home slot goes to the first record that leads to it |
| `AddrReload.TriedFirst` | src/addrman.h:448-463 | a tried record whose slot is still free stays in it, with what it says |
| `AddrRoundTrip.CountsFit` | src/addrman.h:426-432 | a consistent table has at most 65536 new and 16384 tried entries, the limits that Unserialize enforces |
| `AddrRoundTrip.HomesAt` | src/addrman.h:465-478 | entryToBucket is the highest-numbered bucket that lists the entry |
| `AddrRoundTrip.RoundTrip` | src/addrman.h:350-527 | reading back under the same asmap loses no entry; the result is consistent, and each new entry lies in exactly one slot, in the highest-numbered bucket it occupied |
| `AddrRoundTrip.Reload` | src/addrman.h:350-527 | the same for the two operations in sequence |
| `CheckQueue.BatchFits` | src/checkqueue.h:120-125 | a batch has at least one check, no more than are queued, and no more than the limit unless it is one |
| `CheckQueue.BatchExact` | src/checkqueue.h:120-125 | the batch size is the queue divided by the number of threads plus idle ones plus one, within the limit and at least one |
| `CheckQueue.InitialOk` | src/checkqueue.h:148-149 | the new queue satisfies the invariant |
| `CheckQueue.AccountStep` | src/checkqueue.h:94-104 | accounting for a batch keeps the invariant inside the critical section; nTodo does not underflow |
| `CheckQueue.ProceedStep` | src/checkqueue.h:105-135 | leaving, sleeping and taking a batch restore the invariant |
| `CheckQueue.StepKeeps` | src/checkqueue.h:84-176 | every step of every thread keeps the invariant: nTodo is the queue length plus all unaccounted batches, nIdle and nTotal are exact |
| `CheckQueue.WaitAnswer` | src/checkqueue.h:106-119 | Wait leaves only when nothing is queued or held, with the exact verdict |
| `CheckQueue.WaitCorrect` | src/checkqueue.h:84-161 | in every run, Wait returns true exactly when every check added since the last Wait is true |
| `CheckQueue.MasterWaits` | src/checkqueue.h:94-119 | the master sleeps unnotified only while some worker holds a batch |
| `CheckQueue.Progress` | src/checkqueue.h:84-142 | no deadlock: while the master waits, some thread can go on without a spurious wake-up |
| `CheckQueue.MoveDecreases` | src/checkqueue.h:84-142 | every step within the loop but a spurious wake-up uses up potential |
| `CheckQueue.WaitReturns` | src/checkqueue.h:84-161 | Wait returns after boundedly many steps that are not spurious wake-ups |
| `CheckQueue.NoWorkAfterFailure` | src/checkqueue.h:126-141 | once a failure is known the checks of further batches are skipped |
| `CheckQueueLoop.CCheckQueue.AddChecks` | src/checkqueue.h:164-176 | the checks are queued and the right workers notified |
| `CheckQueueLoop.CCheckQueue.CleanUp` | src/checkqueue.h:94-104 | the first half of the critical section is the step of the state machine |
| `CheckQueueLoop.CCheckQueue.Proceed` | src/checkqueue.h:105-135 | the second half of the critical section, with the batch loop, is the step of the state machine |
| `CheckQueueLoop.CCheckQueue.PopBatch` | src/checkqueue.h:126-132 | the last checks of the queue move to the batch, last first |
| `CheckQueueLoop.CCheckQueue.Advance` | src/checkqueue.h:84-142 | every step of a thread is a step of the state machine and keeps the invariant |
| `CheckQueueLoop.Interleave` | src/checkqueue.h:84-176 | any interleaving goes through the states of the state machine and gives its answers |
| `CuckooTable.ScaledDown` | src/cuckoocache.h:243-253 | multiply and shift gives a location below the size |
| `CuckooTable.LocationExact` | src/cuckoocache.h:243-253 | the location is the hash times the size divided by 2^32, rounded down |
| `CuckooTable.ChangedKept` | src/cuckoocache.h:392-440 | what one rewritten slot does to the set of kept elements, the default one aside |
| `CuckooTable.NotFound` | src/cuckoocache.h:398-405 | an element not at its own locations is nowhere in the table |
| `CuckooTable.Found` | src/cuckoocache.h:467-477 | every kept slot is one of the eight locations of its element |
| `CuckooTable.CountAll` | src/cuckoocache.h:295-300 | the scan counts the kept slots of the current epoch exactly |
| `CuckooTable.AgedContents` | src/cuckoocache.h:306-313 | ageing keeps exactly the current epoch, as the old one |
| `CuckooCache.OneBit` | src/cuckoocache.h:92-116 | setting or clearing a bit of a byte changes that bit only |
| `CuckooCache.BitSet` | src/cuckoocache.h:92-95 | exactly one flag becomes set |
| `CuckooCache.BitUnset` | src/cuckoocache.h:103-106 | exactly one flag becomes clear |
| `CuckooCache.Cache.constructor` | src/cuckoocache.h:340-353 | every slot is garbage, the counter and the epoch are 45 percent of the size, computed in 32 bits, and at least 1, and the cache is empty and within its bounds |
| `CuckooCache.Cache.EpochCheck` | src/cuckoocache.h:289-321 | a new epoch starts exactly when the counter has run out and the epoch is full |
| `CuckooCache.Cache.Insert` | src/cuckoocache.h:392-440 | of what epoch_check leaves and the new element at most one is lost, all others keep their epoch, and the bounds hold; an element present is freshened at its location, and any other goes the way of `CuckooWalk.Displaced`; the counter is the one that epoch_check leaves |
| `CuckooCache.Cache.Displace` | src/cuckoocache.h:406-439 | the state after the walk that `CuckooWalk` defines: each displaced element goes on to its next location, and only the last one in hand is lost |
| `CuckooWalk.OpenTaken` | src/cuckoocache.h:406-415 | an element one of whose locations may be overwritten goes to the first such one; nothing else changes and nothing is lost |
| `CuckooWalk.OneRound` | src/cuckoocache.h:416-439 | with a depth limit of one, the occupant of the second location is lost and the new element takes its place |
| `CuckooWalk.LostOnlyIfFull` | src/cuckoocache.h:406-439 | an element is lost only after depth_limit rounds, in each of which all locations were in use |
| `CuckooWalk.NotBack` | src/cuckoocache.h:416-430 | an element put down is not picked up again in the next round, if the locations of the one in hand are distinct |
| `CuckooCache.InsertAndFind` | src/cuckoocache.h:392-477 | insert and then contains gives true unless all eight locations were in use |
| `CuckooCache.FirstFind` | src/cuckoocache.h:340-477 | in a new cache it always does |
| `CuckooCache.Retained` | src/cuckoocache.h:289-440 | an element of the current epoch is kept through the next epoch_size + 1 inserts, unless it is displaced |
| `CuckooCache.Cache.Contains` | src/cuckoocache.h:467-477 | finds exactly what is at one of its own locations, which is all that is in the table but for the default element, and so every kept element; erasing marks that element only |
| `CuckooCache.InsertBounded` | src/cuckoocache.h:289-321 | the bound on the current and on the old epoch is kept by epoch_check and insert |
| `CuckooCache.TwoEpochs` | src/cuckoocache.h:289-321 | kept slots, and so kept elements, of the current epoch never exceed epoch_size + max(1, epoch_size/16), all of them never twice that |
| `CuckooCache.Run` | src/cuckoocache.h:289-477 | the bounds and the reachability of every kept slot after any run |
| `CuckooCache.BlankFound` | src/cuckoocache.h:467-477 | the default element is found in an empty cache |
| `Limbs.OrDisjoint` | src/arith_uint256.cpp:37-69 | bits that do not overlap add up |
| `Shifts.LeftValue` | src/arith_uint256.cpp:37-52 | shifted limbs are the number times a power of two, modulo the width |
| `Shifts.RightValue` | src/arith_uint256.cpp:54-69 | shifted limbs are the number divided by a power of two, rounded down |
| `BaseUint.Number.SetLow` | src/arith_uint256.h:103-110 | the value is the 64-bit number |
| `BaseUint.Number.AddAssign` | src/arith_uint256.h:150-160 | addition modulo the width, without 64-bit overflow, also of a number to itself |
| `BaseUint.Number.SubAssign` | src/arith_uint256.h:162-166 | subtraction modulo the width |
| `BaseUint.Number.Negated` | src/arith_uint256.h:92-99 | negation modulo the width |
| `BaseUint.Number.Increment` | src/arith_uint256.h:188-195 | addition of one modulo the width, with the early stop |
| `BaseUint.Number.MulWord` | src/arith_uint256.cpp:71-81 | multiplication by a word modulo the width, without 64-bit overflow |
| `BaseUint.Number.MulAssign` | src/arith_uint256.cpp:83-97 | multiplication modulo the width, without 64-bit overflow; zero for a number multiplied by itself in place |
| `BaseUint.Number.ShiftLeft` | src/arith_uint256.cpp:37-52 | multiplication by a power of two modulo the width |
| `BaseUint.Number.ShiftRight` | src/arith_uint256.cpp:54-69 | floor division by a power of two |
| `BaseUint.Number.Bits` | src/arith_uint256.cpp:192-205 | the position of the highest bit plus one |
| `BaseUint.Number.CompareTo` | src/arith_uint256.cpp:126-140 | the sign of the difference |
| `BaseUint.Number.DivAssign` | src/arith_uint256.cpp:99-123 | exactly floor(a/b) for every nonzero b; failure exactly for zero |
| `BaseUint.Number.SetBit` | src/arith_uint256.cpp:116 | setting a clear bit adds its power of two |
| `Compact.SetCompact` | src/arith_uint256.cpp:225-243 | the value modulo 2^256; overflow exactly when the magnitude does not fit; negative exactly for a set sign and nonzero magnitude |
| `Compact.OverflowExact` | src/arith_uint256.cpp:238-241 | the overflow test is mantissa * 256^(exponent-3) >= 2^256 |
| `Compact.GetCompact` | src/arith_uint256.cpp:245-266 | the code of the value; both assertions hold |
| `Compact.RoundTrip` | src/arith_uint256.cpp:225-266 | decoding an encoded value gives w <= v, closer than 256^(exponent-3), equal up to exponent 3, with the same code and no flags |
| `Compact.Requantize` | src/arith_uint256.cpp:225-266 | the same for the two operations in sequence |
| `Compact.SignBack` | src/arith_uint256.cpp:225-266 | the sign written for a number is read back exactly when the number is not zero, and does not change the magnitude |
| `Compact.Kept15` | src/arith_uint256.cpp:225-266 | at least fifteen bits of a number are kept |
| `BlockIndex.InvertLowestOne` | src/chain.cpp:131 | lower than its argument unless that is zero |
| `BlockIndex.GetSkipHeight` | src/chain.cpp:134-142 | always lower than the height |
| `BlockIndex.Block.GetAncestor` | src/chain.cpp:145-169 | the same block as walking from parent to parent; null exactly outside the range; the parent assertion holds; with all skip links in place, the number of moves that `SkipWalk` bounds |
| `BlockIndex.Block.BuildSkip` | src/chain.cpp:176-180 | the skip link is the ancestor at the skip height, so that all links from the block down are right, and none is missing if none was |
| `BlockIndex.Extend` | src/chain.cpp:176-180 | a block added on top has the right skip link; it is linked, and fully linked if its parent was |
| `SkipWalk.Cornered` | src/chain.cpp:145-169 | the moves from a power of two above a multiple to any height in between |
| `SkipWalk.WalkBound` | src/chain.cpp:145-169 | among the first 2^b blocks a walk takes at most (b-2)^2/4 + 2(b-2) + max(b-4, (b+2)/2) moves |
| `SkipWalk.WalkBoundReached` | src/chain.cpp:145-169 | the bound is attained, from 2^b - 8 to 2, for every b from 9 on |
| `SkipWalk.MaxSteps` | src/chain.cpp:138-140 | at most 110 moves among the first 2^18 blocks |
| `Chain.ContainsAncestors` | src/chain.h:549-553 | below a block on the chain there are its ancestors |
| `Chain.CChain.Next` | src/chain.h:555-562 | the successor on the chain, exactly when there is one |
| `Chain.CChain.SetTip` | src/chain.cpp:35-46 | in spite of the early stop every entry is the ancestor of the tip at its height |
| `Chain.SetTips` | src/chain.cpp:35-46 | the same after any sequence of tips |
| `Chain.CChain.FindFork` | src/chain.cpp:77-86 | the highest ancestor of the block on the chain, or null if there is none |
| `Chain.CChain.GetLocator` | src/chain.cpp:48-75 | the blocks listed are ancestors at exactly the heights top - i for i up to 11 and top - 2^(i-10) - 9 after that, ending with the first at height zero; so there are at most 12 plus the logarithm of the height |
| `Bech32Checksum.PolyMod` | src/bech32.cpp:37-94 | the loop computes the remainder step by step |
| `Bech32Checksum.StepXor` | src/bech32.cpp:58-91 | a step is linear over XOR |
| `Bech32Checksum.StepInjective` | src/bech32.cpp:58-91 | only zero goes to zero |
| `Bech32Checksum.FeedXor` | src/bech32.cpp:37-94 | the remainder of the difference is the difference of the remainders |
| `Bech32Checksum.BurstDetected` | src/bech32.cpp:37-94 | lists that differ only within six consecutive symbols have different remainders, at any length |
| `Bech32Checksum.StepDivides` | src/bech32.cpp:58-91 | a step is multiplication by x modulo the generator over GF(32) |
| `Bech32Checksum.Multiples` | src/bech32.cpp:87-91 | the five constants are the generator times the powers of a |
| `Bech32Checksum.ProductExample` | src/bech32.cpp:52-57 | the product given as an example |
| `Bech32.ChecksumAccepted` | src/bech32.cpp:118-140 | a created checksum is always accepted |
| `Bech32.BurstsRejected` | src/bech32.cpp:118-125 | of two lists under one HRP that differ within six consecutive symbols at most one is accepted |
| `Bech32.SubstitutionRejected` | src/bech32.cpp:118-125 | a single wrong symbol is always detected, at any length |
| `Bech32.ExpandExact` | src/bech32.cpp:102-115 | the high bits, a zero and the low bits give every character of the HRP back |
| `Bech32.ExpandInjective` | src/bech32.cpp:102-115 | no two HRPs are expanded alike |
| `Bech32.HrpSubstitution` | src/bech32.cpp:118-125 | of two HRPs that differ in one character at most one accepts given values, if they have at most four characters, or differ in its high or in its low bits only |
| `Bech32.ShortHrps` | src/bech32.cpp:118-125 | of two different HRPs of one or two characters at most one accepts given values |
| `Bech32.EncodeDecode` | src/bech32.cpp:147-192 | decoding gives back every encodable HRP and values |
| `Bech32.RoundTrip` | src/bech32.cpp:147-192 | they come back if and only if they are encodable, apart from the empty pair that also stands for failure |
| `Bech32.DecodeRange` | src/bech32.cpp:162-192 | a decoded HRP has no upper case, and lengths and symbols are in range |
| `Bech32Exact.DecodeExactly` | src/bech32.cpp:147-192 | Decode gives a pair if and only if the string, in one case only, is the encoding of that pair |
| `Bech32Exact.CaseBlind` | src/bech32.cpp:162-192 | upper case is read as lower case, and a mixture is refused |
| `Bech32Exact.ChecksumUnique` | src/bech32.cpp:118-140 | only the created checksum is accepted |
| `Bech32Exact.CharsetText` | src/bech32.cpp:13 | the character set is that of BIP 173 |
| `Bech32Code.ExpandHrp` | src/bech32.cpp:102-115 | the buffer holds the list that `Bech32.ExpandExact` describes: high bits, a zero and low bits |
| `Bech32Code.Verify` | src/bech32.cpp:118-125 | accepts exactly the lists whose remainder under the HRP is one, the predicate that the error-detection lemmas are about |
| `Bech32Code.Create` | src/bech32.cpp:128-140 | the loop computes the six symbols that `Bech32.ChecksumAccepted` proves to be accepted |
| `Bech32Code.EncodeText` | src/bech32.cpp:147-159 | the loop refines the encoding whose inverse is proved; a symbol out of range gives the empty string |
| `Bech32Code.DecodeText` | src/bech32.cpp:162-192 | the loops refine the decoding, with every one of its failures |
| `Radix.RecodeInverse` | src/base58.cpp:36-115 | recoding digits there and back gives the same digits, for any two bases |
| `Radix.EncodeSpace` | src/base58.cpp:91 | 58^(138n/100+1) > 256^n for every n |
| `Radix.DecodeSpace` | src/base58.cpp:48 | 256^(733n/1000+1) > 58^n for every n |
| `Base58.DecodeEncode` | src/base58.cpp:36-115 | every byte sequence comes back |
| `Base58.EncodeDecode` | src/base58.cpp:36-115 | every string over the alphabet comes back |
| `Base58.CheckRoundTrip` | src/base58.cpp:127-151 | with a checksum every byte sequence comes back |
| `Base58.CheckAccepts` | src/base58.cpp:136-151 | whatever is accepted is the text of the bytes returned |
| `Base58.DecodeExactly` | src/base58.cpp:36-80 | decoding gives some bytes if and only if the text is their encoding with spaces around it |
| `Base58.Alphabet` | src/base58.cpp:34 | the alphabet is the alphanumeric characters without 0, I, O and l, in order |
| `Base58Code.MulAdd` | src/base58.cpp:57-61 | the digit buffer is multiplied and added to, in place, with the exact carry |
| `Base58Code.Convert` | src/base58.cpp:91-107 | the digits of the other base; the carry assertion never fails |
| `Base58Code.EncodeBase58` | src/base58.cpp:82-115 | the in-place digit loops refine the encoding whose inverse is proved, for all byte sequences |
| `Base58Code.ReadDigits` | src/base58.cpp:47-64 | the digits of the word, or failure at the first character outside the alphabet; the carry assertion never fails |
| `Base58Code.DecodeBase58` | src/base58.cpp:36-80 | the in-place digit loops refine the decoding, with spaces around and every failure |
| `Base58Code.DecodeBase58Check` | src/base58.cpp:136-151 | refines the checked decoding: short input and a wrong checksum fail |
| `Amount.DecompressCompress` | src/compressor.cpp:157-200 | every amount comes back, and its compressed form is at most nine times as large |
| `Amount.CompressDecompress` | src/compressor.cpp:157-200 | every number is the compressed form of some amount |
| `Amount.CompressAmount` | src/compressor.cpp:157-174 | the loop computes the compressed form of any 64-bit amount, modulo 2^64 |
| `Amount.DecompressAmount` | src/compressor.cpp:176-200 | the loop computes the amount of any 64-bit code, modulo 2^64 |
| `Amount.NeverNull` | src/compressor.cpp:176-200 | no amount is read back as -1, which would mark its output as spent |
| `Amount.Examples` | src/test/compress_tests.cpp:42-47 | the pairs of amounts and codes that the tests of the repository fix |
| `AmountWrap.KeptExactly` | src/compressor.cpp:157-200 | a signed 64-bit amount comes back if and only if its compressed form fits in 64 bits |
| `AmountWrap.SmallKept` | src/compressor.cpp:157-200 | every amount from zero to a ninth of 2^64 comes back |
| `AmountWrap.LargestLost` | src/compressor.cpp:157-200 | the largest 64-bit amount does not |
| `VarInt.RoundTrip` | src/serialize.h:374-403 | reading gives the number back; a negative one is reduced to seven bits |
| `VarInt.OneEncoding` | src/serialize.h:345-348 | every number has exactly one encoding, and no byte sequence is wasted |
| `VarInt.Sizes` | src/serialize.h:344 | one byte up to 127, two up to 16511, three up to 2113663 |
| `VarInt.DecodeMeans` | src/serialize.h:338-341 | what is read is the sum that the comment gives |
| `VarInt.Examples` | src/serialize.h:350-354 | the examples of the comment |
| `VarInt.LongExamples` | src/serialize.h:353-355 | the same for 16511 and 65535, where the comment lists other bytes, and for 2^32 |
| `VarInt.Write` | src/serialize.h:374-389 | the bytes written are the encoding |
| `VarInt.Read` | src/serialize.h:391-403 | the loop refines the decoding that inverts the encoding; the end of the stream is a failure |
| `VarInt.ReadWord` | src/serialize.h:391-403 | for a 64-bit type the loop reads the same number modulo 2^64 |
| `ScriptCodec.CompressBack` | src/compressor.cpp:27-145 | the four special scripts are decompressed to themselves |
| `ScriptCodec.Forms` | src/compressor.cpp:27-92 | the compressed forms in bytes: the header byte, and the hash or the first coordinate of the key |
| `ScriptCodec.RoundTrip` | src/compressor.h:73-104 | every script comes back, except that one over the size limit becomes a short invalid one |
| `ScriptCodec.KeptExactly` | src/compressor.h:95-103 | a script is unchanged exactly when it is within the size limit |
| `CoinsCodec.CalcMaskSize` | src/coins.cpp:39-55 | the number of mask bytes up to the last one used, and of those that are not zero |
| `CoinsCodec.MaskBack` | src/coins.h:191-230 | the sparse bitmask is recovered from the count of nonzero bytes |
| `CoinsCodec.CodeBack` | src/coins.h:186-219 | the header code gives back the flags and the N or N-1 byte count |
| `CoinsCodec.CodeBits` | src/coins.h:183-186 | the three low bits of the header code, and the N or N-1 above them |
| `CoinsCodec.UnserializeSerialize` | src/coins.h:179-240 | what a stored record is read back as, for every clean record that is not fully spent |
| `CoinsCodec.RoundTrip` | src/coins.h:179-240 | a record survives if and only if version and height are not negative, no script is over the limit, every amount compresses to 64 bits and spent outputs are blank |
| `CoinsCodec.NegativeVersionLost` | src/coins.h:188 | a concrete record whose negative version is lost |
| `CoinsStream.Unspent` | src/coins.h:185 | the assertion of Serialize holds for every record that is not fully spent |
| `CoinsStream.Serialize` | src/coins.h:179-206 | the bytes written are the stored form |
| `CoinsStream.Unserialize` | src/coins.h:208-240 | the loops refine the reading that inverts the stored form; a short stream fails |
| `CoinsStream.LoadOut` | src/compressor.h:121-135 | the amount and the script of an output, read in 64 bits |
| `CoinsStream.StoreAndLoad` | src/coins.h:179-240 | the exact condition for the two operations in sequence |
| `JsonParser.Skip` | src/cJSON.c:931-949 | the offset after blanks, stepping back at the end of the buffer |
| `JsonParser.ParseString` | src/cJSON.c:666-792 | a parsed string lies within the buffer and starts with a quote; what it stands for is `JsonUnicode.LiteralMeans` |
| `JsonParser.ParseValue` | src/cJSON.c:1162-1215 | parsing makes progress within the buffer, at any nesting |
| `JsonUnicode.Utf8Reads` | src/cJSON.c:606-657 | the bytes written for a code point are read back as that code point by an independent UTF-8 reader |
| `JsonUnicode.Utf16Reads` | src/cJSON.c:545-664 | a hexadecimal escape, or a surrogate pair of them, is read as the code point it spells |
| `JsonUnicode.UnpairedFails` | src/cJSON.c:564-598 | an unpaired surrogate is refused |
| `JsonUnicode.OtherEscapeFails` | src/cJSON.c:726-766 | a backslash before a character that is no escape is refused |
| `JsonUnicode.BadHexIsZero` | src/cJSON.c:508-542 | an escape without four hexadecimal digits is read as a zero byte |
| `JsonUnicode.LiteralMeans` | src/cJSON.c:666-792 | a literal made of plain characters, two-character escapes, hexadecimal escapes and surrogate pairs is read as the UTF-8 form of what these denote |
| `JsonUnicode.LiteralRefused` | src/cJSON.c:666-792 | a literal with an unpaired surrogate or an unknown escape behind such parts is refused |
| `JsonGrammar.ParsesExactly` | src/cJSON.c:1162-1558 | a value is parsed if and only if the grammar has it there and it is nested at most 1000 deep |
| `JsonGrammar.TextExactly` | src/cJSON.c:952-1029 | a text is accepted if and only if it is one value of the grammar with blanks around, nested at most 1000 deep |
| `JsonGrammar.BlankExactly` | src/cJSON.c:931-949 | blanks are the characters up to the space |
| `JsonRoundTrip.UnicodeBack` | src/cJSON.c:545-664 | the escape of a control character decodes to that character |
| `JsonRoundTrip.LiteralBack` | src/cJSON.c:666-792 | the closing quote is found and the characters come back |
| `JsonRoundTrip.StringBack` | src/cJSON.c:666-914 | a printed string parses to itself |
| `JsonRoundTrip.ValueBack` | src/cJSON.c:1162-1293 | a printed value parses to itself at any offset and depth, or fails exactly when nested too deeply |
| `JsonRoundTrip.RoundTrip` | src/cJSON.c:952-1110 | formatted or not, parsing gives the same tree and uses the whole text if and only if it is nested at most 1000 deep |
| `JsonGrammar.Layout` | src/cJSON.c:1390-1672 | how arrays and objects are laid out, formatted or not |
| `JsonBuffers.LengthExact` | src/cJSON.c:820-846 | output_length is exactly the length of the escaped string |
| `JsonBuffers.Render` | src/cJSON.c:795-914 | the buffer of output_length + 3 bytes is filled exactly, by either loop, and nothing is written outside it |
| `JsonBuffers.StepFits` | src/cJSON.c:714-768 | whatever the literal, a step writes no more bytes than the first loop has counted for it, even where the two loops disagree about escapes |
| `JsonCode.ParseBuffer.Unescape` | src/cJSON.c:712-771 | everything that is written before success or failure lies within allocation_length |
| `JsonCode.PrintBuffer.PrintString` | src/cJSON.c:795-914 | appends the quoted string, rendered in a buffer of the size computed beforehand |
| `JsonCode.PrintBuffer.PrintValue` | src/cJSON.c:1218-1293 | appends the text of the value at the current depth |
| `JsonCode.PrintBuffer.PrintArray` | src/cJSON.c:1390-1449 | appends the text of the array |
| `JsonCode.PrintBuffer.PrintObject` | src/cJSON.c:1561-1672 | appends the text of the object |
| `JsonCode.Print` | src/cJSON.c:1039-1110 | the printed text is the one that the round trip is about, formatted or not |
| `JsonCode.ParseBuffer.SkipWhitespace` | src/cJSON.c:931-949 | moves the offset as the parser function says |
| `JsonCode.ParseBuffer.ReadString` | src/cJSON.c:666-792 | both loops refine the string parser, within the buffer allocated; the offset ends up behind the closing quote |
| `JsonCode.ParseBuffer.ReadValue` | src/cJSON.c:1162-1215 | refines the value parser, success and failure alike; the depth is restored on success |
| `JsonCode.ParseBuffer.ReadArray` | src/cJSON.c:1296-1387 | refines the array parser with the nesting limit |
| `JsonCode.ParseBuffer.ReadItems` | src/cJSON.c:1331-1368 | the loop builds the list of elements in order |
| `JsonCode.ParseBuffer.ReadObject` | src/cJSON.c:1452-1558 | refines the object parser with the nesting limit |
| `JsonCode.ParseBuffer.ReadMembers` | src/cJSON.c:1485-1540 | the loop builds the list of members in order |
| `JsonCode.ParseText` | src/cJSON.c:952-1029 | succeeds exactly when the whole text is one value with blanks around, and returns that value |
| `JsonCode.PrintAndParse` | src/cJSON.c:952-1110 | the value comes back exactly up to the nesting limit |

## Left out

- Coins view cache: GetStats, GetOutputFor, GetValueIn, HaveInputs, GetPriority and the other readers built on the modelled lookups; they would only add easy members.
- Coins view cache: the database and its failures; the store is a plain ledger, and the special empty-root anchor of src/txdb.cpp is an ordinary entry of it.
- Coins view cache: aliasing between caches; a stack is one object, since an operation on a base while its child is live is excluded by the source's own contract. The Sprout and Sapling maps are one map keyed by the pool.
- CoinsRun.Replay: an edit is one operation, from ModifyCoins to the end of the modifier's life; reads in between are covered by the single methods only.
- Address manager: Select_ and GetChance, which are about probabilities in floating point.
- Address manager: nKey and the asmap are fixed, service bits are a set, counters and ids do not wrap around, and addresses are compared by their IP as in mapAddr.
- AddrLoad.Unserialize: the state after an exception is not specified, and a file cut off inside a record is the same as one with fewer records.
- Check queue: fQuit, which no code sets, and memory ordering; the critical sections are atomic.
- Cuckoo cache: memory ordering, and the floating-point logarithm behind depth_limit, which may be any number.
- CuckooCache.Cache.Insert: what is said about kept and lost elements leaves out the default element, which the table is filled with from the start; its slots count towards the bounds.
- 256-bit integers: the test on array addresses in CompareTo, getdouble, hexadecimal text and the bitwise operators.
- Block index: proof-of-work fields, validity flags and disk positions.
- Chain.CChain.GetLocator: lists blocks where the source lists their hashes; the doubling step does not wrap around for heights below 2^30.
- Bech32: the distance of the code for errors that are spread out further than six symbols.
- Base58: the typed keys and addresses built on the checked encoding.
- Base58Code.DecodeBase58: the text is what comes before the first zero byte, where the source stops reading.
- JsonCode.ParseText: the text is what comes before the first zero byte, as strlen gives it.
- Stored coins: the wrap-around of 32-bit variable-length integers, which takes a damaged stream or 2^32 outputs.
- Stored coins: public key validity and expansion, which are parameters with the law that a valid key is recovered.
- cJSON: how numbers are written and read, which is a parameter; a number survives when it is written so that it is read back. Raw items, references, failing allocations, the growth of the print buffer and the editing functions are not modelled.
