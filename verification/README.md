# Verified models of the node's core data structures

This project states and proves what eleven components of the node are for. Each model keeps the
structure of the code it describes (the same branches, constants and update order), and each is
related to something simpler that a reader can check at a glance.

| component | files | specification it is proved against |
|---|---|---|
| UTXO cache stack | `Coins.dfy` | one plain map from outpoint to unspent coin per level of the stack |
| Compact block relay | `CompactBlocks.dfy`, `PartialBlocks.dfy`, `CompactRelay.dfy` | the receiver ends with the sender's block |
| Script check queue | `CheckQueue.dfy` | over all interleavings, `Wait` is the conjunction of the checks added since the last `Wait` |
| Address manager | `AddrBook.dfy`, `AddrMan.dfy`, `AddrCheck.dfy` | the conditions of the manager's own `Check_`, on every run, and `Check_` itself |
| Cuckoo cache | `CuckooCache.dfy` | multisets of live elements per epoch: one in, at most one out |
| Rolling Bloom filter | `RollingBloom.dfy` | a plain Bloom filter over the last keys inserted |
| 256-bit arithmetic, compact targets, block proof | `Uint256.dfy`, `CompactTarget.dfy` | integers modulo 2^256 |
| Block index and active chain | `ChainIndex.dfy` | walking `pprev` one block at a time |
| Database transactions, nested or not, and merging iterator | `DbTransaction.dfy`, `DbStack.dfy`, `DbStackIterator.dfy` | the parent map overlaid with writes and deletes, one plain map per level, in key order |
| Base58 | `Base58.dfy`, `Radix.dfy` | positional notation: value of the bytes = value of the digits |
| Governance votes | `Governance.dfy` | the lexicographic maximum of (timestamp, outcome) |

`Powers.dfy` holds the arithmetic of powers and bit operations that several of these need, and
`Options.dfy` the type of optional values.

How to read a model. A class has the fields of the C++ object; a ghost field or a ghost function
gives its abstract value; `Valid()` ties the two and states the invariant. Every method's `ensures`
gives the new abstract value. Statements about whole runs are either a method that performs any
legal sequence of operations (`CoinsViewStack.Run`, `TransactionStack.Run`,
`GovernanceObject.DeliverAll`, `CompactRelay.Relay`), or the class invariant, which the constructor establishes and every method
keeps, or, for the check queue, lemmas about sequences of states.

Inputs that the code takes from outside are parameters: hash functions (Murmur, SipHash, the bucket
hashes, the Base58 checksum), memory measurement of a script, clocks, random numbers, the outcome of
`CheckBlock`, the bucket-size check of the short-id map, and vote validity.

Where the code and what is written about it disagree, the model follows the code:

- The cuckoo cache's comment says that the first eviction uses `locs[0]`
  (`src/cuckoocache.h:396`); the index it computes is `(1 + 8) & 7`, that is, `locs[1]`
  (`FirstEviction`). It also says that the rule prevents moving the element just put in
  (`src/cuckoocache.h:401`); `JustPutMovesExactly` says when it does not.
- `Check_` subscripts `mapAddr` with an entry's full address (`src/addrman.cpp:424`), while the map is
  keyed by the address without its port unless ports are told apart; a missing key yields 0 and is
  entered. `LiteralLookup` says exactly when the subscript yields the entry and when it leaves the map
  alone, and `Check` what the whole of `Check_` returns.
- Compact blocks keep slot numbers in 16 bits (`src/blockencodings.cpp:83-87`,
  `src/net_processing.cpp:2534-2538`), while the size limit admits 200000 transactions. `Relay` is an
  identity exactly up to 65536; `BeyondSixteenBits`, `RequestExactly` and `LongRebuild` show what
  happens past that. A message with 65536 transactions in full and some short id keeps the receiver
  searching for an empty slot for ever; `SearchEnds` gives the exact condition.
- `Good` and `Attempt` take any time, while `Check_` wants times of tried entries to be positive and
  no time to be negative. The structural invariant holds for every time; the ghost set `odd` names the
  entries that were given a time out of range, and it stays empty on every run with positive times.
- `operator*=` reads its argument after zeroing the target, so squaring in place yields 0; the
  contract of `MulAssign` says so.
- Votes that differ only in their multiple-choice text have the same hash and the same rank. Time
  and outcome always converge; `ChoiceConvergesIffUniform` says exactly when the text does, and
  `FileConvergesIffAgreed` when the vote file does.

## Model

| member | source | states |
|---|---|---|
| `Coins.MergeSound` | src/coins.cpp:146-200 | merging a child's DIRTY entry makes the parent show what the child showed there, keeps the parent's flags true of the grandparent, and never meets the "FRESH flag misapplied" condition |
| `Coins.HandOver` | src/coins.cpp:146-200 | an entry handed down and forgotten in the child leaves the child's view as it was, DIRTY or not |
| `Coins.MergeStep` | src/coins.cpp:147-197 | one loop iteration keeps soundness at both levels and the meaning of the whole stack |
| `Coins.ShowsUnique` | src/coins.h:144-163 | a stack of caches over a database denotes exactly one map per level |
| `Coins.AddExactly` | src/coins.cpp:68-87 | setting FRESH for a caller without the overwrite flag is sound if and only if the view has no unspent coin there |
| `Coins.CoinsViewStack.GetCoin` | src/coins.cpp:59-66 | found exactly when the level's map has the coin, and then that coin; filling caches moves no level's meaning |
| `Coins.CoinsViewStack.FetchCoin` | src/coins.cpp:42-57 | present exactly when the cache or the level's map has the outpoint; the cache is as before but for the fetched entry, which agrees with the level's map |
| `Coins.CoinsViewStack.AccessCoin` | src/coins.cpp:117-124 | the map's coin, or a spent one where there is none |
| `Coins.CoinsViewStack.AddCoin` | src/coins.cpp:68-87 | throws exactly when it would replace an unspent entry of the cache without the overwrite flag, leaving the memory counter short; otherwise the cache gains exactly this entry and the top map the coin (nothing happens if it is unspendable) and every other level is untouched; the flags stay true if and only if the overwrite flag is given or the view had no unspent coin there |
| `Coins.CoinsViewStack.SpendCoin` | src/coins.cpp:99-113 | true exactly when the top cache or the top map has the outpoint; the top map loses it and the coin that was there is handed out, whether the entry is erased or marked; the cache is otherwise as it was |
| `Coins.CoinsViewStack.SpendEntry` | src/coins.cpp:102-111 | the entry is erased if it is FRESH and marked DIRTY and spent otherwise; the memory counter is exact |
| `Coins.CoinKinds` | src/script/script.h:639-642 | a coin is unspendable exactly when its script begins with OP_RETURN or has more than 10000 bytes, and spent exactly when its value is -1 |
| `Coins.CoinsViewStack.Uncache` | src/coins.cpp:209-216 | exactly a clean entry is dropped, and no level's map changes |
| `Coins.CoinsViewStack.MergeEntry` | src/coins.cpp:148-195 | the case analysis of `BatchWrite` for one entry, with the memory counter exact |
| `Coins.CoinsViewStack.BatchWriteCache` | src/coins.cpp:146-200 | for every iteration order the parent ends up showing what the child showed, and the throw is unreachable |
| `Coins.CoinsViewStack.BatchWriteDb` | src/txdb.cpp:78-102 | the database becomes the overlay of its old contents with the child |
| `Coins.CoinsViewStack.Flush` | src/coins.cpp:202-207 | parent and emptied child both denote the child's old map; all other levels are as before |
| `Coins.CoinsViewStack.Run` | src/coins.cpp:42-216 | any legal run of fetch, add, spend, uncache, flush, push and drop on any stack equals the run on plain maps |
| `Coins.CoinsViewStack.HaveInputs` | src/coins.cpp:234-244 | true exactly for a coinbase or when every input is in the top map |
| `Coins.CoinsViewStack.GetValueIn` | src/coins.cpp:222-232 | the sum of the inputs' values in the top map |
| `BlockRequests.EncodeIndexes` | src/blockencodings.h:61-66 | the distances of any list, as unsigned 64-bit numbers |
| `BlockRequests.DecodeIndexes` | src/blockencodings.h:42-60 | failure exactly on a 16-bit overflow, else the running sums, with the offset wrapping as the 16-bit variable does |
| `BlockRequests.RequestRoundTrip` | src/blockencodings.h:37-67 | a list of 16-bit indexes arrives unchanged if it is strictly increasing, and is refused otherwise |
| `BlockRequests.IncreasingExactly` | src/blockencodings.h:53-60 | distances decode to a strictly increasing list if and only if they lead no further than position 65535; the condition is on the wire |
| `BlockRequests.ShortIdRoundTrip` | src/blockencodings.h:165-186 | six bytes return the short id if and only if it is below 2^48 |
| `BlockRequests.ReceiveShortIds` | src/blockencodings.h:163-186 | each short id sent arrives unchanged if and only if it is below 2^48 |
| `BlockRequests.ShortIdParts` | src/blockencodings.h:165-186 | what is written is the low 32 and the next 16 bits; the two parts read as low + 2^32 * high |
| `BlockSlots.GapAt` | src/blockencodings.cpp:84-87 | an empty slot with k empty slots before it is the k-th empty slot |
| `BlockSlots.PoolStep` | src/blockencodings.cpp:110-133 | one pool transaction turns the settled slots of the prefix before it into those of the prefix with it |
| `BlockSlots.ExtraStep` | src/blockencodings.cpp:136-165 | the same for an extra transaction, where an equal hash is not a conflict |
| `BlockSlots.FullMeansAll` | src/blockencodings.cpp:131-132 | as many filled slots as short ids means every slot is filled, so the early exit skips nothing it should not |
| `CompactMessages.Announce` | src/blockencodings.cpp:20-30 | the coinbase in full and the short ids of all other transactions in order |
| `CompactMessages.ShortIdIsLow48` | src/blockencodings.cpp:43-46 | a short id is the keyed hash modulo 2^48 |
| `CompactMessages.PlaceNext` | src/blockencodings.cpp:60-75 | each prefilled transaction lands in an empty slot at the sum of the distances, and the gaps stay as many as the short ids |
| `CompactMessages.SizeTellsDistinct` | src/blockencodings.cpp:101-104 | the map of short ids is as large as the list if and only if no short id repeats |
| `PartialBlocks.PartiallyDownloadedBlock.InitData` | src/blockencodings.cpp:50-171 | for every message on which it ends: INVALID exactly for malformed messages, without touching the object where the source has not looked at it yet, FAILED exactly for repeated short ids or a full bucket, otherwise every slot holds what its candidates settle on; where the two scans stop and what the counter shows then is decided exactly, also for an object used before |
| `PartialBlocks.SearchEnds` | src/blockencodings.cpp:83-86 | for a well-formed message with a short id the search for the first empty slot ends if and only if the message does not carry exactly 65536 transactions in full: the exact complement of what `InitData` requires |
| `PartialBlocks.NoneWithinReach` | src/blockencodings.cpp:83-86 | 65536 well-placed transactions in full fill every slot that a 16-bit offset can reach |
| `PartialBlocks.PartiallyDownloadedBlock.PlacePrefilled` | src/blockencodings.cpp:60-75 | accepts exactly the well-placed, non-null prefilled transactions and puts each at its position |
| `PartialBlocks.PartiallyDownloadedBlock.SkipFilled` | src/blockencodings.cpp:84-86 | the running offset finds the next empty slot inside the block and never wraps |
| `PartialBlocks.PartiallyDownloadedBlock.MapShortIds` | src/blockencodings.cpp:82-100 | short id i is given the i-th empty slot, in 16 bits |
| `PartialBlocks.PartiallyDownloadedBlock.ScanPool` | src/blockencodings.cpp:106-134 | slots, marks and `mempool_count` agree with the candidates seen, and it stops right after the first candidate with which the count reaches the number of short ids |
| `PartialBlocks.PartiallyDownloadedBlock.ScanExtra` | src/blockencodings.cpp:136-165 | every slot holds the outcome of all candidates seen; it stops by the same rule, and the counter shows the settled slots |
| `CompactMessages.StopsUnique` | src/blockencodings.cpp:106-165 | there is one place where the scans can stop, so the result is a function of the message and the candidates |
| `CompactMessages.StopsFull` | src/blockencodings.cpp:128-132 | on a new object a scan stops early only when every slot with a short id is filled |
| `PartialBlocks.PartiallyDownloadedBlock.FillBlock` | src/blockencodings.cpp:179-225 | INVALID exactly when the number of supplied transactions is not the number of gaps; otherwise the block has the slots' transactions and, in the gaps, the supplied ones in order; the object is cleared, unless transactions ran out, when exactly the slots before that gap have been moved out |
| `CompactRelay.HonestSlots` | src/blockencodings.cpp:50-171 | without short-id collisions every slot holds its own transaction or nothing, and, for a pool without repeats and scans that stop only when full, holds it exactly if the pool or the extra list offers it |
| `CompactRelay.OwnSlots` | src/blockencodings.cpp:82-165 | where positions lose nothing in 16 bits every slot holds its own transaction or nothing |
| `CompactRelay.HonestMessage` | src/blockencodings.cpp:51-54 | an honest message is refused only for a null header, a null coinbase or more than 200000 transactions |
| `CompactRelay.HonestIds` | src/blockencodings.cpp:43-46 | without collisions short ids repeat exactly when transaction hashes do |
| `CompactRelay.CompletesBack` | src/blockencodings.cpp:185-193 | filling the gaps with the block's own transactions gives the block |
| `CompactRelay.MissingIndexes` | src/net_processing.cpp:2534-2538 | the request lists exactly the empty slots, in order, each kept in 16 bits |
| `CompactRelay.Answer` | src/net_processing.cpp:1415-1425 | the block's transactions at the requested positions, or nothing if one is out of bounds |
| `CompactRelay.RequestMissing` | src/net_processing.cpp:2534-2547 | the peer can read the request if and only if the positions in 16 bits are strictly increasing, and then answers with the transactions at those positions |
| `CompactRelay.Transmit` | src/blockencodings.h:159-192 | a message whose short ids are below 2^48 arrives unchanged through six bytes each |
| `CompactRelay.Relay` | src/blockencodings.cpp:20-193 | for every block, pool and extra list without short-id collisions: up to 65536 transactions the receiver ends with the sender's block exactly when the block, the bucket check and CheckBlock allow it; what is rebuilt of any block is that block if and only if it has at most 65536 transactions or one more that is the coinbase again; INVALID is decided exactly |
| `CompactRelay.BeyondSixteenBits` | src/blockencodings.cpp:83-87 | whatever the pool and the extra list hold, no slot past 65535 is ever filled, so its position is always missing |
| `CompactRelay.RequestExactly` | src/net_processing.cpp:2534-2538 | the request asks for exactly the missing positions if and only if the block has at most 65536 transactions |
| `CompactRelay.LongRebuild` | src/blockencodings.cpp:185-193 | past 65536 transactions the answer puts the coinbase in position 65536 and transaction 1 in position 65537 |
| `CompactRelay.WrappedTarget` | src/blockencodings.cpp:87 | a candidate for transaction i claims slot i modulo 65536, for every i |
| `CompactRelay.CoinbaseReplaced` | src/blockencodings.cpp:83-87 | an instance: a receiver holding only transaction 65536 puts it in the coinbase's place |
| `CheckQueue.InitInv` | src/checkqueue.h:134 | the invariant holds of the new queue with any number of workers |
| `CheckQueue.RunBatch` | src/checkqueue.h:121-124 | a batch's status is its starting status and all its checks |
| `CheckQueue.BatchSizeExactly` | src/checkqueue.h:110 | a batch is one check, or at most nBatchSize and the equal share of the queue among the threads, rounded down; never fewer than these allow |
| `CheckQueue.StepKeeps` | src/checkqueue.h:69-161 | every critical section keeps the invariant: `nTodo` is the queued checks plus those in outstanding batches, nothing is lost or evaluated twice, `fAllOk` is the conjunction so far, queued work is never left to sleeping workers |
| `CheckQueue.RunKeeps` | src/checkqueue.h:69-161 | the invariant holds in every state of every interleaving |
| `CheckQueue.WaitIsExact` | src/checkqueue.h:92-99 | `Wait` returns true exactly when every check added since the last one evaluates to true |
| `CheckQueue.WaitOverRuns` | src/checkqueue.h:142-161 | between two returns of `Wait` in any run, the result speaks of exactly the checks added in between |
| `CheckQueue.SleepingMasterHasWorker` | src/checkqueue.h:91-104 | a master asleep and not notified has a worker with a batch |
| `CheckQueue.LastBatchWakesMaster` | src/checkqueue.h:80-85 | completing a batch lowers the count and the one that reaches zero wakes the master |
| `CheckQueue.WaitNeverStuck` | src/checkqueue.h:69-127 | while the master is in `Wait` some thread can move without a spurious wake-up |
| `CheckQueue.StepProgress` | src/checkqueue.h:69-127 | inside `Wait` every step but a spurious wake-up uses up some of 2 * nTodo plus the threads about to move |
| `CheckQueue.WaitEnds` | src/checkqueue.h:142-146 | over any run, the stretch inside one `Wait` has at most 2 * nTodo + threads steps that are not spurious wake-ups; with `WaitNeverStuck`, `Wait` returns |
| `AddrBook.IndexSwap` | src/addrman.cpp:103-121 | swapping two places keeps vRandom a permutation of the ids that every entry knows its place in |
| `AddrBook.SlotsAreResidues` | src/addrman.cpp:12-31 | the tried bucket is the hash modulo 256, the new bucket modulo 1024 and a position modulo 64 |
| `AddrBook.NewPut` | src/addrman.cpp:317-320 | entering a free slot raises the reference count to the number of slots held |
| `AddrBook.NewTake` | src/addrman.cpp:142-155 | emptying a slot lowers its entry's reference count, which was positive |
| `AddrBook.CreatedOk` | src/addrman.cpp:86-101 | a new entry keeps everything consistent, except that it is in no slot yet |
| `AddrBook.DeletedOk` | src/addrman.cpp:123-140 | deleting an unreferenced entry keeps everything consistent and touches no other entry |
| `AddrBook.ClearedOk` | src/addrman.cpp:142-155 | clearing a slot keeps everything consistent and costs at most the entry in it |
| `AddrBook.EmptiedAll` | src/addrman.cpp:157-169 | after the walk over all 1024 buckets the reference count is 0, so the assert holds |
| `AddrBook.MakeRoomOk` | src/addrman.cpp:171-197 | the tried slot is free afterwards, the evicted entry is new again, and at most one new entry is lost |
| `AddrBook.MadeTriedOk` | src/addrman.cpp:157-203 | the entry is tried, in its hashed slot, the entry it displaced is new, and at most one entry, never a tried one, is lost |
| `AddrMan.AddressManager.constructor` | src/addrman.h:457-484 | the empty manager is consistent, with no entry exempt from the conditions on times |
| `AddrMan.TerribleExactly` | src/addrman.cpp:33-51 | an entry is kept exactly if it was tried in the last minute, or its time is not zero, not more than ten minutes ahead and at most 30 days old, and it has not failed three times without a success or ten times in a week without one |
| `AddrMan.AddressManager.Find` | src/addrman.cpp:68-84 | the entry whose normalised address is the one asked for, exactly if there is one |
| `AddrMan.AddressManager.Create` | src/addrman.cpp:86-101 | the next id, appended to vRandom, indexed by its normalised address |
| `AddrMan.AddressManager.SwapRandom` | src/addrman.cpp:103-121 | exactly two entries exchange places |
| `AddrMan.AddressManager.Delete` | src/addrman.cpp:123-140 | the entry leaves all four structures and the counter |
| `AddrMan.AddressManager.ClearNew` | src/addrman.cpp:142-155 | the slot is empty, and its entry is gone if that was its last slot |
| `AddrMan.AddressManager.MakeTried` | src/addrman.cpp:157-203 | the state `MadeTriedOk` speaks of; every assert on the way holds |
| `AddrMan.AddressManager.SomeBucket` | src/addrman.cpp:234-249 | from any random start a new bucket holding the entry is found: the "something bad happened" exit is unreachable |
| `AddrMan.AddressManager.Good` | src/addrman.cpp:205-255 | consistency is kept, an entry with exactly this address ends up tried, at most one new entry is lost, any other address changes nothing; the entry's times are as `Check_` wants them if and only if the time is positive |
| `AddrMan.AddressManager.Refresh` | src/addrman.cpp:271-298 | the entry takes over a sufficiently newer time, nothing else changes, and another slot is sought exactly by a new entry below eight references, heard of later than it remembers, when one in 2^references comes up |
| `AddrMan.Handicap` | src/addrman.cpp:293-296 | doubling once per reference gives 2^references |
| `AddrMan.AddressManager.Place` | src/addrman.cpp:306-327 | the entry takes the slot of this source if it is free, terrible or redundant, and is deleted if it then has none |
| `AddrMan.AddressManager.Add` | src/addrman.cpp:257-328 | the whole new state, in every case; consistency is kept; true exactly for a routable unknown address, which is stored exactly if its slot is open and otherwise leaves the state as it was; tried entries are never touched and at most one new entry is lost; a stored address has this source, no statistics and the time less the penalty, not below 0 and without penalty for a self-announcement; a known one takes that time over exactly when it is set and sufficiently newer |
| `AddrMan.AddressManager.AddKnown` | src/addrman.cpp:271-298 | the address stays indexed, and its entry keeps everything but its time and references, whose changes are stated |
| `AddrMan.AddressManager.AddUnknown` | src/addrman.cpp:300-327 | the next id is used up; the address is stored with its source and its time less the penalty exactly if its slot is open, and otherwise nothing else changes |
| `AddrMan.AddressManager.Attempt` | src/addrman.cpp:330-350 | only the statistics of the entry with exactly this address change; its times stay as `Check_` wants them if and only if the time is not negative |
| `AddrMan.AddressManager.Connected` | src/addrman.cpp:498-516 | only the time of the entry with exactly this address changes, when it is more than 20 minutes old |
| `AddrMan.AddressManager.GetAddr` | src/addrman.cpp:477-496 | at most 23% and at most 2500 addresses, none twice, each of a known entry that is not terrible; fewer than that many only if no other entry qualifies; only the order of vRandom changes |
| `AddrCheck.CountsAddUp` | src/addrman.cpp:405-406 | the size of vRandom is the tried plus the new entries |
| `AddrCheck.OneTableEach` | src/addrman.cpp:434-468 | an entry is in the tried table or in the new table according to its flag, and in no other |
| `AddrCheck.LiteralLookup` | src/addrman.cpp:424-425 | subscripting the map with an entry's full address yields its id if and only if ports are told apart, its port is 0 or its id is 0; the map stays as it was, and consistent, if and only if ports are told apart or the port is 0 |
| `AddrCheck.EntryCodeExact` | src/addrman.cpp:408-432 | on any entry: 0 exactly if its times, references, subscript and place are in order, and each other code names a test that fails |
| `AddrCheck.ConsistentEntry` | src/addrman.cpp:408-432 | of the tests on an entry of a consistent manager only those on times and on the subscript can fail |
| `AddrCheck.EntriesMean` | src/addrman.cpp:405-437 | the tests on entries and counters pass if and only if vRandom is a permutation of the ids that every entry knows its place in, the counters and references are right, all times are in range and every address is found |
| `AddrCheck.CheckEntries` | src/addrman.cpp:408-432 | on any manager and in any order: 0 exactly if every entry is in order, otherwise the code of one that is not; keys that the subscripts enter affect no later entry; it collects the tried ids and the references of the new ones |
| `AddrCheck.CheckTried` | src/addrman.cpp:439-451 | on any table: it passes with nothing left if and only if every slot holds a tried entry that hashes to it and every tried entry is in its slot |
| `AddrCheck.CheckNew` | src/addrman.cpp:453-464 | on any table: it passes with nothing left if and only if every slot holds an entry that hashes to it and every reference count is the number of slots held |
| `AddrCheck.Check` | src/addrman.cpp:400-474 | on any manager, consistent or not: 0 if and only if all of consistency but the map of addresses holds, times are in range, every entry is found by its full address, and the key is not null, and the other codes name the part that fails; on a consistent one that is when times are in range and no entry but 0 has a port that is not told apart, and with times in range the only other results are -5 and -16, exactly by these conditions |
| `AddrMan.NewcomerOk` | src/addrman.cpp:300-327 | an unknown address whose slot is not open is created and deleted without a trace |
| `PackedFlags.Flags.BitSet` | src/cuckoocache.h:92-95 | exactly one flag becomes true |
| `PackedFlags.Flags.BitUnset` | src/cuckoocache.h:103-106 | exactly one flag becomes false |
| `PackedFlags.Flags.BitIsSet` | src/cuckoocache.h:113-116 | the flag |
| `PackedFlags.Flags.constructor` | src/cuckoocache.h:61-68 | at least the requested number of flags, all true |
| `CuckooSlots.LiveIsKept` | src/cuckoocache.h:264-296 | an element is live exactly if a slot that is not collectable stores it |
| `CuckooSlots.LiveReplace` | src/cuckoocache.h:406-411 | how one slot's change moves the multisets of live elements |
| `CuckooSlots.AgedLive` | src/cuckoocache.h:280-286 | ageing empties the current epoch and makes it the old one |
| `CuckooSlots.CheckedLoad` | src/cuckoocache.h:264-296 | after the epoch check the load bound has room for one more recent element |
| `CuckooSlots.TwoEpochsFit` | src/cuckoocache.h:325 | two full epochs fit in any table of at least four slots, also where 45 times the size wraps in 32 bits |
| `CuckooSlots.EpochSize` | src/cuckoocache.h:325 | 45% of the size rounded down, at least 1, where 45 times the size does not wrap; never more where it does |
| `CuckooSlots.PlacesAreResidues` | src/cuckoocache.h:217-227 | there are eight places, the hashes modulo the size |
| `CuckooSlots.SwapKeeps` | src/cuckoocache.h:406-414 | a step of the eviction chain loses nothing: table and element in hand together stay the same |
| `CuckooSlots.OnlyGoneIsLost` | src/cuckoocache.h:363-365 | whatever was live, and the newcomer, is live afterwards unless it is the one entry that left |
| `CuckooCache.FirstEviction` | src/cuckoocache.h:392-406 | the first eviction goes to the second of the eight places |
| `CuckooCache.NextPlaceFollows` | src/cuckoocache.h:406 | the next place follows the first occurrence of the last one, the eighth being followed by the first |
| `CuckooCache.NextPlaceReturns` | src/cuckoocache.h:406 | the next place is the last one again if and only if it directly repeats among the eight |
| `CuckooCache.JustPutMovesExactly` | src/cuckoocache.h:401 | the next eviction would move the element just put in if and only if its place directly repeats among those of the evicted element |
| `CuckooCache.Cache.constructor` | src/cuckoocache.h:315-329 | 2^depth slots, all blank, collectable and of the old epoch, nothing live; the epoch size computed in 32 bits and a whole epoch to wait |
| `CuckooCache.Cache.EpochCheck` | src/cuckoocache.h:264-296 | slots and counter are those of the specification `Checked`; the table is untouched |
| `CuckooCache.Cache.CountUnused` | src/cuckoocache.h:272-275 | the number of live elements of the current epoch |
| `CuckooCache.Cache.Insert` | src/cuckoocache.h:368-416 | relative to the state after the epoch check the element came in as recent and at most one entry left; none but its own earlier copy if one of its places was free or held it; the slots are exactly those of the specification `Inserted`; load bound and placement are kept |
| `CuckooCache.Cache.Displace` | src/cuckoocache.h:382-415 | the eviction chain of at most depth_limit steps ends with everything placed or exactly one entry dropped, and with the slots of the specification `Evict`: first open place, else the next place |
| `CuckooCache.Cache.Contains` | src/cuckoocache.h:443-453 | every live element is found; apart from the default one, exactly the stored ones; erasing marks the first of its places that stores it and nothing else |
| `CuckooCache.Cache.LoadBound` | src/cuckoocache.h:264-296 | at most epoch_size + max(1, epoch_size/16) live elements in the current epoch and at most twice that in all |
| `RollingBloom.MaskClears` | src/bloom.cpp:357-365 | the wipe mask clears a two-bit cell exactly when it spells the generation |
| `RollingBloom.FastMod` | src/bloom.cpp:345-347 | the floor of x * n / 2^32 |
| `RollingBloom.CellOf` | src/bloom.cpp:371-374 | a hash falls on the pair of words that h * size / 2^32 points into and on the bit h modulo 64 |
| `RollingBloom.WithBitWrites` | src/bloom.cpp:375-376 | exactly one bit of the plane is written |
| `RollingBloom.WipeShifts` | src/bloom.cpp:351-366 | wiping the next generation number forgets the oldest generation and shifts the other two |
| `RollingBloom.RollingFilter.Wipe` | src/bloom.cpp:359-365 | in place: cells of the generation become 0, all others keep their number |
| `RollingBloom.RollingFilter.Stamp` | src/bloom.cpp:369-377 | in place: the key's cells carry the current generation, all others are unchanged |
| `RollingBloom.RollingFilter.Insert` | src/bloom.cpp:349-378 | the key joins the history; every cell still carries the generation of the youngest remembered key that touches it |
| `RollingBloom.RollingFilter.Contains` | src/bloom.cpp:386-398 | true if and only if every cell of the key was set by one of the last 2*nEntriesPerGeneration + nEntriesThisGeneration keys; hence for each of these keys, whatever the hash |
| `RollingBloom.RollingFilter.RemembersLastElements` | src/bloom.h:120-121 | the last nElements keys are always among those remembered |
| `RollingBloom.RollingFilter.Reset` | src/bloom.cpp:406-414 | nothing is remembered, with the new tweak, no insertion counted and generation 1 |
| `ArithUint256.AddAssign` | src/arith_uint256.h:135-145 | sum modulo 2^256 |
| `ArithUint256.Negate` | src/arith_uint256.h:77-84 | two's complement negation modulo 2^256 |
| `ArithUint256.SubAssign` | src/arith_uint256.h:147-151 | difference modulo 2^256, exact when it does not borrow |
| `ArithUint256.Increment` | src/arith_uint256.h:173-180 | plus one modulo 2^256 |
| `ArithUint256.Decrement` | src/arith_uint256.h:190-197 | minus one modulo 2^256 |
| `ArithUint256.Complement` | src/arith_uint256.h:69-75 | 2^256 - 1 minus the value |
| `ArithUint256.MulAssign32` | src/arith_uint256.cpp:56-65 | product with a 32-bit word modulo 2^256 |
| `ArithUint256.ProductFits` | src/arith_uint256.cpp:75 | the 64-bit accumulator of the schoolbook product cannot overflow |
| `ArithUint256.MulRow` | src/arith_uint256.cpp:72-79 | one row adds limb * b * 2^(32j), up to a multiple of 2^256 |
| `ArithUint256.MulAssign` | src/arith_uint256.cpp:68-81 | product modulo 2^256 on distinct operands, 0 when the operand is the target itself |
| `ArithUint256.ShiftLeft` | src/arith_uint256.cpp:22-36 | times 2^shift modulo 2^256, for every shift |
| `ArithUint256.ShiftRight` | src/arith_uint256.cpp:39-53 | floor of the value over 2^shift, for every shift |
| `ArithUint256.CompareTo` | src/arith_uint256.cpp:110-119 | the order of the integers |
| `ArithUint256.Bits` | src/arith_uint256.cpp:172-184 | the position of the highest bit set, 0 for 0 |
| `ArithUint256.DivStep` | src/arith_uint256.cpp:97-104 | one round keeps num + quotient * divisor, leaves num below the aligned divisor and halves it |
| `ArithUint256.DivAssign` | src/arith_uint256.cpp:84-107 | floor quotient and remainder for every dividend and nonzero divisor; throws exactly for divisor 0 |
| `CompactTarget.SetUint64` | src/arith_uint256.h:88-95 | the 64-bit value |
| `CompactTarget.EqualTo` | src/arith_uint256.cpp:122-133 | equality with a 64-bit value |
| `CompactTarget.GetLow64` | src/arith_uint256.h:245-249 | the value modulo 2^64 |
| `CompactTarget.OverflowExact` | src/arith_uint256.cpp:217-220 | the three-way overflow test holds if and only if the value is at least 2^256 |
| `CompactTarget.SetCompact` | src/arith_uint256.cpp:204-222 | overflow and negative exactly as defined by mantissa * 256^(size-3), otherwise the floor of that value |
| `CompactTarget.GetCompact` | src/arith_uint256.cpp:224-245 | the specification's encoding, with the sign bit only on a nonzero mantissa; both asserts hold |
| `CompactTarget.CompactRoundTrip` | src/arith_uint256.cpp:204-245 | decoding an encoding is not negative, at most x, off by less than 256^(size-3) (exact up to size 3), and encodes to the same word |
| `CompactTarget.ProofIdentity` | src/chain.cpp:128-132 | (~t / (t+1)) + 1 is floor(2^256 / (t+1)), although 2^256 is not representable |
| `CompactTarget.NotAllOnes` | src/chain.cpp:128-132 | no decoded target is 2^256 - 1, so the divisor is never 0 |
| `CompactTarget.GetBlockProof` | src/chain.cpp:120-133 | floor(2^256 / (target+1)) for every usable nBits, 0 for the others |
| `BlockTree.InvertLowestOneClears` | src/chain.cpp:70 | `n & (n-1)` clears exactly the lowest set bit |
| `BlockTree.GetSkipHeight` | src/chain.cpp:73-81 | strictly below the height |
| `BlockTree.SkipFromEven` | src/chain.cpp:73-81 | an even height loses its lowest set bit |
| `BlockTree.SkipFromOdd` | src/chain.cpp:73-81 | an odd height goes to one above the height minus one without its two lowest set bits |
| `BlockTree.AncestorOfAncestor` | src/chain.cpp:83-107 | ancestors compose |
| `BlockTree.GetAncestor` | src/chain.cpp:83-107 | through skip pointers, the block that walking pprev reaches; null outside the range |
| `BlockTree.BlockIndex.BuildSkip` | src/chain.cpp:114-118 | the skip pointer is the ancestor at the skip height, and the tree stays well formed |
| `ActiveChain.PathIsAncestors` | src/chain.cpp:11-21 | the path to a block lists its ancestors by height, and the path to an ancestor is a prefix |
| `ActiveChain.Chain.ContainsIsMembership` | src/chain.h:478-480 | one comparison decides membership of the chain |
| `ActiveChain.Chain.Next` | src/chain.h:483-488 | the block of the chain whose predecessor is the argument, or null if there is none |
| `ActiveChain.Chain.SetTip` | src/chain.cpp:11-21 | whatever the chain was, it becomes exactly the ancestor path of the tip, so the early stop is sound; tip and height are those of the argument |
| `ActiveChain.Chain.FindFork` | src/chain.cpp:51-60 | the highest block that is on the chain and an ancestor of the argument |
| `ActiveChain.Chain.GetLocator` | src/chain.cpp:23-49 | the same list whether steps go through the chain or through skip pointers |
| `ActiveChain.LocatorDescends` | src/chain.cpp:23-49 | ancestors at strictly decreasing heights, from the start to genesis |
| `ActiveChain.LocatorLength` | src/chain.cpp:23-49 | at most 11 + m entries below height 2^m |
| `DbTransactions.Transaction.Write` | src/dbwrapper.h:614-628 | the view gains the pair; writes and deletes stay disjoint and the memory count exact |
| `DbTransactions.Transaction.Read` | src/dbwrapper.h:635-652 | the view at the key |
| `DbTransactions.Transaction.Exists` | src/dbwrapper.h:659-669 | whether the key is in the view |
| `DbTransactions.Transaction.Erase` | src/dbwrapper.h:676-685 | the view loses the key |
| `DbTransactions.Transaction.Clear` | src/dbwrapper.h:687-691 | the view is the parent again |
| `DbTransactions.Transaction.Commit` | src/dbwrapper.h:693-701 | the target becomes the overlay; committing to the parent leaves the view as it was |
| `DbTransactions.Transaction.GetMemoryUsage` | src/dbwrapper.h:707-718 | the exact sum over writes and deletes, never negative |
| `DbStacks.CommitLayer` | src/dbwrapper.h:693-701 | a transaction replayed on the transaction below makes that one show what it showed, with disjointness and the memory count kept |
| `DbStacks.TransactionStack.Read` | src/dbwrapper.h:635-652 | through any number of layers, the value in the level's map |
| `DbStacks.TransactionStack.Commit` | src/dbwrapper.h:693-701 | the level below and the emptied level both denote the level's old map; all other levels are as before |
| `DbStacks.TransactionStack.Run` | src/dbwrapper.h:609-701 | any legal run of writes, erasures, nested transactions, commits and rollbacks on any depth equals the run on plain maps |
| `DbIterators.CurrentIsLeast` | src/dbwrapper.h:537-549 | the chosen side's key is the least of all that is still to come |
| `DbIterators.Iterator.SkipDeletedAndOverwritten` | src/dbwrapper.h:527-535 | skipping hidden parent keys loses nothing that is still to come |
| `DbIterators.Iterator.SeekToFirst` | src/dbwrapper.h:427-432 | all keys of the view are to come |
| `DbIterators.Iterator.Seek` | src/dbwrapper.h:439-444 | exactly the view's keys from the sought one on are to come |
| `DbIterators.Iterator.Next` | src/dbwrapper.h:450-463 | exactly the current key is done |
| `DbIterators.Iterator.GetValue` | src/dbwrapper.h:514-525 | the view's value at the current key |
| `DbIterators.Iterator.EnumerateAll` | src/dbwrapper.h:427-463 | all keys of the overlay once each in lexicographic order, with their values |
| `DbIterators.Iterator.EnumerateFrom` | src/dbwrapper.h:439-463 | the same from the sought key on |
| `DbIterators.NewIterator` | src/dbwrapper.h:419-425 | every transaction has an iterator, which starts at the end |
| `KeyOrder.InOrder` | src/dbwrapper.h:600-601 | the ascending enumeration of any set of keys |
| `KeyOrder.LessIsLexicographic` | src/dbwrapper.h:561-569 | a key is before another exactly if, at the first place where they differ, it has ended or has the lower byte |
| `DbCursors.KeyIsLeast` | src/dbwrapper.h:537-549 | at any depth of nested iterators the current key is the least to come |
| `DbCursors.Advance` | src/dbwrapper.h:450-463 | at any depth exactly the current key is done |
| `DbCursors.Skip` | src/dbwrapper.h:527-535 | at any depth skipping hidden keys of the iterator below loses nothing that shows |
| `DbCursors.Start` | src/dbwrapper.h:427-444 | at any depth exactly the keys from the bound on are to come |
| `DbCursors.EnumerateLevel` | src/dbwrapper.h:401-550 | through the nested iterators of any level of the stack: exactly the level's keys from the bound on, once each, in lexicographic order, with their values |
| `KeyOrder.EnumerationUnique` | src/dbwrapper.h:561-569 | a set of keys has one ascending enumeration |
| `Base58.EncodeSizeSuffices` | src/base58.cpp:81 | 138/100 digits per byte always suffice |
| `Base58.DecodeSizeSuffices` | src/base58.cpp:34 | 733/1000 bytes per digit always suffice |
| `Base58.AlphabetIs` | src/base58.cpp:18 | a character is in the alphabet exactly if it is an ASCII letter or figure other than 0, I, O and l |
| `Base58.MulAdd` | src/base58.cpp:43-52 | one pass multiplies the buffer's value and adds, and the carry ends at 0 |
| `Base58.EncodeBase58` | src/base58.cpp:71-109 | the specification's encoding; the assert holds for every length |
| `Base58.DecodeBase58` | src/base58.cpp:21-69 | succeeds exactly on trimmed strings over the alphabet, with the specification's bytes |
| `Base58.DecodeEncode` | src/base58.cpp:21-109 | decoding an encoding returns the bytes |
| `Base58.EncodeDecode` | src/base58.cpp:21-109 | encoding a successful decoding returns the trimmed string |
| `Base58.EncodeBase58Check` | src/base58.cpp:121-128 | the bytes with the first four bytes of their hash, encoded |
| `Base58.DecodeBase58Check` | src/base58.cpp:130-145 | succeeds exactly when the decoded bytes end in the checksum of the rest |
| `Base58.CheckRoundTrip` | src/base58.cpp:121-145 | decoding a checked encoding returns the bytes |
| `Base58.CheckedStringIsEncoding` | src/base58.cpp:121-145 | every accepted string is, trimmed, the checked encoding of what it decodes to |
| `Votes.VoteFile.AddVote` | src/governance-votedb.cpp:22-32 | an unknown vote is added and drops exactly the older votes it supersedes; a known one changes nothing |
| `Votes.VoteFile.HasVoteIsMembership` | src/governance-votedb.cpp:34-37 | the index answers for the list |
| `Votes.VoteFile.RemoveVotesFromMasternode` | src/governance-votedb.cpp:58-70 | exactly the masternode's votes are gone |
| `Votes.VoteFile.RemoveOldVotes` | src/governance-votedb.cpp:94-110 | exactly the superseded votes are gone |
| `Votes.VoteFile.RebuildIndex` | src/governance-votedb.cpp:112-128 | the list keeps the first vote of each hash, none is made up and no hash is lost, and list, index and counter agree |
| `GovernanceRecords.FoldIsHighest` | src/governance-object.cpp:104-227 | the record is the lexicographic maximum of (timestamp, outcome) over the votes and the initial (0, none) |
| `GovernanceRecords.RecordsConverge` | src/governance-object.cpp:104-227 | any order and any repetition of the same votes gives the same time and outcome |
| `GovernanceRecords.ChoiceConvergesIffUniform` | src/governance-object.cpp:104-227 | the multiple-choice text converges if and only if the highest votes agree on it |
| `GovernanceRecords.FileShape` | src/governance-object.cpp:104-227 | the file holds the record's own vote and lower ones of the same time, all of them delivered, and nothing while the record is unset |
| `GovernanceRecords.FileConvergesIffAgreed` | src/governance-votedb.cpp:22-32 | what the file holds of a masternode on a signal converges over all orders and repetitions if and only if its latest votes not below (0, none) agree on the outcome |
| `GovernanceRecords.GovernanceObject.ProcessVote` | src/governance-object.cpp:104-227 | the exact condition of acceptance; otherwise every record and the file stay, and on acceptance the record is the vote, with the clock as its time if rate checks are on, every other record stays, and the file gains the vote and loses exactly what it supersedes |
| `GovernanceRecords.GovernanceObject.ProcessRun` | src/governance-object.cpp:180-195 | over any run of rate-checked votes, two accepted votes of one masternode and signal are at least the minimum interval apart |
| `GovernanceRecords.GovernanceObject.DeliverAll` | src/governance-object.cpp:104-227 | any sequence of deliveries leaves every record and the file's part for every masternode and signal at the specification's folds |
| `GovernanceRecords.GovernanceObject.CountMatchingVotes` | src/governance-object.cpp:619-632 | the number of masternodes whose record has the outcome |
| `GovernanceRecords.TalliesConverge` | src/governance-object.cpp:619-683 | two nodes with the same votes in any order count the same voters |

## Left out

- Coin caches: the best-block hash, and caches that branch from one base; the stack is a sequence of caches, and real memory measurement is a parameter.
- Compact blocks: `extra_count`, logging, and compact-size integers on the wire.
- PartialBlocks.PartiallyDownloadedBlock.InitData: has no result for the messages on which the search for an empty slot does not end; `SearchEnds` says which these are.
- Check queue: shutdown through `fQuit`, which nothing sets, the 32-bit width of `nTodo`, and `CCheckQueueControl`.
- Address manager: service flags, `Select_`, which ends only with probability one, serialization, `Clear` on a non-empty manager, and the width of ids.
- CuckooCache.Cache.constructor: the depth is a parameter, because `setup` gets it from the requested size through single-precision `log2`.
- Cuckoo cache: concurrent readers.
- Rolling Bloom filter: how the false-positive rate sets the number of hash functions and bits; both are parameters, and positive.
- 256-bit numbers: hexadecimal text, conversion to floating point, and bitwise and, or and xor with another number, which add only easy members.
- Chain index: `FindEarliestAtLeast`, `GetBlockProofEquivalentTime`, and the 32-bit width of heights and of the locator step.
- Database transactions: serialization of keys and values, reading a value as another type than it was written, and the batch that collects a root commit before it reaches the disk. A nested iterator is modelled as a value that holds the ones it owns, so updating the inner one in place is replacing it.
- Base58: a NUL inside the text ends a C string; strings here are whole. Address prefixes and keys are not modelled.
- Governance: hash collisions (the hash of a vote is modelled as the tuple it covers), orphan votes, rate-limit bookkeeping outside the object, `RemoveInvalidVotes`, and superblocks.
- `CacheMap`, `CacheMultiMap`, amount compression and SipHash are not modelled.
- Networking, RPC, wallets, scripts, signatures and storage engines are not modelled.
