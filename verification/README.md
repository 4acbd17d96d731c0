# Verified core of the Kaia blockchain package

This project models the state machines at the heart of a Kaia node's `blockchain` package and
proves what they keep, step by step and over whole runs.

* **Transaction pool.** Per-account pending and queued lists, a hash lookup with a slot counter
  and an authority index, a price heap that may hold stale entries, nonce heaps with a lazily
  built cache, and virtual pending nonces. Adding, queueing, promoting, demoting, removing,
  levelling, cutting, evicting and resetting all change several of these at once. Proved: the
  lookup is the disjoint union of all lists with one transaction per sender and nonce; the price
  heap misses no pooled transaction, and its stale counter is never below the entries left over
  in it; what an addition drops, refuses, replaces and files, also in a full pool, exactly when
  it panics, and exactly when the heap makes room; which resets keep pending nonces without a gap
  from the state nonce to the virtual nonce, as a condition on the pool and the batch before the
  reset; nothing enters the pool but by being added; both size limits are enforced by
  water-filling and by exact draining; every account with something queued has a last sign of
  life, so eviction reaches every stale queue.
* **Canonical chain.** Writing headers, rewinding, and reorganising. Proved: the canonical index
  is exactly the ancestor path of the heaviest header; a rewind ends with head header and head
  block equal, with state, nothing above, and not below any intact height; both ancestor walks
  find the first common ancestor and exactly the two branches; where all three heads end after a
  reorganisation.
* **Gas and fees.** Buying gas with shared fees, the refund cap (Specification section of
  EIP-3529), the calldata floor (Specification section of EIP-7623), blob fees ("Execution layer
  validation" section of EIP-4844). Proved: value conservation to the last unit, in all and for
  every account, the exact gas used, the condition of every error, and that checking the cap
  while charging the price overdraws no account, except for a message whose fee caps are both
  zero, which can pass every check and overdraw its sender.
* **Chain indexer.** Sections processed while the lock is dropped, and two loops that cut the
  stored sections back and can overlap, taken one access to memory or database at a time. Proved:
  recorded heads are the spaced points of one chain from genesis and exist exactly below the
  stored count in every interleaving in which no harmful overlap begins; a harmful overlap always
  has a continuation that takes the stored count below zero or ends with heads and count apart;
  and a finish is accepted exactly when no section was dropped meanwhile.
* **Smaller pieces.** Gas estimation by bisection, the memoised block hash lookup, the
  throttler's in-place classification over a shared buffer, and derivation paths ("Extended keys"
  section of BIP-32).

Modules: `BinaryHeap` is Go's `container/heap` as the pool uses it; `Transactions`,
`TxSortedMaps`, `TxLists`, `TxLookups`, `TxPricedLists` are the pool's containers; `PoolLists`,
`PoolLevels`, `PoolSteps` and `PoolBeats` are the pool's steps on values, `PoolAdds` and
`PoolRoom` its additions, `PoolResets` and `PoolGaps` its resets, `PoolHeard` its last signs of
life; `TxPools` is the pool. `Chains`, `HeaderChains`, `Rewinds`, `Reorgs` are the chain.
`StateTransitions`, `ChainIndexers`, `GasEstimates`, `BlockHashes`, `SpamThrottlers` and
`DerivationPaths` are the rest.

`dafny verify dfyconfig.toml` checks the whole project.

## What the model assumes

* A hash identifies its transaction, header or block, and no real hash is the zero hash.
* Block numbers and nonces stay below the largest 64-bit value.
* The validity of a transaction and the selection made by a list's balance filter are given as
  predicates with each operation, validity for each position of a batch; every pool theorem holds
  for all of them. Two of the three
  theorems on gaps after a reset ask that a marked transaction is also one that the balance
  filter drops, which `blockchain/tx_list.go:380-383` makes so.
* Each pool operation reads the clock once; between operations the clock may move in any way.
* Execution spends at most the gas it is given and only moves balance between accounts.
* The fee ratio is at most 100, and it is 100 for a transaction that names none.

## Where code and comments differ

The model follows the code.

* `blockchain/tx_pool.go:1823-1863` says it drops the oldest accounts' queues; the accounts are
  taken from the most recently heard one down.
* `blockchain/tx_list.go:177-183` says Ready also returns all transactions below `start`; the code
  returns only the run of consecutive nonces from the lowest nonce, if that is not above `start`.
* `blockchain/spam_throttler.go:238-255` promises two classes; both are appended to the same
  array, so they come out right exactly when one class is empty.
* `blockchain/tx_pool.go:538`, read with `blockchain/tx_pool.go:1966-1973`, lets a reset that
  reinjects leave a gap below a virtual nonce. For a pool with room for the batch a gap opens at an
  account exactly when its state nonce falls below its pending list, something new is filed for
  it, a run of ready transactions starts at the new state nonce but stops short of the list, and
  revalidation keeps the list's first transaction (`PoolGaps.OpensGap`). For any pool none opens
  if nothing valid is reinjected for an account with pending transactions whose state nonce falls.
  `TxPools.OpenGap` is a pool in which one does.
* `blockchain/tx_pool.go:1160-1190` gives up the sender's highest queued transaction before it counts
  the slots still missing, so the count can be negative, and `blockchain/tx_list.go:662` then panics.
  Adding does so exactly when the pool is full, the nonce is a gap below a queued one, the
  transaction is local or not underpriced, and the one given up takes more slots than were missing.
* `blockchain/tx_list.go:661-684` counts a transaction once for each of its entries in the heap, and a
  transaction that is removed and added again has two. Room is made, or only locals are left, for
  every number of slots asked for exactly when each pooled remote transaction that takes slots
  and has two entries is dearer than every other pooled remote one. `TxPools.Overfill` is a pool
  that adding leaves over its capacity.
* `blockchain/chain_indexer.go:353` calls a loop written for the lock without it. The sweep after a
  failed reset and a reorg's sweep can then overlap; they do harm exactly when the reorg keeps a
  section or a section is still stored. One way is that both test before either counts down, and
  the second takes one from zero in 64 bits.
* `blockchain/state_transition.go:826-828` guards against overflow with a difference that itself wraps
  when type gas and signature gas exceed 64 bits together. The result is right exactly when they do
  not and the tokens fit, or when the wrapped difference is too small for the tokens all the same.
  Real signature gas is far smaller than that.
* `blockchain/blockchain.go:2472-2566` leaves canonical entries above a lower new head.
* `blockchain/state_transition.go:406-408` skips the base fee check for a message without fee
  caps, which can then be charged more than was checked.

## Model

| member | source | states |
|---|---|---|
| `Transactions.NonceSortedUnique` | blockchain/tx_list.go:255-276 | a list has only one nonce-sorted listing, so a cached listing and a fresh sort agree |
| `TxSortedMaps.TxSortedMap.Put` | blockchain/tx_list.go:79-85 | inserting by nonce keeps the index a heap of each key once and drops the cache |
| `TxSortedMaps.TxSortedMap.Forward` | blockchain/tx_list.go:90-104 | everything below the threshold leaves, in nonce order, and the shifted cache is still the sorted contents |
| `TxSortedMaps.TxSortedMap.Filter` | blockchain/tx_list.go:108-129 | exactly the selected transactions leave, each once, and the index is rebuilt |
| `TxSortedMaps.TxSortedMap.Cap` | blockchain/tx_list.go:133-154 | exactly the highest nonces over the limit leave, highest first, and a trimmed cache is still right; a negative limit panics, and only that, once every transaction is gone |
| `TxSortedMaps.TxSortedMap.Remove` | blockchain/tx_list.go:158-175 | one nonce leaves map and heap, reported exactly when it was there |
| `TxSortedMaps.TxSortedMap.Ready` | blockchain/tx_list.go:184-199 | the longest run of consecutive nonces from the lowest leaves, if the lowest is not above the start |
| `TxSortedMaps.TxSortedMap.ReadyWithGasPrice` | blockchain/tx_list.go:209-245 | the same run, ended before the first transaction below the base fee, and the cache is shifted by its length |
| `TxSortedMaps.TxSortedMap.Flatten` | blockchain/tx_list.go:255-257 | all transactions sorted by nonce, whether cached or not |
| `TxSortedMaps.TxSortedMap.FlattenByCount` | blockchain/tx_list.go:259-276 | the lowest nonces up to a count, zero meaning all; a negative count panics, and only that |
| `TxSortedMaps.TxSortedMap.CachedTxsFlattenByCount` | blockchain/tx_list.go:281-298 | the lowest nonces up to a count, nothing for a count that is not positive |
| `TxLists.TxList.Add` | blockchain/tx_list.go:335-358 | a transaction is inserted unless the one at its nonce is at least as well priced, or before Magma is there at all, except by a cancelling one |
| `TxLists.TxList.Filter` | blockchain/tx_list.go:376-433 | the selected leave; a strict list also gives up everything above the lowest of them, and says so |
| `TxLists.TxList.Remove` | blockchain/tx_list.go:469-480 | one nonce leaves, and in a strict list everything above it |
| `TxLists.StrictPartition` | blockchain/tx_list.go:376-458 | what a strict list drops, invalidates and keeps partitions it, and it keeps its lowest nonces |
| `TxLists.ReadyMatchesList` | blockchain/tx_list.go:184-245 | the range of nonces the pool promotes is the run the heap-indexed list returns |
| `TxLookups.TxLookup.Add` | blockchain/tx_pool.go:2197-2206 | slot counter and authority index stay exact: a hash is listed under an address once, exactly when pooled and naming it; a hash already known is counted twice and changes nothing else |
| `TxLookups.TxLookup.Remove` | blockchain/tx_pool.go:2209-2224 | removal keeps both exact, even for a transaction naming an address twice |
| `TxLookups.AddAuthorities` | blockchain/tx_pool.go:2228-2240 | the hash is appended once under each named address and lists stay free of repeats |
| `TxLookups.RemoveAuthorities` | blockchain/tx_pool.go:2244-2261 | the hash leaves every list, other hashes stay, and no empty list remains |
| `TxLookups.TxLookup.HasAuthMeaning` | blockchain/tx_pool.go:2265-2270 | an address has an authorization exactly when a pooled transaction names it |
| `TxPricedLists.TxPricedList.Put` | blockchain/tx_list.go:578-580 | the heap gains exactly one entry of the transaction and keeps every other as often as it was there |
| `TxPricedLists.TxPricedList.Removed` | blockchain/tx_list.go:585-600 | whether or not it rebuilds, no pooled transaction loses its entry, and the counter still covers the entries left over; it rebuilds exactly when over a quarter of the entries is counted stale |
| `TxPricedLists.TxPricedList.Underpriced` | blockchain/tx_list.go:635-657 | with every pooled transaction covered, the answer is the brute-force comparison with the cheapest pooled one; each stale entry dropped is taken off the counter |
| `TxPricedLists.TxPricedList.Discard` | blockchain/tx_list.go:661-684 | a negative count panics, and only that; what is dropped is pooled, remote, enough or all there is, never more than needed, nothing remote left is cheaper, and dropped, kept and uncounted stale entries add up |
| `TxPricedLists.TxPricedList.Cap` | blockchain/tx_list.go:604-631 | exactly the pooled remote transactions below the threshold leave |
| `TxPricedLists.TxPricedList.NeverNegative` | blockchain/tx_list.go:585-600 | under the pool's invariant the counter is at least the number of entries left over, so it is never negative |
| `PoolLists.LookupIsUnion` | blockchain/tx_pool.go:1127-1261 | a hash is known exactly when its transaction is in one of the two list families, never both, and a sender and nonce name one transaction |
| `PoolSteps.RemovalSplits` | blockchain/tx_pool.go:1644-1679 | the transaction found by nonce is the one to remove, and removing it keeps lookup and lists consistent |
| `PoolSteps.GaplessBelow` | blockchain/tx_pool.go:1657-1668 | cutting a list at a nonce and lowering the virtual nonce to it leaves no gap |
| `PoolSteps.ReadyStartsAtVirtual` | blockchain/tx_pool.go:1721-1727 | without gaps, a ready run starts exactly at the virtual nonce |
| `PoolSteps.GaplessExtends` | blockchain/tx_pool.go:1284-1317 | promoting a run from the virtual nonce and moving past it leaves no gap |
| `PoolSteps.ExecutableRooted` | blockchain/tx_pool.go:1877-1938 | what revalidation keeps of a list without gaps runs without a gap from the state nonce |
| `PoolSteps.RootedExactly` | blockchain/tx_pool.go:1877-1938 | for any list, what revalidation keeps is gap-free exactly when no nonce was missing below a kept one |
| `PoolSteps.ExecutableExactly` | blockchain/tx_pool.go:1877-1938 | for any list, a transaction stays pending exactly when the state nonce is listed and nothing from there up to its own nonce is dropped or below the base fee |
| `PoolSteps.DemotedRevalidates` | blockchain/tx_pool.go:1869-1944 | revalidating all accounts roots every list that had no gap |
| `PoolSteps.AdoptedGapless` | blockchain/tx_pool.go:546-555 | adopted virtual nonces leave no gap exactly when every list is rooted at its state nonce and no empty one has a higher virtual nonce |
| `PoolSteps.PromotionAddsNothing` | blockchain/tx_pool.go:1684-1864 | promotion and the limits list nothing that was not listed |
| `PoolSteps.DemotedWithin` | blockchain/tx_pool.go:1869-1944 | demotion lists nothing that was not listed |
| `PoolSteps.PendingFits` | blockchain/tx_pool.go:1684-1864 | the pending lists hold no more than the lookup |
| `PoolSteps.CountsAll` | blockchain/tx_pool.go:1869-1944 | all accounts are validated in full, or those that are hold the limit of live transactions and without the last of them did not; below the limit all are |
| `PoolAdds.CrashesExactly` | blockchain/tx_pool.go:1156-1191 | adding panics exactly when the pool is full, the nonce is a gap below a queued one, the transaction is local or not underpriced, and the one given up takes more slots than are missing |
| `PoolAdds.CrashExample` | blockchain/tx_pool.go:1160-1190 | such a pool: four slots, one queued transaction taking them all, and a small one two nonces below it, which asks for -3 slots |
| `PoolAdds.FreedSlots` | blockchain/tx_pool.go:1184-1190 | removing transactions frees exactly their slots, if none that takes slots is listed twice |
| `PoolAdds.RoomIsMade` | blockchain/tx_pool.go:1184-1190 | what is dropped makes room for the new transaction, or leaves only locals, when nothing that takes slots is dropped twice |
| `PoolAdds.DroppedOnce` | blockchain/tx_list.go:661-684 | nothing is dropped twice when no pooled remote transaction has two entries in the heap |
| `PoolRoom.RoomExactly` | blockchain/tx_list.go:661-684 | for every number of slots the heap makes room or leaves only locals, exactly when every pooled remote transaction with two entries that takes slots is dearer than every other pooled remote one |
| `PoolRoom.DearestMakesRoom` | blockchain/tx_list.go:661-684 | under that condition every drop makes room or leaves only locals |
| `PoolRoom.TooLittle` | blockchain/tx_list.go:661-684 | against it, some number of slots and some legal drop free less than was asked and leave a remote one |
| `PoolRoom.DoubleEntryFreesTooLittle` | blockchain/tx_list.go:661-684 | with two entries of the cheapest transaction, asking for two slots drops it twice, frees one slot and leaves a remote one |
| `PoolRoom.AddsTooMuch` | blockchain/tx_pool.go:1156-1231 | in a pool with such a heap, adding a transaction of three slots leaves eight taken of seven |
| `PoolAdds.AddsNothingElse` | blockchain/tx_pool.go:1127-1231 | only an accepted transaction enters, and an accepted one was valid and unknown |
| `PoolAdds.TraceAddsNothingElse` | blockchain/tx_pool.go:1554-1578 | over a batch only its accepted transactions enter, and they were valid |
| `PoolResets.BatchShrinks` | blockchain/tx_pool.go:1554-1578 | while a batch is filed, pending lists only lose nonces from the top |
| `PoolResets.RunFromState` | blockchain/tx_pool.go:1700-1734 | from a virtual nonce at the state nonce promotion takes exactly the run of ready nonces from there |
| `PoolResets.SettledRoots` | blockchain/tx_pool.go:1877-1938 | revalidation roots a settled list, and empties it only if its virtual nonce is the state nonce |
| `PoolResets.NoGapOpens` | blockchain/tx_pool.go:518-558 | no gap opens if nothing valid is reinjected for an account with pending transactions whose state nonce falls, however full the pool is |
| `PoolGaps.RoomyBatch` | blockchain/tx_pool.go:1554-1578 | with room the batch is filed as a fold over it says, every pending list keeps its nonces, and nothing panics |
| `PoolGaps.Opens` | blockchain/tx_pool.go:1869-1944 | where a gap opens, a nonce between the run and the list is neither pending nor ready, and the list's head stays |
| `PoolGaps.StaysClosed` | blockchain/tx_pool.go:1869-1944 | where none opens, revalidation roots the list |
| `PoolGaps.HoleStays` | blockchain/tx_pool.go:1700-1734 | the last promotion of a reset does not fill the gap |
| `PoolGaps.Foreseen` | blockchain/tx_pool.go:518-558 | with room, gaps after a reset are said by the pool and the batch before it: exactly below the validation limit, and from both sides above it |
| `PoolGaps.ReinjectionLeavesGap` | blockchain/tx_pool.go:518-558 | with nonce 5 pending at state nonce 5, a reset to state nonce 3 that reinjects 3 and an invalid 4 opens a gap |
| `PoolHeard.BatchHeard` | blockchain/tx_pool.go:1554-1578 | adding a batch, also in a full pool, leaves every account with something queued heard from |
| `PoolHeard.PromotionHeard` | blockchain/tx_pool.go:1684-1864 | so do promotion and the limits |
| `PoolHeard.ResetHeard` | blockchain/tx_pool.go:518-558 | and a whole reset |
| `PoolHeard.EvictionReaches` | blockchain/tx_pool.go:394-414 | eviction then reaches every stale queue: exactly the kept locals and the accounts heard from within the lifetime keep theirs |
| `PoolLevels.HigherLevelKeepsMore` | blockchain/tx_pool.go:1755-1822 | filling to a higher level keeps at least as much of every list |
| `PoolLevels.TightIsHighest` | blockchain/tx_pool.go:1755-1822 | the level reached is the highest whose total fits the limit |
| `PoolLevels.LevelingTakes` | blockchain/tx_pool.go:1772-1800 | taking the longest remaining account keeps all taken ones at one common level |
| `PoolLevels.LevelingStops` | blockchain/tx_pool.go:1783-1822 | stopping early leaves a fill that one more per cut account would overflow |
| `TxPools.TxPool.GetPendingNonce` | blockchain/tx_pool.go:1966-1973 | a missing or stale entry reads as the state nonce, and reading changes no account's virtual nonce |
| `TxPools.TxPool.UpdatePendingNonce` | blockchain/tx_pool.go:1981-1985 | only this virtual nonce is lowered, to the dropped nonce but not below the state nonce |
| `TxPools.TxPool.EnqueueTx` | blockchain/tx_pool.go:1236-1261 | queued over nothing or a worse transaction, which leaves the lookup; a known transaction is only filed; coverage is kept; the sender is heard from, an earlier sign of life stays, and no other changes |
| `TxPools.TxPool.RequeueAll` | blockchain/tx_pool.go:1906-1919 | demoted transactions all reach the queue, none is lost, lookup and heap do not change, and the account is heard from exactly if there were any and it was not before |
| `TxPools.TxPool.PromoteTx` | blockchain/tx_pool.go:1284-1317 | filed over nothing or a worse pending one with the virtual nonce moved past it and the sender heard from now, otherwise dropped from the pool |
| `TxPools.TxPool.PromoteAll` | blockchain/tx_pool.go:1728-1734 | every transaction of a ready run is accepted, and the virtual nonce ends past it |
| `TxPools.TxPool.RemoveTx` | blockchain/tx_pool.go:1644-1679 | the lookup loses exactly this hash; a pending one sends everything above it back to the queue, which counts as a sign of life, and lowers the virtual nonce to its own, not below the state nonce; no gap opens |
| `TxPools.TxPool.PromoteAccount` | blockchain/tx_pool.go:1700-1750 | old and unpayable ones go, exactly the ready run is promoted, the lowest of the rest stay up to the limit, no gap opens; the account is heard from now exactly if its pending list grew |
| `TxPools.TxPool.PromoteAccounts` | blockchain/tx_pool.go:1699-1750 | in any order, each account comes out as if worked alone and all others are untouched; those whose pending lists grew, and no others, are heard from now |
| `TxPools.TxPool.EqualizePending` | blockchain/tx_pool.go:1755-1822 | over the limit, lists are water-filled to the highest level that fits or to the account allowance; locals and short lists lose nothing; virtual nonces fall to the cuts; no gap opens |
| `TxPools.TxPool.LowerTo` | blockchain/tx_pool.go:1783-1800 | the accounts taken are lowered together until the limit is met, undershooting by less than their number, or the threshold is reached |
| `TxPools.TxPool.TrimQueue` | blockchain/tx_pool.go:1823-1863 | the queue drops by exactly the overflow, latest heard first and highest nonces first, or every non-local queue is empty |
| `TxPools.TxPool.PromoteExecutables` | blockchain/tx_pool.go:1684-1864 | promotion of the named accounts, then both limits, with no gap opened and nothing entering; virtual nonces move with the runs and the cuts |
| `TxPools.TxPool.DemoteAccount` | blockchain/tx_pool.go:1876-1942 | what stays is the executable part; what is too old or dropped goes; everything else is back in the queue and a sign of life |
| `TxPools.TxPool.DemoteUnexecutables` | blockchain/tx_pool.go:1869-1944 | every account is revalidated so, fully or for marked ones only; the fully validated ones are all, or hold the limit of 1000 live transactions and did not without the last of them; no other account changes, nor any last sign of life but of those with something back in the queue |
| `TxPools.TxPool.AdoptPendingNonces` | blockchain/tx_pool.go:546-555 | each virtual nonce is one past the last pending nonce, and accounts without pending transactions keep theirs |
| `TxPools.TxPool.DropCheapest` | blockchain/tx_pool.go:1184-1190 | a negative count panics, and only that; otherwise the pool is what removing the dropped ones in turn leaves; they are remote, enough or all, none cheaper is left, coverage and gap-freeness are kept |
| `TxPools.TxPool.DropFor` | blockchain/tx_pool.go:1184-1190 | asks for exactly the slots still missing, which panics exactly when that is negative |
| `TxPools.TxPool.MakeRoom` | blockchain/tx_pool.go:1156-1191 | the sender's highest queued transaction is given up exactly when the new nonce is a gap below it; after that an underpriced remote one is refused, a negative count panics, or the cheapest are dropped; room is then made or only locals are left, if every pooled remote transaction that took slots and had two heap entries was dearer than every other one |
| `TxPools.TxPool.AddFull` | blockchain/tx_pool.go:1156-1231 | the outcome in a full pool, and for a local transaction and few stale entries the drop in terms of the heap before |
| `TxPools.TxPool.Insert` | blockchain/tx_pool.go:1192-1231 | entry exactly when nothing better holds the nonce, over the pending one or in the queue, and the lookup swaps exactly that one |
| `TxPools.TxPool.Add` | blockchain/tx_pool.go:1127-1231 | the outcome in lookup, pending, queue and locals for every case, full pool included, and the panic exactly under its condition before the call |
| `TxPools.TxPool.AddTx` | blockchain/tx_pool.go:1523-1540 | the same outcome, then promotion of the sender and the limits exactly if something new came in; consistency and gap-freeness are kept |
| `TxPools.TxPool.AddEach` | blockchain/tx_pool.go:1554-1568 | a batch is added one by one, each with its exact outcome, up to its end or the first panic |
| `TxPools.TxPool.AddTxs` | blockchain/tx_pool.go:1554-1578 | then the senders of what is new are promoted and the limits enforced; accepted transactions were valid and are all that can enter |
| `TxPools.TxPool.Remove` | blockchain/tx_pool.go:1644-1679 | removal from outside leaves the pool without this transaction, consistent and gap-free if it was, queued accounts heard from if they were, and at most a quarter of the price heap left over |
| `TxPools.TxPool.Revalidate` | blockchain/tx_pool.go:540-555 | demotion and adoption leave no gap exactly when every list ends up rooted, as they do from cleared virtual nonces if no list had a gap; full validation goes as far as the limit |
| `TxPools.TxPool.Reinject` | blockchain/tx_pool.go:526-538 | the new state is adopted, virtual nonces are cleared, and the batch is added as above |
| `TxPools.TxPool.Reset` | blockchain/tx_pool.go:518-570 | reinjection, revalidation, full as far as its limit, adoption, promotion and limits under the old rules, each exactly, with the last signs of life; nothing but old and accepted reinjected ones remain; no gap opens without reinjection, nor with a harmless one; with room none of it panics and gaps are foreseen from the pool and the batch before; a panic leaves the pool as the batch had it; queued accounts stay heard from |
| `TxPools.TxPool.Evict` | blockchain/tx_pool.go:394-414 | exactly the accounts not heard from in time lose their queues; pending lists do not change; if every queued account was heard from, exactly kept locals and recent accounts keep their queues, and every queue left is heard from |
| `TxPools.TxPool.Clear` | blockchain/tx_pool.go:2278-2287 | an empty consistent pool |
| `TxPools.TxPool.SetGasPrice` | blockchain/tx_pool.go:630-651 | since Magma and for the same price nothing changes; otherwise the pool, its locals and last signs of life are emptied |
| `TxPools.TxPool.Run` | blockchain/tx_pool.go:518-558 | every run goes through states each of which follows from the one before by its operation, up to the end or a panic, and keeps lists, lookup and price heap consistent; pending lists stay gap-free if no reset reinjects, and, without a panic, if resets reinject nothing valid for accounts whose state nonce they lower; every account with something queued stays heard from, locals excepted only if eviction keeps them |
| `TxPools.DoubleEntry` | blockchain/tx_list.go:578-600 | seven additions, a removal and an addition of the same transaction leave two entries of it in the heap |
| `TxPools.Overfill` | blockchain/tx_pool.go:1156-1231 | one more addition leaves the pool over its capacity with a remote transaction in it |
| `TxPools.OpenGap` | blockchain/tx_pool.go:518-558 | an empty pool, one addition and one reset, after which the pool has a gap |
| `Chains.ChainIsAncestry` | blockchain/headerchain.go:148-174 | an index that is a linked path is the ancestor path of its head, and the path ends at genesis |
| `HeaderChains.HeaderChain.WriteHeader` | blockchain/headerchain.go:121-181 | fails exactly for an unknown parent; the index stays the path of the head, which stays the heaviest; a tie is decided by the coin |
| `HeaderChains.HeaderChain.WriteHeaders` | blockchain/headerchain.go:121-181 | over every run of writes the index is the head's path, the head is heaviest, and its total never decreases |
| `HeaderChains.HeaderChain.MakeCanonical` | blockchain/headerchain.go:148-174 | re-routing gives exactly the path of the new head |
| `HeaderChains.HeaderChain.DeleteAbove` | blockchain/headerchain.go:149-155 | exactly the entries above the new head go |
| `HeaderChains.HeaderChain.RewriteBelow` | blockchain/headerchain.go:157-168 | entries below are the new head's ancestors, and the walk ends where the paths meet |
| `Rewinds.BlockChain.FindHeadBlock` | blockchain/blockchain.go:560-595 | the nearest ancestor with state, and with a root asked for the nearest one at or below the block that has it, or genesis exactly where the bodies end first; never below a state that is reachable by its bodies |
| `Rewinds.BlockChain.UpdateHead` | blockchain/blockchain.go:553-627 | the head block ends at the nearest ancestor of the header that passes, the fast block at the header, genesis standing in for what is missing; never below a reachable state |
| `Rewinds.BlockChain.StepDown` | blockchain/headerchain.go:363-406 | the head header falls strictly, and an intact chain stays the intact chain of the parent |
| `Rewinds.BlockChain.RewindTo` | blockchain/headerchain.go:361-411 | a head not above the target changes nothing; after an actual rewind head header and head block are equal, at most the target, with state, and the index is its path; nothing at or below the new head is deleted; the head stays at or above every height down to which the chain is intact, so an intact target is hit exactly |
| `Rewinds.BlockChain.SetHead` | blockchain/blockchain.go:522-534 | a pruned target is refused untouched; otherwise no canonical entry is left above the head block, nothing at or below it is deleted, the head stays at or above every intact height, and an intact target is hit exactly |
| `Rewinds.ChainStepsDown` | blockchain/headerchain.go:363-406 | deleting the head of an intact chain leaves its parent's intact chain |
| `Reorgs.ChainState.FindFork` | blockchain/blockchain.go:2499-2539 | finds the first common ancestor and exactly the two branches, failing exactly when there is none |
| `Reorgs.ChainState.CollectBranches` | blockchain/tx_pool.go:487-512 | the pool's walk collects exactly the transactions of the two branches |
| `Reorgs.ChainState.ReinjectFor` | blockchain/tx_pool.go:452-516 | reinjected are exactly the old branch's transactions absent from the new one, in order and each as often as it was, with every early exit |
| `Reorgs.ForkIsUnique` | blockchain/blockchain.go:2521-2539 | two heads fork in one place only |
| `Reorgs.StepHigher` | blockchain/blockchain.go:2499-2513 | lowering the higher side passes no common ancestor, and a missing parent means there is none |
| `Reorgs.StepBoth` | blockchain/blockchain.go:2521-2539 | lowering both sides from different blocks at one height passes no common ancestor |
| `Reorgs.TxDifference` | blockchain/types/transaction.go:990-1006 | exactly the transactions of the first list that are not in the second |
| `Reorgs.DifferenceInOrder` | blockchain/types/transaction.go:990-1006 | they are a subsequence of the first list, each as often as there |
| `Reorgs.ChainState.InsertBlock` | blockchain/blockchain.go:951-968 | the block becomes canonical and head, and the other heads follow exactly when it was not canonical |
| `Reorgs.ChainState.Reorg` | blockchain/blockchain.go:2472-2566 | unrelated branches change nothing; otherwise the new branch is canonical, the head is its top, the other heads its highest block that was not canonical, its transactions point into it, and only old-branch-only ones lose their entry |
| `Reorgs.HeadsFollow` | blockchain/blockchain.go:2553-2560 | on an intact chain with a new branch that is not empty, head header and fast block end at the new head |
| `Reorgs.ReorgedIndex` | blockchain/blockchain.go:2553-2560 | the index is the new head's path exactly when the new head is not lower than the old one |
| `StateTransitions.SharesGrow` | blockchain/types/tx_internal_data.go:721-728 | both shares are never negative and grow with the fee |
| `StateTransitions.NetShare` | blockchain/types/tx_internal_data.go:721-728 | charging a share and returning a share costs the share rounded down, or one more exactly when the remainders reach 100 |
| `StateTransitions.StateTransition.CheckBalance` | blockchain/state_transition.go:237-291 | passes exactly when the amount fits, the balance covers it, and covers the value where asked; each error has its condition |
| `StateTransitions.StateTransition.BuyGas` | blockchain/state_transition.go:293-375 | passes exactly when affordable, against caps since Osaka and against the charge before, and then takes exactly the charge in its shares; each error names whose balance fails and how |
| `StateTransitions.StateTransition.CheckMessage` | blockchain/state_transition.go:377-471 | passes exactly when nonce, fee caps, blobs and authorizations are in order; each error comes exactly with the first fault in that order |
| `StateTransitions.StateTransition.PreCheck` | blockchain/state_transition.go:377-472 | passes exactly when well-formed and affordable, otherwise nothing changes and the error is the first fault or the balance that fails |
| `StateTransitions.StateTransition.CalcRefund` | blockchain/state_transition.go:768-781 | the refund is the largest amount within the quotient of the gas used and within the counter, and never lifts the gas above what was bought |
| `StateTransitions.StateTransition.ReturnGas` | blockchain/state_transition.go:784-799 | the unused gas is paid back in the same shares |
| `StateTransitions.StateTransition.ChargeIntrinsic` | blockchain/state_transition.go:520-579 | passes exactly when intrinsic gas, floor, value and init code size allow, giving the floor; each error has its condition |
| `StateTransitions.StateTransition.Settle` | blockchain/state_transition.go:606-629 | refund, floor, return and reward without 64-bit wrap-around, giving the gas used; every account gains exactly what is returned to it and, unless the fee is deferred, the reward if it is the rewardbase since Magma or the coinbase before |
| `StateTransitions.StateTransition.TransitionDb` | blockchain/state_transition.go:488-636 | succeeds exactly under the stated checks, each error with its condition; the gas used is the least billable amount; every account changes by exactly its transfers, its share of the fees and its reward; the total balance falls by exactly the blob fee and the burnt or deferred fee |
| `StateTransitions.Conserved` | blockchain/state_transition.go:293-375 | value conservation over buying, executing, returning and rewarding |
| `StateTransitions.NetCharge` | blockchain/state_transition.go:784-799 | also with blobs, a sharing fee payer pays its rounded-down percentage or one more, exactly when, and the sender the rest |
| `StateTransitions.AccountsSettled` | blockchain/state_transition.go:488-636 | over buying, executing, returning and rewarding, each account changes by its transfers, fee share, return and reward |
| `StateTransitions.UsedExactly` | blockchain/state_transition.go:606-629 | the gas used is the least amount not below the floor whose distance to the gas spent is within the refund counter and the quotient of the gas spent |
| `StateTransitions.ChargeWithinCap` | blockchain/state_transition.go:322-370 | a charge within the cap overdraws nobody, for any ratio and payer |
| `StateTransitions.PassedCheckIsSolvent` | blockchain/state_transition.go:537-540 | under Osaka a passed check makes the later transfer check succeed, unless both fee caps are zero |
| `StateTransitions.CapCheckEnoughExactly` | blockchain/state_transition.go:322-340 | for a lone payer the cap check suffices for every balance exactly when the cap covers the charge |
| `StateTransitions.SharedCapCheckEnoughExactly` | blockchain/state_transition.go:341-370 | for two payers exactly when it covers both shares |
| `StateTransitions.ZeroCapsOverdraw` | blockchain/state_transition.go:404-429 | a message without fee caps can pass every check and overdraw its sender |
| `StateTransitions.FloorDataGas` | blockchain/state_transition.go:813-831 | an unknown type fails; otherwise the result is the exact floor, or an overflow where that does not fit, exactly when the sum of type and signature gas and the tokens fit 64 bits or the wrapped check fails all the same |
| `StateTransitions.FloorWraps` | blockchain/state_transition.go:826-831 | a type gas of 21000 and 2^64-21000 of signature gas give a floor of 0 instead of an overflow |
| `ChainIndexers.HeadsOfOneChain` | blockchain/chain_indexer.go:347-376 | sections that continue each other join to one parent-linked chain from genesis, with the heads at its spaced points |
| `ChainIndexers.ChainIndexer.SetValidSections` | blockchain/chain_indexer.go:411-423 | the count is set and exactly the heads from it up to the old count go |
| `ChainIndexers.SweepAlone` | blockchain/chain_indexer.go:411-423 | taken one access at a time and alone, the loop sets the count and removes exactly the heads from it up |
| `ChainIndexers.SweptStep` | blockchain/chain_indexer.go:411-423 | every access of either loop keeps the two on course while their overlap is harmless |
| `ChainIndexers.OverlapBreaks` | blockchain/chain_indexer.go:347-423 | from a harmful overlap some order of the remaining accesses takes the stored count below zero or ends with heads and count apart |
| `ChainIndexers.OverlapExample` | blockchain/chain_indexer.go:347-423 | such an order: two sections stored, a reorg that keeps one, a clear around it, and a stored count of one without a head |
| `ChainIndexers.UnderflowExample` | blockchain/chain_indexer.go:411-423 | another: one section stored and two loops to no section; both test first, and the stored count becomes 2^64-1 with head 0 recorded |
| `ChainIndexers.ChainIndexer.NewHead` | blockchain/chain_indexer.go:227-266 | a reorg cuts the known sections to its point and begins to cut the stored ones; a new head raises the known count to exactly the sections it confirms, and never lowers it; says exactly whether that begins a harmful overlap |
| `ChainIndexers.ChainIndexer.StepCut` | blockchain/chain_indexer.go:240 | one access of the reorg's loop, keeping the index valid; its end lowers the cascaded head to the section cut to |
| `ChainIndexers.ChainIndexer.BeginSection` | blockchain/chain_indexer.go:285-303 | the next section is taken up with the head below it |
| `ChainIndexers.ChainIndexer.CrunchSection` | blockchain/chain_indexer.go:357-375 | succeeds exactly when every header read exists and continues the one before and the commit succeeds, with the last hash; the headers form a chain on the old head; otherwise the error is that of the first header that stops it, or the commit's |
| `ChainIndexers.ChainIndexer.ProcessSection` | blockchain/chain_indexer.go:347-376 | processed exactly when every header reads and the commit succeeds; a backend that cannot reset begins the clear, and says exactly whether that begins a harmful overlap |
| `ChainIndexers.ChainIndexer.StepClear` | blockchain/chain_indexer.go:353 | one access of the clear after a failed reset, keeping the index valid |
| `ChainIndexers.ChainIndexer.StillCurrent` | blockchain/chain_indexer.go:310 | the remembered head reads the same exactly when no section was dropped, also for section 0 |
| `ChainIndexers.ChainIndexer.FinishSection` | blockchain/chain_indexer.go:307-327 | accepted exactly when no cut is under way, processing succeeded and the stored count is still the section; then one more section is stored and the cascaded head is its last block |
| `ChainIndexers.ChainIndexer.Run` | blockchain/chain_indexer.go:270-341 | the states of any interleaving follow its events one by one; if no harmful overlap began, and with no loop under way, heads exist exactly below the stored count and are spaced points of one chain from genesis; a run stops only where an overlap can break that |
| `GasEstimates.HighestGas` | blockchain/evm.go:165-204 | the largest gas within limit, remote cap and balance, failing exactly when the limit is too high or the value not covered |
| `GasEstimates.DoEstimateGas` | blockchain/evm.go:157-238 | an estimate passes, is within all caps, and failed one below unless at most the transaction gas; for a monotone test it is least, and exists exactly when some allowed gas passes; each error has its condition |
| `BlockHashes.WalkFrom` | blockchain/evm.go:125-140 | a walk past an ancestor goes on from that ancestor |
| `BlockHashes.HashLookup.Get` | blockchain/evm.go:116-142 | the memoised answer is that of the plain walk, and the cache only grows |
| `BlockHashes.HashLookup.GetAll` | blockchain/evm.go:111-143 | so for every sequence of lookups |
| `BlockHashes.HashLookup.AnswersAtOrAbove` | blockchain/evm.go:121-123 | at or above the reference the answer is no hash; a wrapped index meets a cached entry only for the largest number once the cache reaches block 0 |
| `SpamThrottlers.Throttler.ClassifyTxs` | blockchain/spam_throttler.go:240-255 | lengths are the class sizes, element k is the later of the two k-th ones, and the slices are the classes exactly when one is empty |
| `SpamThrottlers.MergeNext` | blockchain/spam_throttler.go:245-251 | appending to either slice overwrites nothing still to be read |
| `SpamThrottlers.IntendedExactly` | blockchain/spam_throttler.go:240-255 | the shared buffer holds both classes exactly when one is empty |
| `DerivationPaths.ParseDerivationPath` | accounts/hd.go:72-122 | the loop computes the meaning of the path string, with the first error |
| `DerivationPaths.ToString` | accounts/hd.go:126-140 | the loop builds the printed form |
| `DerivationPaths.ComponentRoundTrip` | accounts/hd.go:94-117 | every component, hardened or not, reads back as itself |
| `DerivationPaths.NumeralReadsBack` | accounts/hd.go:94-117 | a number written in base 16, 8 or 2, with any prefix of that base, either letter case and either sign, reads back as itself |
| `DerivationPaths.UnderscoreIgnored` | accounts/hd.go:94-117 | an underscore between digits changes nothing |
| `DerivationPaths.UnderscoresRefused` | accounts/hd.go:94-117 | two in a row are no number |
| `DerivationPaths.RoundTrip` | accounts/hd.go:72-140 | printing and parsing give a path back exactly when it is not empty |
| `DerivationPaths.RelativeIsBelowRoot` | accounts/hd.go:87-88 | a relative path means the same as below the printed default root |

## Left out

- The pool holds its account lists as values; updating a list object in place and sharing it is shown for the list classes alone.
- Validation of transactions (nonce, balance, intrinsic gas, signatures) and the balance filter's own computation are predicate parameters.
- External pool modules, the journal, blob sidecar storage, feeds, metrics, logging and mutexes; each operation is one step.
- The price heap's stale counter is proved to be at least the number of entries left over; that it is exactly that number is not claimed, because a heap that drops one transaction twice leaves it too high.
- After a panic in an addition the pool is left as it is at that point; what a caller that recovers does is not modelled.
- PoolGaps.Foreseen: exact for a pool with room for the batch, because a full pool drops by heap order among equal prices, which the pool's contents do not determine; PoolResets.NoGapOpens covers every pool.
- Rewinds.BlockChain.FindHeadBlock: a missing block below a requested root is an error here, where the source would dereference nil.
- Loading the last state after a rewind, snapshot and governance deletion, ancient data, and the repair mode of the rewind.
- Receipts, logs and events of a reorganisation.
- Execution itself, authorizations, access lists and prefetching.
- Child indexers, the throttling timer and AddKnownSectionHead.
- Go's `math/big` number syntax is modelled as far as base 0 parsing goes; other encodings of digits are not.
- The remaining throttler bookkeeping, the wallet manager, genesis setup, the API layer and the client.
