# A model of the Tarcoin node core

This project models the stateful core of the node and the block arithmetic of the mining pool, and proves what they
promise. It covers, hardest first:

- the layered cache of unspent coins (`Coins.dfy`),
- the address manager with its check and its file (`AddrTables.dfy`, `AddrCheck.dfy`, `AddrMan.dfy`, `AddrLoad.dfy`,
  `AddrPersist.dfy`, `AddrFile.dfy`),
- the parallel check queue (`CheckQueue.dfy`),
- the block tree, its skip list with the exact length of the longest search, and the active chain (`SkipHeights.dfy`,
  `Chain.dfy`),
- 256-bit arithmetic, compact targets and block work (`Limbs.dfy`, `Shifts.dfy`, `ArithUint.dfy`, `Compact.dfy`),
- the pool's Merkle branch and target test against the node's (`ByteOrder.dfy`, `Pow.dfy`, `Pool.dfy`),
- compact block relay (`CompactBlock.dfy`; BIP 152, section HeaderAndShortIDs),
- Bech32 and Bech32m with the distance of the code (`Bech32.dfy`, `Gf1024.dfy`, `Bch.dfy`) and the location of wrong
  symbols (`GfLog.dfy`, `GfTables.dfy`, `ErrorLocator.dfy`, `Syndromes.dfy`, `LocateErrors.dfy`; BIP 173, section
  Bech32, and BIP 350, section Bech32m),
- Base58 (`Radix.dfy`, `Base58.dfy`) and amount compression (`Amount.dfy`).

`dafny verify dfyconfig.toml` verifies everything. Objects that the source changes in place are classes, buffers are
arrays, loops are loops; each such method is proved against a declarative statement. Hash functions, bucket functions,
random numbers, clock readings, the order of hash maps and the load of hash buckets are parameters, so every statement
holds for all of them. The check queue is a state machine of atomic steps under one mutex with wait and notify.

Three promises turn out to hold only under a condition, and the exact condition is proved:

- `CheckAddrman` counts the networks on record, not which ones: it can pass although a network in use has no counts
  (`AddrCheck.MissingNetworkPasses`, `AddrCheck.CountsExactIff`). No operation and no file leads to such tables:
  managers reached by operations and managers loaded from any accepted file always have exact counts.
- The pool's target test is the node's only for exponents up to 32 and without the sign bit (`Pool.AgreeIff`): beyond
  32 the pool takes for zero a target that the node accepts on the regression test network (`Pool.LargeTargetLost`),
  and a negative target, which the node refuses, is a positive one for the pool (`Pool.NegativeTargetKept`).
- `CompressAmount` wraps for amounts within the documented supply of 5 * 10^18 units (README.md of the repository,
  table of parameters): up to the supply the round trip holds exactly for multiples of ten and for amounts up to
  2049638230412172402 (`Amount.RoundTripIff`, `Amount.SupplyNotSafe`).

## Model

| member | source | states |
|---|---|---|
| `Coins.AddCellExact` | blockchain_core/tarcoin-core/src/coins.cpp:68-102 | Adding a coin leaves a legal cell that shows the coin if and only if the caller announced an overwrite or the view held no unspent coin |
| `Coins.WriteCellExact` | blockchain_core/tarcoin-core/src/coins.cpp:191-256 | Merging one cell of the layer above leaves a legal cell that shows its coin if and only if a FRESH cell meets no unspent coin in the view of this layer |
| `Coins.SpendCellKeeps` | blockchain_core/tarcoin-core/src/coins.cpp:132-154 | Spending leaves a legal cell under which the view has no coin |
| `Coins.RingAppend` | blockchain_core/tarcoin-core/src/coins.h:127-139 | Linking before the sentinel keeps the doubly linked ring: every pointer is the inverse of its neighbour's, each entry once |
| `Coins.RingRemove` | blockchain_core/tarcoin-core/src/coins.h:175-182 | Unlinking a member keeps the ring |
| `Coins.CoinsDb.BatchWrite` | blockchain_core/tarcoin-core/src/txdb.cpp:107-169 | Writing the flagged entries of the layer above makes the database equal to the view of that layer, which does not change |
| `Coins.CoinsCache.OnDb` | blockchain_core/tarcoin-core/src/coins.cpp:31-36 | A new layer over the database shows the database |
| `Coins.CoinsCache.OnCache` | blockchain_core/tarcoin-core/src/coins.cpp:31-36 | A new layer over a layer shows that layer |
| `Coins.CoinsCache.AddFlags` | blockchain_core/tarcoin-core/src/coins.h:127-139 | Flags are only added; the list holds exactly the flagged entries, one longer if the entry was not flagged |
| `Coins.CoinsCache.SetClean` | blockchain_core/tarcoin-core/src/coins.h:175-182 | The entry loses its flags and leaves the list, everything else stays |
| `Coins.CoinsCache.PeekCoin` | blockchain_core/tarcoin-core/src/coins.cpp:23-29 | Returns what the view holds and changes nothing, through any number of layers |
| `Coins.CoinsCache.FetchCoinFromBase` | blockchain_core/tarcoin-core/src/coins.cpp:42-45 | Returns what the base view holds; no view of the stack changes |
| `Coins.CoinsCache.FetchCoin` | blockchain_core/tarcoin-core/src/coins.cpp:47-60 | Caches an unspent coin of the base and nothing else; no view of the stack changes |
| `Coins.CoinsCache.GetCoin` | blockchain_core/tarcoin-core/src/coins.cpp:62-66 | Returns what the view holds; no view of the stack changes |
| `Coins.CoinsCache.AddCoin` | blockchain_core/tarcoin-core/src/coins.cpp:68-109 | Throws exactly when an unspent entry would be replaced unannounced; otherwise the view gains the coin, and the dirty and memory counters stay exact; unspendable coins are ignored |
| `Coins.CoinsCache.SpendCoin` | blockchain_core/tarcoin-core/src/coins.cpp:132-154 | The view loses the coin whatever the answer says; the answer tells whether an entry existed; the moved coin is the one the view held |
| `Coins.CoinsCache.Uncache` | blockchain_core/tarcoin-core/src/coins.cpp:291-304 | Drops only an entry without flags; the view does not change |
| `Coins.CoinsCache.Reset` | blockchain_core/tarcoin-core/src/coins.cpp:283-289 | The view becomes the base view and the cache is empty |
| `Coins.CoinsCache.NextAndMaybeErase` | blockchain_core/tarcoin-core/src/coins.h:278-294 | The cursor visits the list in order; entries that stay are cleaned, spent ones leave, the dirty counter falls by one |
| `Coins.CoinsCache.BatchWrite` | blockchain_core/tarcoin-core/src/coins.cpp:189-258 | The view of this layer becomes the view of the layer above; the FRESH-misapplied throw is never reached; counters and list stay exact |
| `Coins.CoinsCache.Flush` | blockchain_core/tarcoin-core/src/coins.cpp:260-270 | The base view becomes this view, this view does not change, the cache is empty, nothing is thrown |
| `Coins.CoinsCache.Sync` | blockchain_core/tarcoin-core/src/coins.cpp:272-281 | The base view becomes this view, this view does not change, no entry is dirty, unspent entries stay cached |
| `Coins.CoinsCache.SanityCheck` | blockchain_core/tarcoin-core/src/coins.cpp:332-362 | In every reachable state the self-check succeeds: flag states legal, list doubly linked and holding exactly the dirty entries, both counters exact |
| `Coins.StepQuiet` | blockchain_core/tarcoin-core/src/coins.cpp:47-66 | Reading or uncaching at any layer of a stack changes no view of the stack |
| `Coins.StepDown` | blockchain_core/tarcoin-core/src/coins.cpp:260-281 | Flush or Sync of any layer of a stack copies its view one layer down and changes nothing else |
| `Coins.StepAdd` | blockchain_core/tarcoin-core/src/coins.cpp:68-109 | AddCoin on top of a stack of any depth changes only the top view |
| `Coins.StepSpend` | blockchain_core/tarcoin-core/src/coins.cpp:132-154 | SpendCoin on top of a stack of any depth changes only the top view |
| `Coins.StepReset` | blockchain_core/tarcoin-core/src/coins.cpp:283-289 | Reset of the top makes its view that of the layer below |
| `Coins.Run` | blockchain_core/tarcoin-core/src/coins.cpp:47-304 | For stacks of any depth and runs of any length every layer shows what the plain maps show, all flags stay legal, and no step throws |
| `Coins.TopIsPlain` | blockchain_core/tarcoin-core/src/coins.cpp:47-304 | Between resets the top view evolves as one plain map from outpoint to coin |
| `Coins.RunThenFlush` | blockchain_core/tarcoin-core/src/coins.cpp:260-270 | After any run, resets included, flushing every layer downward leaves the database and every layer equal to the top view |
| `Coins.FlushedRunIsPlain` | blockchain_core/tarcoin-core/src/coins.cpp:260-270 | If the run has no reset, that view is the plain map |
| `CheckQueue.BatchFits` | blockchain_core/tarcoin-core/src/checkqueue.h:117-122 | The batch size is between one and the queue length |
| `CheckQueue.StepKeeps` | blockchain_core/tarcoin-core/src/checkqueue.h:73-138 | Every atomic step of master, workers, Add and the destructor keeps the invariant: nTodo is the queue length plus all batches in flight, idle and total counters are exact, every check of the session is queued, in flight or done, results are truthful |
| `CheckQueue.ReachesInv` | blockchain_core/tarcoin-core/src/checkqueue.h:73-199 | The invariant holds in every state of every interleaving |
| `CheckQueue.AnswersAreTruthful` | blockchain_core/tarcoin-core/src/checkqueue.h:99-107 | In every interleaving Complete returns nothing only if every check of the session ran and passed, and otherwise the error of a check of that session |
| `CheckQueue.AddEnds` | blockchain_core/tarcoin-core/src/checkqueue.h:173-190 | With any number of workers, none included, Add can give its notification, and Complete can then be called |
| `CheckQueue.NoDeadlock` | blockchain_core/tarcoin-core/src/checkqueue.h:99-111 | While Complete has not returned some thread can take a productive step |
| `CheckQueue.Progress` | blockchain_core/tarcoin-core/src/checkqueue.h:81-137 | Every productive step lowers a natural number |
| `CheckQueue.CompleteReturns` | blockchain_core/tarcoin-core/src/checkqueue.h:165-170 | A run of productive steps is bounded, and where it stops Complete has returned |
| `AddrTables.CreateKeeps` | blockchain_core/tarcoin-core/src/addrman.cpp:396-410 | Creating an entry keeps the tables consistent, the new id waiting for its first bucket |
| `AddrTables.SwapKeeps` | blockchain_core/tarcoin-core/src/addrman.cpp:412-434 | Swapping two positions of vRandom keeps the tables consistent |
| `AddrTables.DeleteKeeps` | blockchain_core/tarcoin-core/src/addrman.cpp:436-451 | Deleting an unreferenced entry keeps the tables consistent |
| `AddrTables.UnplaceKeeps` | blockchain_core/tarcoin-core/src/addrman.cpp:453-469 | Clearing a new slot lowers the count of its entry, which was positive |
| `AddrTables.PlaceKeeps` | blockchain_core/tarcoin-core/src/addrman.cpp:590-593 | Filling a free new slot raises the count of its entry |
| `AddrTables.EvictKeeps` | blockchain_core/tarcoin-core/src/addrman.cpp:496-506 | Taking an entry out of its tried slot keeps the tables consistent, the entry in neither table |
| `AddrTables.PromoteKeeps` | blockchain_core/tarcoin-core/src/addrman.cpp:522-527 | Putting an entry into its free tried slot keeps the tables consistent |
| `AddrMan.AddrMan.constructor` | blockchain_core/tarcoin-core/src/addrman.cpp:89-105 | A fresh manager is consistent |
| `AddrMan.AddrMan.SwapRandom` | blockchain_core/tarcoin-core/src/addrman.cpp:412-434 | Two positions of vRandom and the positions recorded in the entries are exchanged |
| `AddrMan.AddrMan.Create` | blockchain_core/tarcoin-core/src/addrman.cpp:396-410 | A new entry under the next id, last in vRandom, counted as new |
| `AddrMan.AddrMan.Delete` | blockchain_core/tarcoin-core/src/addrman.cpp:436-451 | The entry leaves every structure; the last one of vRandom takes its place |
| `AddrMan.AddrMan.ClearNew` | blockchain_core/tarcoin-core/src/addrman.cpp:453-469 | Exactly that slot becomes free; its entry is deleted if that was its last reference; all others are kept |
| `AddrMan.AddrMan.ClearReferences` | blockchain_core/tarcoin-core/src/addrman.cpp:475-485 | The ring scan with early exit leaves no new slot holding the id, so the reference count reaches zero |
| `AddrMan.AddrMan.MoveToNew` | blockchain_core/tarcoin-core/src/addrman.cpp:496-521 | The evicted entry is not lost: it is in its own new bucket with one reference, whatever was there before |
| `AddrMan.AddrMan.MakeTried` | blockchain_core/tarcoin-core/src/addrman.cpp:471-528 | The entry takes its tried slot, an evicted entry goes back to the new table, everything stays consistent and no assertion fails |
| `AddrMan.AddrMan.Promote` | blockchain_core/tarcoin-core/src/addrman.cpp:522-527 | An entry in neither table takes its free tried slot, and the tables are consistent again |
| `AddrMan.AddrMan.Refresh` | blockchain_core/tarcoin-core/src/addrman.cpp:545-573 | A known address takes over later times and services, and may gain a reference exactly under the stated tests |
| `AddrMan.AddrMan.Enroll` | blockchain_core/tarcoin-core/src/addrman.cpp:574-577 | A new address is entered with its penalized time |
| `AddrMan.AddrMan.Settle` | blockchain_core/tarcoin-core/src/addrman.cpp:579-603 | The slot goes to the newcomer exactly if it is free or its entry yields; an entry left without a reference is deleted; all others survive |
| `AddrMan.AddrMan.Prepare` | blockchain_core/tarcoin-core/src/addrman.cpp:530-577 | The entry of the address that may gain a reference, known or newly entered, or none; ids stay in order and no table changes |
| `AddrMan.AddrMan.AddSingle` | blockchain_core/tarcoin-core/src/addrman.cpp:530-604 | Consistent afterwards; the answer is true exactly when the new table changed, and then the address holds the slot of its source |
| `AddrMan.AddrMan.Add` | blockchain_core/tarcoin-core/src/addrman.cpp:661-671 | Consistent afterwards, the tried table unchanged, the new table too unless the answer is true; each address has its own clock reading |
| `AddrMan.AddrMan.Good` | blockchain_core/tarcoin-core/src/addrman.cpp:606-659 | The entry moves to tried exactly if it is new and need not be tested first; otherwise only its statistics change and it may join the waiting collisions |
| `AddrMan.AddrMan.Attempt` | blockchain_core/tarcoin-core/src/addrman.cpp:673-691 | Only that entry changes; a failure counts once since we were last online |
| `AddrMan.AddrMan.Connected` | blockchain_core/tarcoin-core/src/addrman.cpp:857-874 | Only the time of that entry changes, and only after twenty minutes |
| `AddrMan.AddrMan.SetServices` | blockchain_core/tarcoin-core/src/addrman.cpp:876-890 | Only the services of that entry change |
| `AddrMan.AddrMan.ResolveOne` | blockchain_core/tarcoin-core/src/addrman.cpp:896-952 | Forget, replace or wait as the times say; a slot found free, for which the code has a branch, never occurs |
| `AddrMan.AddrMan.ResolveCollisions` | blockchain_core/tarcoin-core/src/addrman.cpp:892-953 | Consistent afterwards; waiting ids only leave |
| `AddrMan.AddrMan.SelectTriedCollision` | blockchain_core/tarcoin-core/src/addrman.cpp:955-981 | Returns the tried entry in the slot a waiting entry wants; the look-ups never create an entry; a dead id is dropped |
| `AddrMan.AddrMan.GetAddr` | blockchain_core/tarcoin-core/src/addrman.cpp:792-831 | A sample without repetition, within the limit, of addresses that pass the filters, the network class included; below the limit it holds every one of them |
| `AddrMan.AddrMan.Run` | blockchain_core/tarcoin-core/src/addrman.cpp:1157-1245 | Over every run of public operations CheckAddrman answers zero after each, ids are never reused, no occupied tried slot is vacated, and every live waiting id has an occupied tried slot |
| `AddrMan.AddrMan.Check` | blockchain_core/tarcoin-core/src/addrman.cpp:1028-1041 | The consistency check of a reachable manager answers zero |
| `AddrCheck.CheckEntries` | blockchain_core/tarcoin-core/src/addrman.cpp:1057-1088 | Answers zero exactly if every entry passes, and collects tried ids, reference counts and network counts |
| `AddrCheck.CheckTried` | blockchain_core/tarcoin-core/src/addrman.cpp:1095-1110 | Answers zero exactly if every tried slot holds a tried entry in its place; what is left over are the tried entries not found |
| `AddrCheck.CheckNew` | blockchain_core/tarcoin-core/src/addrman.cpp:1112-1125 | Answers zero with nothing left over exactly if every new slot holds a new entry in its place as often as its count says |
| `AddrCheck.CheckNetworks` | blockchain_core/tarcoin-core/src/addrman.cpp:1134-1143 | Answers zero exactly if the recorded counts agree and the numbers of networks are equal or smaller as the code tests |
| `AddrCheck.CheckAddrman` | blockchain_core/tarcoin-core/src/addrman.cpp:1043-1146 | Answers zero exactly if the declarative form of the invariant holds |
| `AddrCheck.ConsistentPasses` | blockchain_core/tarcoin-core/src/addrman.cpp:1043-1146 | Consistent tables pass the check |
| `AddrCheck.CountsExactIff` | blockchain_core/tarcoin-core/src/addrman.cpp:1134-1143 | Tables that pass the check have exact network counts if and only if every network in use is on record |
| `AddrCheck.MissingNetworkPasses` | blockchain_core/tarcoin-core/src/addrman.cpp:1134-1143 | Some tables pass the check although a network in use has no counts |
| `AddrLoad.LoadEntries` | blockchain_core/tarcoin-core/src/addrman.cpp:262-294 | For any file the two entry sections become entries numbered in file order, tried ones in their slots, with exact counts |
| `AddrLoad.CollectReferences` | blockchain_core/tarcoin-core/src/addrman.cpp:296-311 | The references of all buckets in order, those out of range left out |
| `AddrLoad.PlaceReferences` | blockchain_core/tarcoin-core/src/addrman.cpp:328-356 | For any file the references are placed in order; reference counts are exact and slots hold entries in their places |
| `AddrLoad.Prune` | blockchain_core/tarcoin-core/src/addrman.cpp:358-368 | Exactly the entries without a reference go, each with its address; everything else stays |
| `AddrLoad.Judged` | blockchain_core/tarcoin-core/src/addrman.cpp:373-378 | The check passes if and only if the key is set, the times of the entries that stay are sane and no other loaded entry has the address of one that stays; the tables are then consistent |
| `AddrLoad.Unserialize` | blockchain_core/tarcoin-core/src/addrman.cpp:211-379 | For any framed file: corrupt, unsupported, refused or restored exactly as stated; what is restored is consistent and is the rebuilt tables pruned |
| `AddrLoad.DistinctAccepted` | blockchain_core/tarcoin-core/src/addrman.cpp:211-379 | A file in which no address appears twice passes under every asmap and whatever its buckets say |
| `AddrPersist.WriteSection` | blockchain_core/tarcoin-core/src/addrman.cpp:171-190 | The section lists its entries in traversal order with their numbers; the count assertions never fail |
| `AddrPersist.WriteBuckets` | blockchain_core/tarcoin-core/src/addrman.cpp:191-204 | Each bucket lists the numbers of its entries in slot order |
| `AddrPersist.Serialize` | blockchain_core/tarcoin-core/src/addrman.cpp:113-208 | The file of a consistent manager |
| `AddrPersist.RoundTrip` | blockchain_core/tarcoin-core/src/addrman.cpp:113-379 | Under the same asmap the file is accepted, loses no entry, and rebuilds every new and tried slot, count and stored field up to the numbering of ids; the result is consistent |
| `AddrPersist.SaveAndLoad` | blockchain_core/tarcoin-core/src/addrman.cpp:113-379 | Serializing and unserializing returns the same manager up to ids |
| `AddrPersist.SavedDistinct` | blockchain_core/tarcoin-core/src/addrman.cpp:171-190 | A consistent manager never saves an address twice |
| `AddrPersist.SaveAndMigrate` | blockchain_core/tarcoin-core/src/addrman.cpp:313-356 | Under another asmap, which may send every address to another bucket, the file is accepted and gives a consistent manager |
| `AddrMan.AddrMan.Loaded` | blockchain_core/tarcoin-core/src/addrman.cpp:211-379 | A manager with loaded tables is valid, nothing waiting for a tried slot |
| `AddrFile.Load` | blockchain_core/tarcoin-core/src/addrman.cpp:211-379 | A valid manager exactly if the file is readable and acceptable |
| `AddrFile.LoadAndRun` | blockchain_core/tarcoin-core/src/addrman.cpp:211-379 | After loading any accepted file, every run of operations keeps the check at zero |
| `AddrFile.Restart` | blockchain_core/tarcoin-core/src/addrman.cpp:113-379 | Saving and starting again gives the same manager, ids renamed |
| `AddrFile.Migrate` | blockchain_core/tarcoin-core/src/addrman.cpp:313-379 | Starting again under another asmap gives a valid manager |
| `SkipHeights.InvertLowestOneIs` | blockchain_core/tarcoin-core/src/chain.cpp:68-69 | n & (n - 1) subtracts the value of the lowest one bit |
| `SkipHeights.SkipHeightBelow` | blockchain_core/tarcoin-core/src/chain.cpp:71-80 | The skip height of a height above zero is below it and not negative |
| `SkipHeights.TailSteps` | blockchain_core/tarcoin-core/src/chain.cpp:82-107 | A search that ends before the lowest one bit, bit k, of the height is used up takes at most a number of steps quadratic in k |
| `SkipHeights.StepsBound` | blockchain_core/tarcoin-core/src/chain.cpp:76-78 | From any height below 2^bits to any height below it, for twelve bits or more, a search takes at most a number of steps quadratic in the number of bits |
| `SkipHeights.LongestIs` | blockchain_core/tarcoin-core/src/chain.cpp:76-78 | That number in closed form |
| `SkipHeights.StepsReached` | blockchain_core/tarcoin-core/src/chain.cpp:76-78 | The bound is exact: the search from 2^bits - 8 to height 2 takes that many steps |
| `SkipHeights.StepsOf18` | blockchain_core/tarcoin-core/src/chain.cpp:76-78 | Below height 2^18 no search takes more than 110 steps, and one takes 110, as the comment claims |
| `Chain.BlockIndex.GetAncestor` | blockchain_core/tarcoin-core/src/chain.cpp:82-107 | Equals walking parents down to the height, null outside the range; the parent assertion never fails; once all skip pointers are set the number of steps depends on the two heights alone |
| `Chain.BlockIndex.BuildSkip` | blockchain_core/tarcoin-core/src/chain.cpp:114-118 | Sets the skip pointer right and keeps all others right |
| `Chain.BlockIndex.Attach` | blockchain_core/tarcoin-core/src/node/blockstorage.cpp:240-245 | A block outside a built tree joins it one above its parent, with its skip pointer set, and the tree stays built |
| `Chain.AddToBlockIndex` | blockchain_core/tarcoin-core/src/node/blockstorage.cpp:224-256 | A header joins under its parent, or as a root, and the tree stays built |
| `Chain.LastCommonAncestor` | blockchain_core/tarcoin-core/src/chain.cpp:152-177 | Terminates with the deepest common ancestor, null if there is none; both height assumptions hold |
| `Chain.LocatorEntries` | blockchain_core/tarcoin-core/src/chain.cpp:26-43 | The ancestors at one-step and then doubling distances, down to a root |
| `Chain.LocatorShape` | blockchain_core/tarcoin-core/src/chain.cpp:26-43 | A locator starts at the block, ends at a root, falls strictly, and its length is logarithmic in the height |
| `Chain.CChain.SetTip` | blockchain_core/tarcoin-core/src/chain.cpp:16-24 | Despite the early stop every entry is the tip's ancestor at its height |
| `Chain.CChain.FindFork` | blockchain_core/tarcoin-core/src/chain.cpp:50-58 | The highest ancestor of the block that is in the chain, null if none |
| `Chain.ChainIsPath` | blockchain_core/tarcoin-core/src/chain.h:401-428 | A contained block has its ancestors below it in the chain, and its successor is its child |
| `Chain.ValidGrows` | blockchain_core/tarcoin-core/src/node/blockstorage.cpp:240-245 | The chain stays valid as blocks join the tree |
| `Chain.Run` | blockchain_core/tarcoin-core/src/chain.cpp:16-24 | After any run of insertions and tip changes the tree is built and the chain leads to the last tip |
| `ArithUint.BaseUint.Add` | blockchain_core/tarcoin-core/src/arith_uint256.h:117-127 | Sum modulo two to the width; no 64-bit intermediate wraps |
| `ArithUint.BaseUint.Complement` | blockchain_core/tarcoin-core/src/arith_uint256.h:51-57 | Two to the width minus one minus the value |
| `ArithUint.BaseUint.Increment` | blockchain_core/tarcoin-core/src/arith_uint256.h:155-162 | Plus one modulo two to the width |
| `ArithUint.BaseUint.Negate` | blockchain_core/tarcoin-core/src/arith_uint256.h:59-66 | The additive inverse modulo two to the width |
| `ArithUint.BaseUint.Sub` | blockchain_core/tarcoin-core/src/arith_uint256.h:129-133 | Difference modulo two to the width |
| `ArithUint.BaseUint.MulU32` | blockchain_core/tarcoin-core/src/arith_uint256.cpp:48-58 | Product modulo two to the width; no 64-bit intermediate wraps |
| `ArithUint.BaseUint.Mul` | blockchain_core/tarcoin-core/src/arith_uint256.cpp:60-74 | Product modulo two to the width, also of a number with itself |
| `ArithUint.AddRow` | blockchain_core/tarcoin-core/src/arith_uint256.cpp:65-70 | One row of the product, with exactly the lost part named; no 64-bit intermediate wraps |
| `ArithUint.BaseUint.ShiftLeft` | blockchain_core/tarcoin-core/src/arith_uint256.cpp:14-29 | Times a power of two modulo two to the width, for every shift |
| `ArithUint.BaseUint.ShiftRight` | blockchain_core/tarcoin-core/src/arith_uint256.cpp:31-46 | Floor of the quotient by a power of two, for every shift |
| `ArithUint.BaseUint.Bits` | blockchain_core/tarcoin-core/src/arith_uint256.cpp:156-169 | The number of bits: between two powers of two, zero for zero |
| `ArithUint.BaseUint.CompareTo` | blockchain_core/tarcoin-core/src/arith_uint256.cpp:102-112 | The sign of the numeric comparison |
| `ArithUint.BaseUint.Div` | blockchain_core/tarcoin-core/src/arith_uint256.cpp:76-100 | The exact floor quotient, or an error and zero for a zero divisor |
| `ArithUint.Align` | blockchain_core/tarcoin-core/src/arith_uint256.cpp:88-89 | The aligning shift loses no bit |
| `ArithUint.BaseUint.GetLow64` | blockchain_core/tarcoin-core/src/arith_uint256.h:222-226 | The value modulo two to the 64 |
| `Compact.SetCompact` | blockchain_core/tarcoin-core/src/arith_uint256.cpp:176-194 | The encoded number modulo 2^256; the overflow flag is set exactly if it reaches 2^256; the negative flag exactly if it is not zero and the sign bit is set |
| `Compact.OverflowIs` | blockchain_core/tarcoin-core/src/arith_uint256.cpp:189-192 | The three-way size test is the exact range test |
| `Compact.GetCompact` | blockchain_core/tarcoin-core/src/arith_uint256.cpp:196-217 | The compact form of the value; both assertions hold |
| `Compact.DecodeEncode` | blockchain_core/tarcoin-core/src/arith_uint256.cpp:176-217 | Reading back loses less than one unit of the kept mantissa, never more than the value, keeps the sign and never overflows |
| `Compact.Stable` | blockchain_core/tarcoin-core/src/arith_uint256.cpp:176-217 | Encoding the decoded number again gives the same compact |
| `Compact.GetBitsProof` | blockchain_core/tarcoin-core/src/chain.cpp:120-133 | floor(2^256 / (target + 1)) for every valid nBits, zero otherwise |
| `Pool.MerkleBranch` | mining_pool/src/pool.js:1080-1097 | For every transaction list and every coinbase hash, folding the hash over the branch gives the Merkle root of the whole block, last node doubled |
| `Pool.FoldBranch` | mining_pool/src/pool.js:789-793 | The fold a submitted share is checked with |
| `Pool.NBitsToTarget` | mining_pool/src/pool.js:175-187 | The 32-byte buffer holds the encoded number, sign bit ignored, for exponents up to 32, zero beyond |
| `Pool.HashMeetsTarget` | mining_pool/src/pool.js:242-250 | Numerically at most |
| `Pool.MeetsNetwork` | mining_pool/src/pool.js:715-716 | A header hash makes a block for the pool exactly if its value is at most the number in the buffer |
| `Pow.UintToArith256` | blockchain_core/tarcoin-core/src/arith_uint256.cpp:226-232 | The bytes of a hash, least significant first, as a number |
| `Pow.DeriveTarget` | blockchain_core/tarcoin-core/src/pow.cpp:167-180 | A target exactly if the bits are not negative, not zero, do not overflow and are within the limit; it is then the encoded number |
| `Pow.CheckProofOfWorkImpl` | blockchain_core/tarcoin-core/src/pow.cpp:182-192 | True exactly if there is a target and the hash is at most it |
| `Pool.AgreeIff` | mining_pool/src/pool.js:175-187 | Pool and node judge every hash alike if and only if the exponent is at most 32, the sign bit is clear, the mantissa is not shifted away and the target is within the limit |
| `Pool.AgreeAboveZeroIff` | mining_pool/src/pool.js:175-187 | For every hash but zero they agree if and only if both refuse all, or the exponent is at most 32 and the node has a target |
| `Pool.SameNumberIff` | mining_pool/src/pool.js:175-187 | The pool's number is the one SetCompact leaves if and only if the exponent is at most 32 or all bytes of the mantissa leave the 256 bits |
| `Pool.LargeTargetLost` | mining_pool/src/pool.js:181 | 0x21007fff is within the largest limit of any network, 2^255 - 1; the node accepts the hash one for it and the pool does not |
| `Pool.NegativeTargetKept` | mining_pool/src/pool.js:176-178 | For 0x1d80ffff the node refuses every hash and the pool takes a positive target |
| `CompactBlock.SlotsGaps` | blockchain_core/tarcoin-core/src/blockencodings.cpp:72-87 | Each prefilled transaction takes a slot of its own, so as many slots remain as there are short ids |
| `CompactBlock.PositionOf` | blockchain_core/tarcoin-core/src/blockencodings.cpp:94-99 | With distinct short ids the i-th one leads to the i-th slot that is not prefilled |
| `CompactBlock.PartiallyDownloadedBlock.Prefill` | blockchain_core/tarcoin-core/src/blockencodings.cpp:70-87 | In bounds for every message; accepts exactly the well-formed prefill lists |
| `CompactBlock.PartiallyDownloadedBlock.Locate` | blockchain_core/tarcoin-core/src/blockencodings.cpp:94-112 | In bounds and within 16 bits; stops exactly when a bucket is too full |
| `CompactBlock.PartiallyDownloadedBlock.TakeMempool` | blockchain_core/tarcoin-core/src/blockencodings.cpp:116-143 | Fills slots only with transactions of the right short id and, despite the early exit, every slot with clear offers; the counter is the number of filled slots and never falls below zero |
| `CompactBlock.PartiallyDownloadedBlock.TakeExtra` | blockchain_core/tarcoin-core/src/blockencodings.cpp:145-174 | The same for the extra transactions |
| `CompactBlock.PartiallyDownloadedBlock.InitData` | blockchain_core/tarcoin-core/src/blockencodings.cpp:59-179 | Exactly which messages are invalid and which fail; on success every slot is as sent, empty, or holds an offer for its short id, and a slot with clear offers is empty only if there was none |
| `CompactBlock.PartiallyDownloadedBlock.FillBlock` | blockchain_core/tarcoin-core/src/blockencodings.cpp:189-235 | Exactly when it is invalid or fails; the block is the slots with the missing transactions in order; it works once |
| `CompactBlock.Announce` | blockchain_core/tarcoin-core/src/blockencodings.cpp:20-33 | The first transaction whole and a short id for each other one |
| `CompactBlock.AnnounceDescribes` | blockchain_core/tarcoin-core/src/blockencodings.cpp:20-33 | What the sender builds is a compact form of the block |
| `CompactBlock.RightOnes` | blockchain_core/tarcoin-core/src/blockencodings.cpp:116-174 | Without collisions every filled slot holds the transaction of the block |
| `CompactBlock.AskedOnly` | blockchain_core/tarcoin-core/src/blockencodings.cpp:116-174 | Without collisions and with a mempool that lists no transaction twice, nothing that was on offer is asked for |
| `CompactBlock.Rebuild` | blockchain_core/tarcoin-core/src/blockencodings.cpp:59-235 | Any compact form of a block, received with no colliding transaction and completed in order, gives back exactly the block; if the mempool lists no transaction twice, only what was not on offer is asked for |
| `CompactBlock.DifferenceFormatter.Ser` | blockchain_core/tarcoin-core/src/blockencodings.h:29-34 | Accepts exactly the values that may follow |
| `CompactBlock.DifferenceFormatter.Unser` | blockchain_core/tarcoin-core/src/blockencodings.h:36-42 | Accepts exactly if the sum fits, also where the 64-bit addition wraps |
| `CompactBlock.WriteIndices` | blockchain_core/tarcoin-core/src/blockencodings.h:23-43 | Succeeds exactly for increasing lists |
| `CompactBlock.ReadIndices` | blockchain_core/tarcoin-core/src/blockencodings.h:23-43 | Succeeds exactly if every index fits, and then the list is increasing |
| `CompactBlock.ReadWritten` | blockchain_core/tarcoin-core/src/blockencodings.h:23-43 | Reading a written list gives it back |
| `CompactBlock.WriteRead` | blockchain_core/tarcoin-core/src/blockencodings.h:23-43 | Writing a read list gives the stream back |
| `CompactBlock.DeltasNonNegative` | blockchain_core/tarcoin-core/src/blockencodings.h:31 | The differences are writable exactly for increasing lists |
| `Bech32.StepLinear` | blockchain_core/tarcoin-core/src/bech32.cpp:177-214 | The checksum step is linear over exclusive or |
| `Bech32.StepKeepsNonZero` | blockchain_core/tarcoin-core/src/bech32.cpp:177-214 | Appending a zero symbol never turns a non-zero state into zero |
| `Bech32.PolyMod` | blockchain_core/tarcoin-core/src/bech32.cpp:130-216 | The fold of the step over the list |
| `Bech32.PolyLinear` | blockchain_core/tarcoin-core/src/bech32.cpp:130-216 | The checksum of lists of any length is linear |
| `Bech32.BurstDetected` | blockchain_core/tarcoin-core/src/bech32.cpp:130-216 | Changes confined to six consecutive symbols change the checksum, whatever the length |
| `Bech32.SubstitutionDetected` | blockchain_core/tarcoin-core/src/bech32.cpp:327-339 | Changing one symbol, or up to six consecutive ones, of a codeword never gives a codeword of the same encoding |
| `Gf1024.OrderOfE` | blockchain_core/tarcoin-core/src/bech32.cpp:37-112 | No power of e between the first and the 1022nd fixes a nonzero element of GF(1024) |
| `Gf1024.NoThree` | blockchain_core/tarcoin-core/src/bech32.cpp:137-173 | Three equations with consecutive powers of e have only the zero solution |
| `Bch.ExtensionRule` | blockchain_core/tarcoin-core/src/bech32.cpp:86-109 | Multiplication by e is the rule the tables are made with: a * e + b goes to (9a + b) * e + 23a |
| `Bch.GeneratorRoots` | blockchain_core/tarcoin-core/src/bech32.cpp:158-212 | The five constants of the step are the multiples of the remainder of x^6 at the roots e^997, e^998 and e^999 |
| `Bch.StepAtRoot` | blockchain_core/tarcoin-core/src/bech32.cpp:177-214 | At each root a step multiplies the value of the state by the root and adds the symbol |
| `Bch.ThreeErrorsDetected` | blockchain_core/tarcoin-core/src/bech32.cpp:137-142 | Up to three wrong symbols within a window of 1023 change the checksum, whatever the length and the starting state |
| `Bch.ThreeSubstitutionsDetected` | blockchain_core/tarcoin-core/src/bech32.cpp:327-339 | Changing up to three values within a window of 1023 of a codeword never gives a codeword of the same encoding |
| `GfLog.Primitive` | blockchain_core/tarcoin-core/src/bech32.cpp:37-45 | Every nonzero element of GF(1024) is a power of e |
| `GfLog.TooManyRoots` | blockchain_core/tarcoin-core/src/bech32.cpp:158-175 | A polynomial over GF(1024) with as many roots among the powers of e as coefficients is zero |
| `GfLog.ConjugateTimesE` | blockchain_core/tarcoin-core/src/bech32.cpp:158-175 | The 32nd power goes along with multiplication by e, so roots of a polynomial over GF(32) come with their conjugates |
| `GfLog.ValuesDetermine` | blockchain_core/tarcoin-core/src/bech32.cpp:158-175 | A residue that is zero at e^997, e^998 and e^999 is zero: the generator is the least common multiple of their minimal polynomials |
| `GfLog.SymbolIff` | blockchain_core/tarcoin-core/src/bech32.cpp:481-484 | The 31 nonzero symbols are exactly the powers of e whose exponent 33 divides |
| `GfTables.GenerateSmallTables` | blockchain_core/tarcoin-core/src/bech32.cpp:48-76 | The tables of GF(32) hold the powers of two and the logarithm of every nonzero symbol |
| `GfTables.Product` | blockchain_core/tarcoin-core/src/bech32.cpp:98-108 | Multiplying by looking up logarithms is multiplication in GF(32) |
| `GfTables.GenerateGFTables` | blockchain_core/tarcoin-core/src/bech32.cpp:46-115 | EXP[k] is e^k, and LOG[s] is the logarithm of s for every nonzero s |
| `ErrorLocator.TwoRests` | blockchain_core/tarcoin-core/src/bech32.cpp:493-516 | Taking one of two wrong symbols out leaves the other, spread by e^p + e^q, and the rests have the ratio e^q |
| `ErrorLocator.RestsTwo` | blockchain_core/tarcoin-core/src/bech32.cpp:493-516 | Conversely rests in that ratio are solved by two symbols |
| `ErrorLocator.NotBoth` | blockchain_core/tarcoin-core/src/bech32.cpp:470-475 | What passes the test for one wrong symbol is not explained by two |
| `ErrorLocator.SingleIff` | blockchain_core/tarcoin-core/src/bech32.cpp:470-489 | One wrong symbol at a place explains a residue exactly if the values at the three roots pass the test with it |
| `ErrorLocator.PairAtIff` | blockchain_core/tarcoin-core/src/bech32.cpp:518-544 | Given the second place, two divisions by 33 decide whether two symbols of GF(32) solve the equations |
| `Syndromes.GenerateSyndromeConstants` | blockchain_core/tarcoin-core/src/bech32.cpp:240-255 | Each constant holds the values of one bit of a residue at the three roots |
| `Syndromes.Syndrome` | blockchain_core/tarcoin-core/src/bech32.cpp:261-279 | The three groups of ten bits are the values of the residue at the three roots |
| `LocateErrors.TryPlace` | blockchain_core/tarcoin-core/src/bech32.cpp:492-556 | Finds the other place exactly if two wrong symbols, one at the guessed place, explain the residue |
| `LocateErrors.Locate` | blockchain_core/tarcoin-core/src/bech32.cpp:456-557 | Returns one place exactly if a wrong symbol there explains the residue, two places that explain it whenever some two do, none otherwise |
| `LocateErrors.SingleMeans` | blockchain_core/tarcoin-core/src/bech32.cpp:470-489 | One wrong symbol explains a residue exactly if changing that symbol makes the list valid |
| `LocateErrors.DoubleMeans` | blockchain_core/tarcoin-core/src/bech32.cpp:490-557 | The same for two wrong symbols |
| `LocateErrors.OneWrongFound` | blockchain_core/tarcoin-core/src/bech32.cpp:470-489 | One wrong symbol of a valid list is located, and nothing else, up to 1023 symbols |
| `LocateErrors.TwoWrongFound` | blockchain_core/tarcoin-core/src/bech32.cpp:490-557 | For two wrong symbols two places are located whose symbols, suitably changed, make the list valid |
| `LocateErrors.LocateErrors` | blockchain_core/tarcoin-core/src/bech32.cpp:403-572 | Reports the first defect in the order of the checks, with the offending positions |
| `LocateErrors.ChecksumErrors` | blockchain_core/tarcoin-core/src/bech32.cpp:443-572 | Tries both encodings and reports the shorter list of places, Bech32 first |
| `LocateErrors.NothingReportedIff` | blockchain_core/tarcoin-core/src/bech32.cpp:403-572 | The message is empty exactly for the strings that decode |
| `LocateErrors.ConstantsApart` | blockchain_core/tarcoin-core/src/bech32.cpp:120-125 | No change of one symbol turns a Bech32 list into a Bech32m list or back |
| `LocateErrors.OneWrongReported` | blockchain_core/tarcoin-core/src/bech32.cpp:443-572 | For a valid list with one wrong symbol exactly that place is reported if and only if the list is Bech32, or Bech32m and no one wrong symbol explains it as Bech32 |
| `Bech32.Bech32Codeword` | blockchain_core/tarcoin-core/src/test/bech32_tests.cpp:18-19 | The published codeword a12uel5l has the Bech32 constant |
| `Bech32.Bech32mCodeword` | blockchain_core/tarcoin-core/src/test/bech32_tests.cpp:38-39 | The published codeword a1lqfn3a has the Bech32m constant |
| `Bech32.ChecksumWorks` | blockchain_core/tarcoin-core/src/bech32.cpp:342-354 | Six symbols made as the code makes them bring any state to the constant |
| `Bech32.ChecksumUnique` | blockchain_core/tarcoin-core/src/bech32.cpp:342-354 | No other six symbols do |
| `Bech32.CreateChecksum` | blockchain_core/tarcoin-core/src/bech32.cpp:342-354 | These six symbols |
| `Bech32.VerifyChecksum` | blockchain_core/tarcoin-core/src/bech32.cpp:327-339 | Answers an encoding exactly if the state is its constant |
| `Bech32.PreparePolynomialCoefficients` | blockchain_core/tarcoin-core/src/bech32.cpp:311-324 | The expanded prefix followed by the values |
| `Bech32.CheckCharacters` | blockchain_core/tarcoin-core/src/bech32.cpp:287-309 | True exactly for printable strings without mixed case; lists from left to right exactly the characters that are not printable or in the other case than the first letter |
| `Bech32.Encode` | blockchain_core/tarcoin-core/src/bech32.cpp:358-371 | Prefix, separator, and characters of the data and its checksum |
| `Bech32.Decode` | blockchain_core/tarcoin-core/src/bech32.cpp:374-400 | Accepts exactly the encodings within the limit, in one case of letters, and returns what was encoded |
| `Bech32.RoundTrip` | blockchain_core/tarcoin-core/src/bech32.cpp:358-400 | An encoding of legal lowercase input is one of those strings |
| `Radix.Push` | blockchain_core/tarcoin-core/src/base58.cpp:63-70 | In place the number times the factor plus the digit; the carry is zero at the end and the length exact |
| `Radix.EncodeFits` | blockchain_core/tarcoin-core/src/base58.cpp:99 | n * 138 / 100 + 1 digits of base 58 hold n bytes |
| `Radix.DecodeFits` | blockchain_core/tarcoin-core/src/base58.cpp:54 | n * 733 / 1000 + 1 bytes hold n digits of base 58 |
| `Base58.EncodeBase58` | blockchain_core/tarcoin-core/src/base58.cpp:89-127 | The Base58 form: leading zeros as ones, the rest by value |
| `Base58.DecodeBase58` | blockchain_core/tarcoin-core/src/base58.cpp:40-135 | Succeeds exactly if the string without spaces around it is the form of some bytes within the cap, and returns them |
| `Base58.OneText` | blockchain_core/tarcoin-core/src/base58.cpp:89-127 | Bytes have one Base58 form |
| `Base58.OneMeaning` | blockchain_core/tarcoin-core/src/base58.cpp:40-87 | A Base58 string stands for one byte string |
| `Base58.DecodeEncoded` | blockchain_core/tarcoin-core/src/base58.cpp:40-127 | Decoding what was encoded gives the bytes back, exactly within the cap |
| `Base58.EncodeDecoded` | blockchain_core/tarcoin-core/src/base58.cpp:40-127 | Encoding what was decoded gives the string back without the spaces around it |
| `Base58.EncodeBase58Check` | blockchain_core/tarcoin-core/src/base58.cpp:137-144 | The form of the bytes followed by their checksum |
| `Base58.DecodeBase58Check` | blockchain_core/tarcoin-core/src/base58.cpp:146-169 | Succeeds exactly if the string is the form of some bytes followed by their own checksum, within the cap |
| `Amount.DecompressCompress` | blockchain_core/tarcoin-core/src/compressor.cpp:149-192 | Decompressing a compressed amount gives it back, over all naturals |
| `Amount.CompressDecompress` | blockchain_core/tarcoin-core/src/compressor.cpp:149-192 | Compressing a decompressed number gives it back, over all naturals |
| `Amount.CompressNinefold` | blockchain_core/tarcoin-core/src/compressor.cpp:149-166 | The compressed form is at most nine times the amount |
| `Amount.CompressAmount` | blockchain_core/tarcoin-core/src/compressor.cpp:149-166 | Compression modulo 2^64 |
| `Amount.DecompressAmount` | blockchain_core/tarcoin-core/src/compressor.cpp:168-192 | Decompression modulo 2^64 |
| `Amount.SmallAmounts` | blockchain_core/tarcoin-core/src/compressor.cpp:149-192 | Amounts up to (2^64 - 1) / 9 never wrap and round-trip |
| `Amount.FitsIff` | blockchain_core/tarcoin-core/src/compressor.cpp:149-166 | Up to the supply, the compressed form fits 64 bits exactly for multiples of ten and amounts up to 2049638230412172402 |
| `Amount.RoundTripIff` | blockchain_core/tarcoin-core/src/compressor.cpp:149-192 | Up to the supply, the 64-bit round trip holds exactly for these amounts |
| `Amount.SupplyNotSafe` | blockchain_core/tarcoin-core/src/consensus/amount.h:26 | One unit less than the supply does not come back |

## Left out

- Coins: the best-block hash, `AddCoins`, `HaveInputs`, `EmplaceCoinInternalDANGER`, memory pools and cache reallocation; a coin moved out of is modelled as spent at once.
- Coins.CoinsDb.BatchWrite: the database is a map; batches, partial writes and crash recovery are not modelled.
- Address manager: `vvNew` and `vvTried` are maps from slot to id, an absent key standing for -1; `Select_`, `GetEntries_`, `FindAddressEntry_` and `Size_` are left out.
- AddrMan.AddrMan.Add: does not say which of several addresses survive when they compete for slots; `AddSingle` says it for each.
- AddrMan.AddrMan.ResolveCollisions: the waiting ids are settled in an arbitrary order and `ResolveOne` says what happens to each.
- AddrLoad.Unserialize: the file is a record of sections whose lengths agree with the counts; bytes, stream errors and the address formats of old versions are not modelled.
- Check queue: `HasThreads`, thread names and the control object; spurious wake-ups and any order of notifications are included.
- Chain.LocatorEntries: returns blocks instead of their hashes; the step is unbounded, with a lemma that doubling it stays within 32 bits for heights up to 2^30 + 9.
- Chain.AddToBlockIndex: a header that is already present, the chain work and the best header are not modelled.
- Chain: `FindEarliestAtLeast`, `GetBlockProofEquivalentTime`, median times and validity flags.
- ArithUint: conversion to floating point and text, and the bitwise operators on whole numbers.
- Pool.NBitsToTarget: takes the number; parsing its hexadecimal text is not modelled, nor are sockets, payouts and difficulty adjustment.
- CompactBlock.PartiallyDownloadedBlock.InitData: assumes at most 65535 transactions and 16-bit offsets, which deserialization enforces; statistics for logging are left out.
- CompactBlock.DifferenceFormatter.Unser: the compact-size byte coding under it is not modelled.
- Bech32: the fourth error that the chosen generator also detects within 89 symbols, a fact of exhaustive search; with it the two places of `LocateErrors.TwoWrongFound` would be the only ones.
- LocateErrors.OneWrongReported: that no one symbol of a Bech32m list with one wrong symbol explains it as Bech32 within 90 characters is a fact of exhaustive search too.
- LocateErrors.LocateErrors: for limits up to 1023; the program's only limit is 90.
- Base58: sizes beyond the range of `int`.
- Script compression and the undo formats of `compressor.cpp`.
