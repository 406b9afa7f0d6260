# Verification of the Silubium node core

A Dafny model of the parts of the Silubium node (a Bitcoin and Qtum descendant, written in C++) that carry its hardest
state and arithmetic, with proofs of what they keep, undo and compute.  `dafny verify dfyconfig.toml` checks the whole
project.

| component | modules |
|---|---|
| Address manager: consistency over all runs, Check_ as a decision procedure, serialization round trip | AddrTypes, AddrInvariant, AddrSteps, AddrManager, AddrCheck, AddrRun, AddrStream, AddrCapacity, AddrLoad, AddrSerialize, AddrRows, AddrUnserialize, AddrRoundTrip |
| Coins caches stacked over a database: refinement of plain maps | Coins, CoinsCaching, CoinsRun |
| Partial Merkle trees: soundness, completeness, sizes (section "Partial Merkle branch format" of BIP 37); the Merkle root and its test for repetitions | MerkleTree, MerklePartial, MerkleSizes, MerkleBits, MerkleProof, MerkleBlock, MerkleRoots |
| Script check queue: safety and progress of every interleaving | CheckQueueModel, CheckQueueSafety, CheckQueueProgress, CheckQueueing |
| Block assembler: package selection over any mempool graph, and that it is greedy | MinerPool, MinerModified, MinerScore, MinerGreedy, Miner |
| Compact block relay (BIP 152): exact reconstruction | CompactIndexes, CompactModel, CompactBlock, CompactRelay |
| Cuckoo cache: live elements under displacement, collection and epochs | CuckooModel, Cuckoo |
| Block index skip list and active chain | Chain, ActiveChain |
| 256-bit arithmetic on 32-bit limbs, compact targets, block proof | LimbValue, LimbShift, BaseUint, CompactTarget |
| Bech32 (section "Bech32" of BIP 173): round trip, error bursts and up to three errors anywhere | XorBits, Bech32Code, Bech32Field, Bech32Roots, Bech32Independence, Bech32Errors, Bech32 |
| Rolling Bloom filter: nothing recent forgotten, nothing stale kept | RollingBloom, RollingWords |
| Base58 and checked Base58 with the "SL" prefix | Digits, Base58 |

Wrappers, Collections, Powers and ByteBits hold result types and lemmas on sets, arithmetic and bits shared by several
components.

Objects whose methods change fields are classes, loops are loops, and each method is proved against functions and
predicates on values about which the lemmas speak.  Hash functions, clocks and random numbers are parameters, so the
results hold for all of them; where they must not collide this is a stated precondition.  Bucket tables are arrays with
a ghost map of their contents.  A check queue thread's local variables are part of the modelled state and each of its
critical sections is one step; wake-ups may be spurious.

Where the code and its own words differ the model follows the code:

- `Add_` can return true although the fresh entry was dropped again; `Clear` keeps pending collisions, so claims about
  collisions are for runs without it; `SelectTriedCollision_` inserts a blank entry under id -1 if the tried cell is empty.
- `SpendCoin` may return true for a coin that is already spent in the cache.
- The bound of 2N-1 flag bits fails for stored nodes with a single child; the exact condition is proved.
- An update of a modified entry deducts the base fee where a new entry deducts the modified fee; fees are modelled so, and
  something is claimed about them only where no fee was adjusted.
- A failed contract skips the update for the part of its package that did go in, so modified entries may claim too much;
  they never claim too little.
- The first displacement of a cuckoo insertion goes to the second place, not the first as the comment there says.
- `extra_count` of a partially downloaded block may go below zero: it is the number found with the extra transactions less
  the number found without them.
- `DecodeBase58Check` drops the first two characters of strings of 36 characters only, whatever they are.  So a payload
  comes back exactly if its checked encoding has 34 characters.  Addresses do; private keys, which `EncodeSecret` writes
  with the same prefix, never do.

## Model

| member | source | states |
|---|---|---|
| `AddrRun.Run` | src/addrman.cpp:81-614 | From an empty manager, any sequence of Add_, Good_, Attempt_, Connected_, GetAddr_, ResolveCollisions_ and SelectTriedCollision_, with any hashes, clock readings and random choices, keeps all tables consistent, and every step between the states returned is what its operation may do; if times are positive and the key is not zero, Check_ returns 0. |
| `AddrRun.Step` | src/addrman.cpp:81-614 | Each single operation does what it may do to the entries, tables and collisions, keeps them consistent, and keeps the recorded times in order if its clock reading is positive. |
| `AddrCheck.Check` | src/addrman.cpp:397-471 | On any contents of tables and indexes Check_ returns 0 exactly if every one of its tests passes, and otherwise a code whose fault is there; its lookups through operator[] change nothing if every address is indexed. |
| `AddrCheck.CheckEntries` | src/addrman.cpp:405-429 | The scan of the entries succeeds exactly if every entry passes its tests, and then has sorted the ids into the tried ones and the untried ones with their reference counts; a code names a fault that some entry has. |
| `AddrCheck.CheckTried` | src/addrman.cpp:436-448 | The scan succeeds with nothing left over exactly if every occupied cell holds a tried entry at its own bucket and position and every tried entry is met; a code names a cell with that fault, and what is left over are the tried entries without a cell. |
| `AddrCheck.CheckNew` | src/addrman.cpp:450-461 | The scan succeeds with nothing left over exactly if every occupied cell is an untried entry at its own position and every reference counted is met; a code names a cell with that fault, and what is left over are the entries with too few cells. |
| `AddrCheck.InvariantPasses` | src/addrman.cpp:397-471 | The invariant kept by the operations implies every test of Check_. |
| `AddrManager.AddrMan.constructor` | src/addrman.h:471-493 | A new manager is empty and consistent. |
| `AddrManager.AddrMan.Find` | src/addrman.cpp:68-79 | An address is found exactly if some entry has it, and then its id is returned. |
| `AddrManager.AddrMan.Create` | src/addrman.cpp:81-91 | A new entry under a new id with its data, all indexes consistent again, every other entry as it was. |
| `AddrManager.AddrMan.SwapRandom` | src/addrman.cpp:93-111 | Exchanging two places of the random list, for any two valid places, keeps list and back-pointers inverse to each other. |
| `AddrManager.AddrMan.Delete` | src/addrman.cpp:113-125 | Deleting an unreferenced untried entry removes it from every index and keeps the others. |
| `AddrManager.AddrMan.ClearNew` | src/addrman.cpp:127-140 | Emptying a cell takes one reference from its entry and deletes the entry if that was the last. |
| `AddrManager.AddrMan.RemoveFromNew` | src/addrman.cpp:144-154 | Every cell of the entry is emptied, whatever buckets they are in, and its count drops to zero. |
| `AddrManager.AddrMan.MakeTried` | src/addrman.cpp:142-188 | The entry moves from all its new cells to its tried cell; a tried entry in the way goes back to its own new cell, whose occupant loses a reference or is deleted. |
| `AddrManager.AddrMan.EvictTried` | src/addrman.cpp:160-182 | The entry in the way leaves the tried table and takes its new cell with one reference. |
| `AddrManager.AddrMan.EnterTried` | src/addrman.cpp:183-187 | The entry takes its tried cell and is counted there. |
| `AddrManager.AddrMan.LeaveTried` | src/addrman.cpp:162-170 | The old entry leaves its tried cell and is counted as new. |
| `AddrManager.AddrMan.EnterNew` | src/addrman.cpp:178-181 | The old entry takes the freed new cell with one reference. |
| `AddrManager.AddrMan.Good` | src/addrman.cpp:190-252 | An entry marked good gets the time as its last success and last try and loses its failures, and is moved, kept waiting for a collision test while fewer than ten wait, or only refreshed, exactly as its flags and tried cell say; an unknown service changes nothing. |
| `AddrManager.AddrMan.GoodKnown` | src/addrman.cpp:208-251 | The same for a known entry, with the whole new state given. |
| `AddrManager.AddrMan.FindNewBucket` | src/addrman.cpp:219-234 | A random start over all buckets always finds one that holds an untried entry, so the exit for none is never taken. |
| `AddrManager.AddrMan.Add` | src/addrman.cpp:254-325 | An unknown address becomes an untried entry with no history, one reference and its time less the penalty, and a known one keeps its history and gains services, a newer time after an hour or a day, and perhaps a reference; it takes a cell that is free or whose entry is terrible or over-referenced, and loses it to nothing else; the exact new state is given, including the case where a fresh entry is dropped again. |
| `AddrManager.AddrMan.AddInner` | src/addrman.cpp:254-325 | The same for routable addresses. |
| `AddrManager.AddrMan.ReferenceFactor` | src/addrman.cpp:290-293 | The stochastic test for a further reference has modulus two to the reference count. |
| `AddrManager.AddrMan.Place` | src/addrman.cpp:303-323 | The cell is taken if it is free, or its occupant terrible or over-referenced while the entry has none; a fresh entry without a cell is deleted. |
| `AddrManager.AddrMan.Attempt` | src/addrman.cpp:327-347 | Only the exactly matching service changes: its last try becomes the time given, and its attempts grow by one exactly if failures are to be counted and its last counted one is before the last good connection anywhere. |
| `AddrManager.AddrMan.Connected` | src/addrman.cpp:495-513 | Only the time of the exactly matching service changes, and exactly if it is older than twenty minutes. |
| `AddrManager.AddrMan.Draw` | src/addrman.cpp:485-487 | Some entry comes to the place drawn for; earlier places stay and the list stays a bijection. |
| `AddrManager.AddrMan.GetAddr` | src/addrman.cpp:474-493 | Entries are looked at one after the other, each at its own reading of the clock and none twice; of those looked at exactly the worthwhile ones are returned: tried in the last minute, or seen within 30 days and at most ten minutes ahead, having failed less than 3 times, or less than 10 times since it worked, or having worked within a week; up to 23 percent and 2500, and if fewer are returned every entry was looked at; no host is returned twice; only the order of the random list changes. |
| `AddrSteps.OfferedFrom` | src/addrman.cpp:480-492 | Whatever is returned is the address of an entry that was not terrible when looked at. |
| `AddrSteps.OfferedApart` | src/addrman.cpp:480-492 | No two addresses returned have the same host. |
| `AddrSteps.MaxAddresses` | src/addrman.cpp:476-478 | The limit is 23 percent, rounded down, and at most 2500. |
| `AddrManager.AddrMan.ResolveOne` | src/addrman.cpp:540-579 | One pending collision is dropped, kept, or resolved by moving its entry to the tried table; in seconds: an occupant that worked within four hours keeps its cell, one tried within four hours but more than a minute ago loses it, and otherwise the collision stays. |
| `AddrManager.AddrMan.ResolveCollisions` | src/addrman.cpp:537-587 | Every pending collision is answered exactly once, each answer by the rules for one collision on the state left by the one before, and exactly the resolved ones are dropped; tables and remaining collisions stay consistent. |
| `AddrManager.AddrMan.SelectTriedCollision` | src/addrman.cpp:589-614 | Returns the entry whose tried cell the chosen collision wants, or a blank one; a collision of a deleted entry is dropped; the tables stay consistent exactly if that cell is occupied, which consistent collisions guarantee, since otherwise the lookup inserts a blank entry under -1. |
| `AddrInvariant.UnrefKeeps` | src/addrman.cpp:127-140 | Taking one reference away keeps counts equal to the cells that hold an entry. |
| `AddrInvariant.RefKeeps` | src/addrman.cpp:314-317 | Giving a cell to an entry keeps counts equal to the cells that hold it. |
| `AddrInvariant.ScrubKeeps` | src/addrman.cpp:144-154 | Emptying every cell of an entry keeps all other counts. |
| `AddrInvariant.EvictKeeps` | src/addrman.cpp:167-170 | Taking an entry out of the tried table keeps all other tried positions. |
| `AddrInvariant.PromoteKeeps` | src/addrman.cpp:185-187 | Putting an entry into its empty tried cell keeps all positions. |
| `AddrInvariant.SwapKeepsRandom` | src/addrman.cpp:93-111 | A swap keeps the random list a bijection. |
| `AddrSteps.GoodStepKeeps` | src/addrman.cpp:190-252 | Whatever Good_ does: ids and services last, occupied tried cells stay occupied, times stay in order if the time is positive, and pending collisions stay resolvable. |
| `AddrSteps.AddStepKeeps` | src/addrman.cpp:254-325 | Whatever Add_ does: ids and services last and times stay in order. |
| `AddrSteps.OnwardKeepsCollisions` | src/addrman.cpp:537-587 | Ids only grow and occupied tried cells stay occupied, so pending collisions stay resolvable. |
| `AddrRoundTrip.RoundTrip` | src/addrman.h:315-469 | Writing any consistent manager and reading it back gives the same new and tried tables up to a renaming of ids, loses no entry, keeps all persisted fields and forgets all tries, and is consistent again. |
| `AddrRoundTrip.RestoredSame` | src/addrman.h:366-469 | The renaming is injective and explains both tables. |
| `AddrSerialize.Serialize` | src/addrman.h:316-363 | The stream written is exactly the format: version 1, key size 32, key, both counts, the bucket count 1024 with bit 30 flipped, untried records, tried records, and the index lists of the buckets; both asserts hold. |
| `AddrSerialize.WriteNew` | src/addrman.h:329-339 | Untried entries are written in order and numbered without gaps. |
| `AddrSerialize.WriteTried` | src/addrman.h:340-348 | Tried entries are written in order, as many as counted. |
| `AddrSerialize.WriteBucket` | src/addrman.h:350-361 | Each bucket is written as the number of its occupied cells and their new numbers in order. |
| `AddrUnserialize.Unserialize` | src/addrman.h:366-469 | Exactly which streams are accepted; then the new table is what the rows of the stream say, or the records' own cells for a stream of another shape; the entries are exactly the untried records with a cell and the tried records whose cell was free, with their persisted fields; the tables are consistent, and the indexes if the addresses kept are distinct; the stream of a loadable source is accepted and restored exactly. |
| `AddrUnserialize.ReadHeader` | src/addrman.h:372-392 | The header is accepted exactly if version and counts are acceptable. |
| `AddrUnserialize.ReadNew` | src/addrman.h:394-411 | Accepted exactly if the records are there; each becomes an untried entry under its position as id, with a random-list place; for a stream of another shape each also takes its own cell where that is free. |
| `AddrUnserialize.ReadTried` | src/addrman.h:414-432 | Accepted exactly if the records are there; exactly those whose tried cell no record kept before has are kept, in order, and the others are counted lost. |
| `AddrUnserialize.ReadBucket` | src/addrman.h:437-450 | Accepted exactly if the row is there; the cells filled are exactly those its indexes claim one after the other; nothing but reference counts changes in the entries. |
| `AddrUnserialize.Prune` | src/addrman.h:453-463 | Exactly the untried entries without a reference are deleted and all others keep their data. |
| `AddrUnserialize.PruneSurvives` | src/addrman.h:453-463 | After pruning, the ids are exactly those of untried records with a cell and of tried records kept, each with its fields. |
| `AddrUnserialize.Clear` | src/addrman.h:471-493 | Everything but the pending collisions is emptied. |
| `AddrStream.FlipTwice` | src/addrman.h:327-328 | Flipping bit 30 twice gives the bucket count back. |
| `AddrStream.RowsAt` | src/addrman.h:349-362 | Where the index lists of a bucket stand in the stream. |
| `AddrLoad.StateLoadable` | src/addrman.h:316-363 | A consistent state writes a stream that can be read back without loss: no two records claim one cell and no list is longer than a bucket. |
| `AddrCapacity.TableCapacity` | src/addrman.h:386-392 | Consistent tables never hold more than 65536 untried and 16384 tried entries, the limits the reader tests. |
| `CoinsRun.Run` | src/coins.cpp:40-218 | For a stack of any depth and any run of reads, permitted additions, spends, uncaching and flushes of the top layer, every layer shows what a plain map would, every read and spend is answered as the plain map would, and nothing is thrown. |
| `CoinsRun.Step` | src/coins.cpp:40-218 | One operation does to the shown maps what the plain operation does, gives its answer and throws nothing. |
| `CoinsRun.FlushStep` | src/coins.cpp:204-209 | A flush makes the map below equal the top one, changes no other and throws nothing. |
| `CoinsRun.SpendStep` | src/coins.cpp:99-113 | A spend removes the coin from the top map only and hands out the coin that was shown. |
| `CoinsCaching.CoinsCache.OnDatabase` | src/coins.cpp:34-34 | A cache over the database is empty and shows what the database holds. |
| `CoinsCaching.CoinsCache.OnCache` | src/coins.cpp:34-34 | A cache over a cache is empty and shows what that cache shows. |
| `CoinsCaching.CoinsDB.GetCoin` | src/coins.h:232-236 | A coin is returned exactly if it is unspent in the database. |
| `CoinsCaching.CoinsDB.BatchWrite` | src/txdb.cpp:98-139 | Dirty entries are written or erased and clean ones ignored; the best block is set. |
| `CoinsCaching.CoinsCache.FetchCoin` | src/coins.cpp:40-55 | A miss is looked up below and remembered without changing what any layer shows. |
| `CoinsCaching.CoinsCache.BaseGetCoin` | src/coins.h:232-236 | The view below answers with its unspent coin. |
| `CoinsCaching.CoinsCache.GetCoin` | src/coins.cpp:57-64 | Returns true and the coin exactly for what the layer shows; no view changes. |
| `CoinsCaching.CoinsCache.HaveCoin` | src/coins.cpp:126-129 | True exactly for what the layer shows; no view changes. |
| `CoinsCaching.CoinsCache.AccessCoin` | src/coins.cpp:117-124 | The coin shown, or a spent one if none is, the empty coin if nothing was cached; no view changes. |
| `CoinsCaching.CoinsCache.AddCoin` | src/coins.cpp:66-85 | The layer shows the new coin; it throws exactly for an unspent cached coin without the overwrite flag, and then nothing but the memory count has changed; the layer stays consistent exactly if overwriting was allowed, the coin was cached, or nothing lies below. |
| `CoinsCaching.CoinsCache.SpendCoin` | src/coins.cpp:99-113 | The layer no longer shows the coin; the result says whether an entry was cached or found, which may already be spent. |
| `CoinsCaching.CoinsCache.SpendCached` | src/coins.cpp:102-112 | A FRESH entry is erased and another one kept as a dirty spent entry; both show nothing. |
| `CoinsCaching.CoinsCache.Uncache` | src/coins.cpp:211-218 | An unmodified entry is dropped without changing any view. |
| `CoinsCaching.CoinsCache.BatchWrite` | src/coins.cpp:146-202 | The child entries are merged in any order with one result; it throws exactly if some FRESH flag is misapplied; the usage count stays exact. |
| `CoinsCaching.CoinsCache.WriteOne` | src/coins.cpp:148-198 | The four cases of one child entry. |
| `CoinsCaching.CoinsCache.Flush` | src/coins.cpp:204-209 | The view below becomes what this layer showed, this layer becomes empty and shows the same, no other layer changes, and nothing is thrown. |
| `CoinsCaching.AddCoins` | src/coins.cpp:87-97 | For any outputs: it throws exactly if overwrites are not checked, it is no coinbase and some spendable output would replace an unspent cached coin, with just the outputs before the first such one added; otherwise all spendable outputs are shown, and the layer stays consistent exactly if overwrites are checked, it is a coinbase, or no uncached output is in the view below. |
| `CoinsCaching.AddOutput` | src/coins.cpp:91-96 | One output is added with the flags of AddCoin, or skipped if it can never be spent; it throws exactly as AddCoin does. |
| `CoinsCaching.CacheWithOk` | src/coins.cpp:87-97 | The entries made for all outputs keep the flags truthful exactly if no uncached output is in the view below. |
| `Coins.FetchKeeps` | src/coins.cpp:40-55 | Remembering what lies below changes nothing shown and keeps the flags truthful. |
| `Coins.AddShows` | src/coins.cpp:66-85 | A new dirty entry is shown, and the layer stays consistent exactly if a FRESH one is not below. |
| `Coins.MergeShows` | src/coins.cpp:146-202 | Merging a child shows in the parent what the child showed, with truthful flags. |
| `Coins.NeverMisapplied` | src/coins.cpp:171-177 | With truthful flags the "FRESH flag misapplied" case cannot arise. |
| `Coins.MergeDbShows` | src/txdb.cpp:98-139 | Writing dirty entries makes the database equal what the cache showed. |
| `Coins.UsageUpdate` | src/coins.cpp:146-202 | The memory count follows an entry that is replaced. |
| `MerkleBlock.ExtractedAreTrue` | src/merkleblock.cpp:132-163 | Soundness: bits and hashes from anywhere, with the true transaction count, that extract to the true nonzero root report only txids that sit at their index, with strictly increasing indexes. |
| `MerkleBlock.BuiltExtracts` | src/merkleblock.cpp:60-163 | Completeness: what is built for distinct txids and any mask extracts to the root and exactly the matched txids and positions, also with padding bits. |
| `MerkleBlock.Relay` | src/merkleblock.cpp:60-163 | The same through packing, sending and unpacking into a peer; the hashes number at most the transactions and at most one more than matches times height. |
| `MerklePartial.ExtractSound` | src/merkleblock.cpp:78-114 | For every node: a traversal that returns the node's true hash found true leaves only, in order, within the node's range. |
| `MerklePartial.ExtractComplete` | src/merkleblock.cpp:60-114 | For every node: the traversal of what was stored for it returns its hash, uses up exactly what was stored, and finds exactly the matched leaves. |
| `MerkleTree.CollisionFreeBinds` | src/merkleblock.cpp:40-58 | Under a collision-free pair hash no tree node has a second preimage, which is all the proofs need. |
| `MerkleTree.NodesDiffer` | src/merkleblock.cpp:101-107 | With distinct txids no two nodes of a level have the same hash, so the duplicate test never rejects an honest tree. |
| `MerkleTree.WidthHalves` | src/merkleblock.h:66-69 | Each level has half as many nodes as the one below, rounded up. |
| `MerkleTree.NodeHasLeaf` | src/merkleblock.h:66-69 | A node exists exactly if its first leaf does. |
| `MerkleTree.HeightFrom` | src/merkleblock.cpp:125-127 | The loop finds the first height with at most one node. |
| `MerkleBlock.OutcomeKeepsIndex` | src/merkleblock.cpp:132-163 | Indexes already in the caller's vector stay in front of the new ones and influence nothing. |
| `MerkleSizes.BuildSizes` | src/merkleblock.h:31-48 | For every node: hashes number at most its leaves, at most one more than matches times height, and bits are twice the hashes less one plus the stored nodes with a single child. |
| `MerkleSizes.BitsBound` | src/merkleblock.h:41-48 | The documented 2N-1 bits are kept exactly if no level has an odd number of nodes below a last node with a match. |
| `MerkleSizes.BitsExceed` | src/merkleblock.h:41-48 | Three transactions with the last one matched need more than 2N-1 bits. |
| `MerkleBits.Pack` | src/merkleblock.h:99-102 | The packed bytes hold the bits, least significant first, and zeros after them. |
| `MerkleBits.Unpack` | src/merkleblock.h:92-97 | Every bit of the bytes is unpacked. |
| `MerkleBits.UnpackPacked` | src/merkleblock.h:88-105 | Unpacking what was packed gives the bits back with fewer than eight zeros behind. |
| `MerkleBlock.PartialMerkleTree.constructor` | src/merkleblock.cpp:116-129 | The partial tree of a nonempty list of txids holds exactly what is to be stored from its root. |
| `MerkleBlock.PartialMerkleTree.Empty` | src/merkleblock.cpp:131-131 | Nothing extracts from an empty tree. |
| `MerkleBlock.PartialMerkleTree.FindHeight` | src/merkleblock.cpp:125-127 | The loop finds the tree's height. |
| `MerkleBlock.PartialMerkleTree.TraverseAndBuild` | src/merkleblock.cpp:60-76 | Appends exactly the bits and hashes of the node. |
| `MerkleBlock.PartialMerkleTree.AnyMatch` | src/merkleblock.cpp:62-64 | The loop finds a match exactly if the node has a matched leaf. |
| `MerkleBlock.PartialMerkleTree.TraverseAndExtract` | src/merkleblock.cpp:78-114 | Advances the counters and the lists as the traversal function says, on any data. |
| `MerkleBlock.PartialMerkleTree.ExtractMatches` | src/merkleblock.cpp:132-163 | On any data: a root other than 0 comes out only of an unmarked tree with a plausible count, no more hashes than transactions and bits, and then some proof, a tree whose branches have different children, is written by exactly those hashes and bits, all of both used but for padding; and every proof so written decides root, matches and indexes. |
| `MerkleBlock.PartialMerkleTree.Write` | src/merkleblock.h:88-105 | Count, hashes and packed bits. |
| `MerkleBlock.PartialMerkleTree.Read` | src/merkleblock.h:88-105 | Any bytes become bits; the bad flag is cleared. |
| `CheckQueueSafety.EveryRun` | src/checkqueue.h:66-158 | For any number of workers and any interleaving, in every reachable state: nTodo is the queue plus the batches held, nIdle and nTotal are the waiting and the joined threads, every added check is in exactly one place, and every Wait so far returned true exactly if every check added for it ran and returned true. |
| `CheckQueueSafety.RunKeeps` | src/checkqueue.h:66-158 | The invariant is kept along any run. |
| `CheckQueueSafety.StepKeeps` | src/checkqueue.h:66-158 | Every critical section and every executed check keeps the invariant. |
| `CheckQueueSafety.Verdict` | src/checkqueue.h:88-97 | When nothing is queued or held, fAllOk is true exactly if all checks added have passed. |
| `CheckQueueSafety.WaitEnds` | src/checkqueue.h:88-97 | In any run the step that ends a Wait leaves nothing queued, counted or held by a thread and the master out, and appends one round for exactly the checks added, answered truly. |
| `CheckQueueSafety.RoundsCover` | src/checkqueue.h:146-158 | Every check ever added belongs to a finished Wait or to the current one. |
| `CheckQueueSafety.CleanKeeps` | src/checkqueue.h:77-82 | Clean-up never takes nTodo below zero and hands a failure over to fAllOk. |
| `CheckQueueSafety.AddAwakes` | src/checkqueue.h:146-158 | After Add, if any worker has joined, some worker is awake for the queued checks. |
| `CheckQueueModel.Share` | src/checkqueue.h:102-107 | A batch has exactly the fair share of the queued checks among the threads and the idle ones, rounded down, at least one and at most the batch size. |
| `CheckQueueModel.Taken` | src/checkqueue.h:109-114 | The batch is the last checks of the queue, none lost and none twice. |
| `CheckQueueProgress.BlockedMaster` | src/checkqueue.h:88-100 | A blocked master has an unfinished batch with some worker to wait for, or nothing is left and its wake-up is posted. |
| `CheckQueueProgress.SomeoneMoves` | src/checkqueue.h:75-117 | While the master is in Wait some thread can take a step that is no spurious wake-up. |
| `CheckQueueProgress.InternalMoves` | src/checkqueue.h:75-121 | Every such step uses up one of finitely many moves. |
| `CheckQueueProgress.WaitReturns` | src/checkqueue.h:140-143 | However the threads are scheduled, such steps end after a bounded number, with the master out of Wait. |
| `CheckQueueing.CheckQueue.constructor` | src/checkqueue.h:131-131 | A new queue is in the initial state. |
| `CheckQueueing.CheckQueue.Add` | src/checkqueue.h:146-158 | Appends the checks, counts them and notifies one or all workers. |
| `CheckQueueing.CheckQueue.Enter` | src/checkqueue.h:75-86 | A thread joins; the master may return at once with a true verdict. |
| `CheckQueueing.CheckQueue.Wake` | src/checkqueue.h:98-100 | A waiting thread goes on, notified or not. |
| `CheckQueueing.CheckQueue.Finish` | src/checkqueue.h:76-82 | A thread reports its batch and goes on. |
| `CheckQueueing.CheckQueue.Continue` | src/checkqueue.h:88-117 | A thread that holds the lock returns with the verdict, blocks, or takes a batch. |
| `CheckQueueing.CheckQueue.TakeBatch` | src/checkqueue.h:107-114 | The loop moves the last checks of the queue into the batch. |
| `CheckQueueing.CheckQueue.Execute` | src/checkqueue.h:119-121 | A check is run unless one has failed before. |
| `Miner.BlockAssembler.AddPackageTxs` | src/miner.cpp:905-1075 | Over any finite mempool and for any clock and contract outcome it ends; no transaction is added twice; each is final, came with a transaction that pays at least 10000 with its ancestors, and comes after all its in-mempool ancestors, also when a contract fails in the middle of a package; fees and counts follow; without contracts weight and sigops grow exactly by what is added and stay under their limits; if moreover there is no time limit and no fee was adjusted, the block is a replay of choices, each the best paying of all transactions not in it nor chosen before, taken with all its ancestors exactly if they fit and are final, until none is left, the best pays less than 10000, or the block is nearly full after 1001 different failures; and if every transaction pays enough, nothing that would fit is left out but in that last case. |
| `Miner.BlockAssembler.SelectPackage` | src/miner.cpp:1013-1074 | One chosen package leaves the block ordered and the modified map covering; what it adds is final and of the package; it adds nothing exactly if some member is not final; without contracts and time limit it is added as a whole and the modified map stays exact. |
| `Miner.BlockAssembler.AddPackage` | src/miner.cpp:1033-1073 | A package is added as a whole or up to a failure; the modified map stays disjoint from the block and covering; without contracts and time limit it is added as a whole, and the map stays exact if no fee was adjusted. |
| `Miner.BlockAssembler.AddEntries` | src/miner.cpp:1037-1063 | A prefix of the sorted package is added, the whole package leaves the modified map, and a failed choice from that map is marked as failed. |
| `Miner.BlockAssembler.AddEntry` | src/miner.cpp:1046-1060 | A plain transaction is always added; a contract may fail and then changes nothing. |
| `Miner.BlockAssembler.Choose` | src/miner.cpp:949-986 | Whatever is chosen is not in the block, its totals are enough, and neither an entry of the modified map nor the next one of mapTx ranks before it; without contracts none of those still to come pays more per byte. |
| `Miner.BlockAssembler.UpdatePackagesForAdded` | src/miner.cpp:852-877 | The map gains exactly the descendants of the additions, and from each entry exactly the sizes and sigops of its added ancestors are deducted, and their fees if none were adjusted. |
| `Miner.BlockAssembler.DeductFromDescendants` | src/miner.cpp:857-874 | The same for one addition. |
| `Miner.BlockAssembler.SortForBlock` | src/miner.cpp:894-903 | A permutation of the package by ancestor count and then by hash. |
| `Miner.BlockAssembler.OnlyUnconfirmed` | src/miner.cpp:660-671 | Exactly the members not in the block stay. |
| `Miner.BlockAssembler.TestPackageTransactions` | src/miner.cpp:687-696 | True exactly if all members are final. |
| `Miner.BlockAssembler.AddToBlock` | src/miner.cpp:833-850 | The block gets the transaction at its end and all totals follow. |
| `Miner.BlockAssembler.AttemptToAddContractToBlock` | src/miner.cpp:698-830 | Fails without any change or adds the transaction and all that its execution costs. |
| `Miner.BlockAssembler.StaysBelow` | src/miner.cpp:673-681 | However much of a package that passed the test goes in, the limits are kept. |
| `Miner.BlockAssembler.constructor` | src/miner.cpp:88-100 | A new block is empty with a weight of 4000 and 400 sigops reserved for the coinbase. |
| `MinerPool.SortedAncestors` | src/miner.h:162-172 | Sorting by ancestor count puts every ancestor before its descendants. |
| `MinerPool.SortedUnique` | src/miner.cpp:894-903 | With distinct hashes there is only one such permutation, so what goes into the block does not depend on how it is sorted. |
| `MinerPool.WeightFits` | src/policy/policy.cpp:249-252 | A package weighs at most four times its virtual size. |
| `MinerModified.DeductedCovers` | src/miner.cpp:852-877 | After an update every entry still claims at least what it would bring, and nothing in the map is in the block. |
| `MinerModified.NoUnderflow` | src/miner.h:194-206 | At no point of an update does an unsigned total go below zero. |
| `CompactRelay.Relay` | src/blockencodings.cpp:18-217 | With distinct short ids, no foreign candidate and no crowded bucket, announcing, matching against any mempool and extra transactions, requesting and filling gives exactly the sender's transactions. |
| `CompactRelay.FoundAgrees` | src/blockencodings.cpp:104-163 | Whatever the receiver found is the block's transaction at that position. |
| `CompactRelay.SendRequest` | src/blockencodings.h:38-68 | A request arrives as it was sent. |
| `CompactBlock.Announce` | src/blockencodings.cpp:18-28 | The coinbase is prefilled and the others are announced by short id in order. |
| `CompactBlock.PartiallyDownloadedBlock.InitData` | src/blockencodings.cpp:48-168 | For any message, mempool and extra transactions: exactly which messages are invalid and which fail, that prefilled transactions are in place, how far the candidates were looked at, and for each id that its position is untouched because none of those fits, holds its candidate, or is empty because two conflict; an id of exactly one candidate is found; the three counts are exact. |
| `CompactBlock.PartiallyDownloadedBlock.PlacePrefilled` | src/blockencodings.cpp:58-74 | A message is refused exactly if some prefilled transaction is null, beyond 16 bits, or leaves a position without an id. |
| `CompactBlock.PartiallyDownloadedBlock.MapShortIds` | src/blockencodings.cpp:80-102 | The i-th id belongs to the i-th free position; it fails exactly for colliding ids or a crowded bucket. |
| `CompactBlock.PartiallyDownloadedBlock.SkipTaken` | src/blockencodings.cpp:83-85 | The offset always finds a free position in range. |
| `CompactBlock.PartiallyDownloadedBlock.LookAt` | src/blockencodings.cpp:109-125 | One candidate fills an untouched position, empties a conflicting one, or leaves it; the count stays the number found. |
| `CompactBlock.PartiallyDownloadedBlock.MatchPool` | src/blockencodings.cpp:104-132 | Each id's position is untouched, holds its only candidate, or is empty because two conflict; an early stop means all were found. |
| `CompactBlock.PartiallyDownloadedBlock.MatchExtra` | src/blockencodings.cpp:134-163 | The same with extra transactions, where a repeat of the same witness hash is no conflict. |
| `CompactBlock.PartiallyDownloadedBlock.MissingIndexes` | src/net_processing.cpp:2653-2657 | Exactly the empty positions, in order. |
| `CompactBlock.PartiallyDownloadedBlock.FillBlock` | src/blockencodings.cpp:176-218 | Invalid exactly if the number of transactions sent is wrong; otherwise the empty positions are filled in order; unless too few are sent the object can not be used again. |
| `CompactBlock.Serve` | src/net_processing.cpp:1473-1487 | The transactions at the indexes, or nothing exactly if one is out of bounds. |
| `CompactIndexes.Write` | src/blockencodings.h:63-66 | Each index is written as the gap to the one before, wrapping as 64-bit. |
| `CompactIndexes.Read` | src/blockencodings.h:42-61 | Reading throws exactly if an index passes 16 bits, and otherwise sums the gaps up. |
| `CompactIndexes.RoundTrip` | src/blockencodings.h:38-68 | Reading what was written gives the same indexes exactly if they increase strictly. |
| `CompactIndexes.WriteRead` | src/blockencodings.h:38-68 | Writing what was read gives the same gaps. |
| `CompactIndexes.ReadIncreases` | src/blockencodings.h:55-61 | Whatever is read increases strictly within 16 bits. |
| `CompactModel.CompletedIsBlock` | src/blockencodings.cpp:182-190 | Positions that agree with a block, completed with its other transactions, are the block. |
| `Cuckoo.Cache.Insert` | src/cuckoocache.h:392-440 | After the epoch check the live elements gain e and lose at most one element, possibly e; every element keeps its epoch; nothing is lost if a place of e is free, and what is lost is lost after as many elements as the limit allows found no free place; old elements are given up exactly if the counter has run out and at least an epoch's size of recent ones is live, and the counter then starts anew at exactly what the recent ones leave to wait for. |
| `Cuckoo.Cache.InsertChecked` | src/cuckoocache.h:395-440 | The same without the epoch check. |
| `Cuckoo.Cache.PlaceElement` | src/cuckoocache.h:406-439 | The displacement loop loses at most the last element in hand, and only after its depth limit of elements found no free place. |
| `Cuckoo.Cache.KeepAt` | src/cuckoocache.h:400-405 | An element found is kept and becomes recent. |
| `Cuckoo.Cache.PutAt` | src/cuckoocache.h:408-415 | A free place takes the element in hand. |
| `Cuckoo.Cache.SwapAt` | src/cuckoocache.h:430-438 | The element in hand and that of a live place change roles, each with its epoch. |
| `Cuckoo.Cache.NextPlace` | src/cuckoocache.h:430-430 | The place after the last one in circle order, or the second place if the last is none of them. |
| `Cuckoo.Cache.FindCollected` | src/cuckoocache.h:408-410 | The first place marked for collection. |
| `Cuckoo.Cache.Find` | src/cuckoocache.h:469-476 | The first place that holds the element. |
| `Cuckoo.Cache.Contains` | src/cuckoocache.h:467-477 | True exactly if a place of the element holds it, collected or not, so for every live one; with erase exactly that element stops being live. |
| `Cuckoo.Cache.EpochCheck` | src/cuckoocache.h:289-321 | A new epoch starts exactly if the counter has run out and enough recent elements are live; then just those stay live and none is recent; the counter is set to the epoch size, to what it lacks, or to a sixteenth if that is more. |
| `Cuckoo.Cache.CountRecent` | src/cuckoocache.h:297-300 | The number of live elements of the current epoch. |
| `Cuckoo.Cache.NewEpoch` | src/cuckoocache.h:306-310 | Recent elements become old and old ones are given up. |
| `Cuckoo.Cache.AllowErase` | src/cuckoocache.h:266-269 | The slot is no longer live. |
| `Cuckoo.Cache.PleaseKeep` | src/cuckoocache.h:275-278 | The slot is live. |
| `Cuckoo.Cache.constructor` | src/cuckoocache.h:340-353 | A cache starts with every slot collectable, at least two slots, and an epoch of 45 percent of the slots, at least one, for which the counter waits. |
| `Cuckoo.BitPackedFlags.constructor` | src/cuckoocache.h:61-68 | All flags start set. |
| `Cuckoo.BitPackedFlags.Set` | src/cuckoocache.h:92-95 | Exactly one flag is set. |
| `Cuckoo.BitPackedFlags.Unset` | src/cuckoocache.h:103-106 | Exactly one flag is cleared. |
| `Cuckoo.HashesInRange` | src/cuckoocache.h:243-253 | All eight places are within the table. |
| `CuckooModel.LiveOnce` | src/cuckoocache.h:392-477 | A live element is in one live slot only, the first of its places that holds it. |
| `CuckooModel.Put` | src/cuckoocache.h:408-415 | Filling the first free place keeps this for all elements. |
| `CuckooModel.Swap` | src/cuckoocache.h:430-438 | A swap among live places keeps this for all elements. |
| `CuckooModel.Erase` | src/cuckoocache.h:467-477 | Collecting a slot loses just its element. |
| `Chain.BlockIndex.GetAncestor` | src/chain.cpp:83-108 | Skipping ends and equals walking back one by one; null exactly outside the branch. |
| `Chain.BlockIndex.BuildSkip` | src/chain.cpp:115-119 | The skip pointer leads to the ancestor at the skip height and the tree stays one. |
| `Chain.BlockIndex.constructor` | src/validation.cpp:4198-4210 | A new entry is one higher than its predecessor. |
| `Chain.AddBlock` | src/validation.cpp:4198-4210 | A new block with its skip pointer built extends the tree. |
| `Chain.InvertLowestOne` | src/chain.cpp:69-70 | The bitwise conjunction with the number before is less than a positive argument. |
| `Chain.LowestOne` | src/chain.cpp:69-70 | What n & (n - 1) takes off is the lowest one bit: the rest is a multiple of its double. |
| `Chain.SkipBelow` | src/chain.cpp:73-81 | The skip height is lower than the height. |
| `ActiveChain.ActiveChain.SetTip` | src/chain.cpp:11-21 | The vector becomes exactly the branch of the new tip, although the loop stops where the old branch is met. |
| `ActiveChain.ActiveChain.FindFork` | src/chain.cpp:51-60 | The highest block of the branch that is in the chain, or null exactly if none is. |
| `ActiveChain.ActiveChain.GetLocator` | src/chain.cpp:23-49 | Blocks of one branch from the start down to height 0, strictly descending, the first twelve one apart and the others at gaps that double; 13 entries or more need a start higher than two to the number of entries less twelve. |
| `ActiveChain.ActiveChain.GoBack` | src/chain.cpp:37-43 | Vector and skip list give the same ancestor. |
| `ActiveChain.LocatorLength` | src/chain.cpp:23-49 | The heights prescribed for n entries from 13 on need a start higher than 2^(n-12). |
| `ActiveChain.LocatorDescends` | src/chain.cpp:23-49 | While a prescribed height is above zero the next one is lower. |
| `ActiveChain.LastCommonAncestor` | src/chain.cpp:155-170 | The highest block both branches share, or null exactly if they share none; the assert holds. |
| `ActiveChain.MeetsPath` | src/chain.cpp:16-20 | Branches that share an entry share everything below it. |
| `BaseUint.BaseUint.constructor` | src/arith_uint256.h:55-63 | A 64-bit number is represented. |
| `BaseUint.BaseUint.Copy` | src/arith_uint256.h:40-46 | The same number in its own limbs. |
| `BaseUint.BaseUint.Assign` | src/arith_uint256.h:48-53 | The other number's limbs, also for itself. |
| `BaseUint.BaseUint.Add` | src/arith_uint256.h:133-143 | The sum modulo 2^BITS; no 64-bit intermediate overflows. |
| `BaseUint.BaseUint.Subtract` | src/arith_uint256.h:145-149 | The difference modulo 2^BITS. |
| `BaseUint.BaseUint.Negated` | src/arith_uint256.h:75-82 | The negative modulo 2^BITS. |
| `BaseUint.BaseUint.Complemented` | src/arith_uint256.h:67-73 | 2^BITS - 1 less the number. |
| `BaseUint.BaseUint.Increment` | src/arith_uint256.h:171-178 | One more, modulo 2^BITS. |
| `BaseUint.BaseUint.Decrement` | src/arith_uint256.h:188-195 | One less, modulo 2^BITS. |
| `BaseUint.BaseUint.MulWord` | src/arith_uint256.cpp:57-67 | The product with a 32-bit number modulo 2^BITS; no intermediate overflows. |
| `BaseUint.BaseUint.Mul` | src/arith_uint256.cpp:69-83 | The product modulo 2^BITS, also with itself. |
| `BaseUint.BaseUint.AddRow` | src/arith_uint256.cpp:74-79 | One row of the multiplication; no 64-bit intermediate overflows. |
| `BaseUint.BaseUint.ShiftLeft` | src/arith_uint256.cpp:23-38 | Multiplication by the power of two modulo 2^BITS, for any shift. |
| `BaseUint.BaseUint.ShiftRight` | src/arith_uint256.cpp:40-55 | Division by the power of two, for any shift. |
| `BaseUint.BaseUint.CompareTo` | src/arith_uint256.cpp:111-121 | The order of the numbers. |
| `BaseUint.BaseUint.EqualTo` | src/arith_uint256.cpp:123-135 | Equality with a 64-bit number. |
| `BaseUint.BaseUint.GetLow64` | src/arith_uint256.h:246-250 | The number modulo 2^64. |
| `BaseUint.BaseUint.Bits` | src/arith_uint256.cpp:193-206 | The position of the highest bit plus one, or zero. |
| `BaseUint.BaseUint.Divide` | src/arith_uint256.cpp:85-109 | The floor quotient for every nonzero divisor; division by zero throws. |
| `BaseUint.BaseUint.DivideLoop` | src/arith_uint256.cpp:99-106 | Quotient times divisor plus remainder is always the number, and the remainder less than twice the shifted divisor. |
| `LimbShift.LeftValue` | src/arith_uint256.cpp:23-38 | Limbs moved left represent the multiple modulo 2^BITS. |
| `LimbShift.RightValue` | src/arith_uint256.cpp:40-55 | Limbs moved right represent the quotient. |
| `CompactTarget.SetCompact` | src/arith_uint256.cpp:229-247 | Overflow is flagged exactly if the scaled mantissa reaches 2^256; otherwise the number is exactly it, floored below size 3; the sign flag exactly for a nonzero mantissa with the bit. |
| `CompactTarget.GetCompact` | src/arith_uint256.cpp:249-270 | The top three bytes with the sign bit kept free; both asserts hold. |
| `CompactTarget.OverflowIs` | src/arith_uint256.cpp:242-245 | The three comparisons are the condition that the number does not fit 256 bits. |
| `CompactTarget.GetThenSet` | src/arith_uint256.cpp:229-270 | Setting what was gotten never exceeds the number and loses at most its 2^15th part. |
| `CompactTarget.SetThenGet` | src/arith_uint256.cpp:229-270 | A number once gotten and set has the same compact form again. |
| `CompactTarget.Kept` | src/arith_uint256.cpp:229-270 | What is kept is the number cut off to its unit. |
| `CompactTarget.GetBlockProof` | src/chain.cpp:121-134 | Floor of 2^256 over target plus one for every accepted nonzero target and zero otherwise; nothing wraps or divides by zero. |
| `Bech32.RoundTrip` | src/bech32.cpp:147-190 | Any lower-case prefix and 5-bit values of at most 90 characters in all decode to themselves. |
| `Bech32.BurstRejected` | src/bech32.cpp:159-190 | Changing up to six neighbouring data characters of an accepted string, without writing a separator, gives an accepted string exactly if only the case of letters changed and cases are not mixed. |
| `Bech32.ThreeRejected` | src/bech32.cpp:159-190 | The same for up to three data characters anywhere in the string. |
| `Bech32Errors.ThreeDetected` | src/bech32.cpp:46-48 | Sequences that differ in up to three values within a window of 1023 have different checksums. |
| `Bech32Errors.SparseNonzero` | src/bech32.cpp:46-48 | Up to three values other than zero within a window of 1023 never have the checksum of zeros. |
| `Bech32Errors.StepAgrees` | src/bech32.cpp:66-91 | On states as polynomials over GF(32) the step is multiplication by x modulo the generator. |
| `Bech32Independence.ThreePowers` | src/bech32.cpp:44-49 | Multiples of three powers of x within 1023, not all zero, have a sum that the generator does not divide. |
| `Bech32Independence.AtTimesX` | src/bech32.cpp:44-58 | The generator has three roots in GF(1024), successive powers of one element: at each, multiplying a state by x multiplies its value by the root. |
| `Bech32Independence.Vandermonde` | src/bech32.cpp:46-48 | Three equations with successive powers of two different multipliers have only the zero solution. |
| `Bech32Roots.Order` | src/bech32.cpp:46-48 | No power below the 1023rd of the field's generator fixes an element other than zero. |
| `Bech32.Encode` | src/bech32.cpp:147-156 | Prefix, separator, letters of the values and of a checksum that makes them good. |
| `Bech32.Decode` | src/bech32.cpp:159-190 | Prefix and data of exactly the well-formed strings with a good checksum, and two empty things otherwise. |
| `Bech32.EncodedIsAccepted` | src/bech32.cpp:147-190 | Encoded strings are accepted and read back as what was encoded. |
| `Bech32.CreateChecksum` | src/bech32.cpp:128-139 | Six values that make the checksum good. |
| `Bech32.VerifyChecksum` | src/bech32.cpp:118-125 | The checksum of expanded prefix and values is 1. |
| `Bech32.PolyMod` | src/bech32.cpp:37-94 | The loop computes the fold of the step. |
| `Bech32.ExpandHRP` | src/bech32.cpp:103-115 | High bits, a zero, low bits. |
| `Bech32.CheckChars` | src/bech32.cpp:160-167 | Bad exactly for an unprintable character or mixed case. |
| `Bech32.FindSeparator` | src/bech32.cpp:168-168 | The last separator. |
| `Bech32.ReadValues` | src/bech32.cpp:172-181 | All values, exactly if all characters are in the set. |
| `Bech32.LetterIndex` | src/bech32.cpp:13-25 | Letters and reverse table are inverse; no letter is a separator or upper case. |
| `Bech32Code.StepLinear` | src/bech32.cpp:80-91 | The step respects exclusive or. |
| `Bech32Code.StepInjective` | src/bech32.cpp:80-91 | The step without a value maps nothing but zero to zero. |
| `Bech32Code.FoldLinear` | src/bech32.cpp:64-94 | The checksum of a sum is the sum of the checksums. |
| `Bech32Code.BurstDetected` | src/bech32.cpp:37-94 | Sequences that differ only within six neighbouring values have different checksums. |
| `RollingBloom.RollingBloomFilter.Insert` | src/bloom.cpp:256-285 | Every key of the last two full generations and the current one stays findable under its own or a later generation, and no position is set without such a key of the matching age. |
| `RollingBloom.RecentAreFound` | src/bloom.cpp:256-305 | Each of the last 2 * nEntriesPerGeneration keys, and those of the current generation besides, is reported present. |
| `RollingBloom.RollingBloomFilter.Contains` | src/bloom.cpp:293-305 | True exactly if every place of the key is set. |
| `RollingBloom.RollingBloomFilter.Wipe` | src/bloom.cpp:264-272 | The packed masks clear exactly the positions of one generation. |
| `RollingBloom.RollingBloomFilter.WriteKey` | src/bloom.cpp:276-284 | Every place of the key gets the current generation and no other place changes. |
| `RollingBloom.RollingBloomFilter.Reset` | src/bloom.cpp:313-321 | All words are zero and nothing is remembered. |
| `RollingBloom.RollingBloomFilter.constructor` | src/bloom.cpp:216-241 | A new filter remembers nothing, is in its first generation and has only zero words; a generation holds half of the elements, rounded up. |
| `RollingBloom.FastModInRange` | src/bloom.cpp:252-254 | The scaled hash is within the words. |
| `RollingBloom.RollOver` | src/bloom.cpp:258-273 | A new generation wipes only what was two generations old. |
| `RollingWords.WipeOnWords` | src/bloom.cpp:264-272 | On 64-bit words the masks and their combination have exactly the bits of the model. |
| `RollingWords.MarkOnWord` | src/bloom.cpp:282-283 | On 64-bit words clearing and setting a place has exactly the bits of the model. |
| `RollingWords.TestOnWords` | src/bloom.cpp:300-301 | The shifted test of two words is the model's test of the place. |
| `Base58.RoundTrip` | src/base58.cpp:34-121 | Decoding undoes encoding for every byte string. |
| `Base58.EncodeBase58` | src/base58.cpp:83-121 | A one for each leading zero, then the digits of the number without leading zeros. |
| `Base58.DecodeBase58` | src/base58.cpp:34-81 | Which strings decode, with spaces around, and to which bytes. |
| `Base58.MulAdd` | src/base58.cpp:97-107 | The carry loop multiplies and adds in place; the carry left is zero. |
| `Base58.Convert` | src/base58.cpp:92-113 | The digits in the other base without leading zeros. |
| `Base58.EncodedDecodes` | src/base58.cpp:34-121 | An encoded string is readable and nothing but its bytes decodes from it. |
| `Base58.EncodeSize` | src/base58.cpp:92-94 | The estimate 138/100 is always enough. |
| `Base58.DecodeSize` | src/base58.cpp:46-48 | The estimate 733/1000 is always enough. |
| `Base58.EncodeBase58Check` | src/base58.cpp:133-140 | "SL" and the encoding of the data with its check. |
| `Base58.DecodeBase58Check` | src/base58.cpp:142-158 | Strings of 36 characters lose two; the rest must decode to data and its check, and nothing is returned exactly otherwise. |
| `Base58.AddressLength` | src/chainparams.cpp:159-160 | A version byte of 3 to 143, which 68 and 130 are, 20 bytes and the check make exactly 34 digits. |
| `Base58.CheckRoundTrip` | src/base58.cpp:133-158 | A payload comes back exactly if its checked encoding has 34 characters, which is said of its leading zeros and its number alone; with a version byte other than zero only 21 bytes with a version of 2 to 144 can come back, and with 3 to 143 they always do. |
| `Base58.SecretRoundTrip` | src/key_io.cpp:149-160 | A private key of 32 bytes, compressed or not, is never read back from its own checked encoding. |
| `Base58.SecretLost` | src/key_io.cpp:149-160 | A concrete key whose encoding is refused. |
| `Base58.EncodedLength` | src/base58.cpp:83-121 | An encoding has 34 characters exactly if leading zeros and the size of the number say so. |
| `Base58.VersionDecides` | src/base58.cpp:133-158 | With a version byte other than zero 34 characters take 25 bytes; which of those is decided by the version but for 2 and 144. |
| `Base58.PrefixStays` | src/base58.cpp:142-158 | A string that keeps the "SL" never decodes to the bytes that were encoded behind it. |
| `AddrManager.AddrMan.GoesOn` | src/addrman.cpp:278-295 | The chain of early returns for a known entry. |
| `AddrManager.AddrMan.CreateAnnounced` | src/addrman.cpp:297-300 | A fresh entry with its penalized time, counted as new. |
| `AddrManager.AddrMan.GoodNoTest` | src/addrman.cpp:570-577 | Good_ without the collision test records no collision. |
| `AddrManager.AddrMan.ResolveTurn` | src/addrman.cpp:540-585 | One collision answered, and dropped exactly if resolved. |
| `AddrTypes.TriedBucket` | src/addrman.cpp:12-17 | The tried bucket is in range for any hash. |
| `AddrTypes.NewBucket` | src/addrman.cpp:19-25 | The new bucket is in range for any hash. |
| `AddrTypes.BucketPosition` | src/addrman.cpp:27-31 | The position is in range for any hash. |
| `AddrSerialize.WriteBuckets` | src/addrman.h:349-362 | All buckets are written one after the other. |
| `AddrUnserialize.ReadEntries` | src/addrman.h:394-433 | Both record lists are read exactly if they are there, the tried ones where they fit; for a stream of another shape the untried ones take their own cells. |
| `AddrUnserialize.ReadIndex` | src/addrman.h:442-449 | One index of any value takes its cell exactly if it names an untried entry with fewer than eight references and the cell is free. |
| `AddrUnserialize.ReadBuckets` | src/addrman.h:436-451 | Accepted exactly if all rows are there; the table is what the rows say one after the other; the rows written restore it exactly. |
| `AddrUnserialize.ReadPlaces` | src/addrman.h:435-463 | Rows and pruning together: exactly the untried records with a cell and all tried ones kept survive, in consistent tables. |
| `AddrUnserialize.AllFit` | src/addrman.h:414-432 | Records of distinct tried cells are all kept. |
| `AddrRows.RowsMissing` | src/addrman.h:436-451 | If a row is missing so are all rows behind it. |
| `Coins.UncacheKeeps` | src/coins.cpp:211-218 | Dropping an unmodified entry changes nothing shown. |
| `Coins.EraseSpends` | src/coins.cpp:106-107 | Erasing a FRESH entry shows nothing there. |
| `Coins.ClearSpends` | src/coins.cpp:108-111 | A dirty spent entry shows nothing there. |
| `CheckQueueing.CheckQueue.Return` | src/checkqueue.h:88-97 | The master returns the verdict and a new round begins. |
| `CheckQueueing.CheckQueue.Block` | src/checkqueue.h:98-100 | A thread waits and is counted idle. |
| `CheckQueueing.CheckQueue.Take` | src/checkqueue.h:102-116 | A thread takes its share and the current verdict. |
| `CheckQueueing.CheckQueue.NotifyMaster` | src/checkqueue.h:80-82 | A waiting master is notified. |
| `MinerModified.EnoughPays` | src/miner.cpp:988-992 | Where every transaction pays the minimum no package is turned down for its fees. |
| `MinerModified.DeductedBounded` | src/miner.cpp:852-877 | An update drops no entry and lets none claim more than the transaction with all its ancestors. |
| `Miner.BlockAssembler.TooLarge` | src/miner.cpp:673-681 | What fails the test by its current totals does not fit with all its ancestors either. |
| `BaseUint.BaseUint.SetBitAt` | src/arith_uint256.cpp:102-102 | A quotient bit is set without touching the others. |
| `BaseUint.TopBit` | src/arith_uint256.cpp:193-206 | The highest bit of a nonzero limb. |
| `CompactTarget.TopBytes` | src/arith_uint256.cpp:251-258 | Size in bytes and top three bytes of any number. |
| `CompactTarget.Join` | src/arith_uint256.cpp:265-268 | Size, sign and mantissa in disjoint bits. |
| `Bech32.SameButCase` | src/bech32.cpp:159-190 | A change of case alone is accepted unless it mixes cases. |
| `Base58.CheckBack` | src/base58.cpp:133-158 | What decodes from a checked encoding is the payload. |
| `AddrCheck.PassesIsInvariant` | src/addrman.cpp:397-471 | But for stray addresses and ids never given out, the tests of Check_ are exactly the invariant, with sane times and a key. |
| `AddrCheck.CheckEntry` | src/addrman.cpp:406-429 | One entry passes exactly if all its tests do; a code names the fault it has. |
| `AddrTypes.TerribleIs` | src/addrman.cpp:33-51 | An entry is terrible exactly if it is not worthwhile, said in seconds. |
| `AddrTypes.TriedSpread` | src/addrman.cpp:12-17 | The addresses of one group use at most 8 tried buckets. |
| `AddrTypes.NewSpread` | src/addrman.cpp:19-25 | The addresses heard from one source group use at most 64 new buckets. |
| `AddrTypes.NewTogether` | src/addrman.cpp:19-25 | Addresses of one group heard from one source group share one new bucket. |
| `AddrSteps.AddMeans` | src/addrman.cpp:254-325 | What Add_ does to entries and cells, in terms of the announcement and the entries alone. |
| `AddrSteps.GoodMeans` | src/addrman.cpp:190-252 | What Good_ does to the entry, when it is tried afterwards and when a collision is recorded, in terms of the time, the entry and its cell alone. |
| `AddrSteps.GoodTakes` | src/addrman.cpp:190-252 | An untried entry marked good without the test takes its cell of the tried table. |
| `AddrSteps.OfferedExactly` | src/addrman.cpp:480-492 | Of the entries looked at exactly the worthwhile ones are offered. |
| `MerkleProof.WalkWritten` | src/merkleblock.cpp:78-114 | For every node: walking what a branch writes gives its root, matches and places, uses up exactly that, and finds equal siblings. |
| `MerkleProof.WalkedIsWritten` | src/merkleblock.cpp:78-114 | For every node: whatever is walked with nothing bad was written by some branch without equal siblings. |
| `MerkleBlock.OutcomeProves` | src/merkleblock.cpp:132-163 | Whatever extracts to a root other than 0 was written by a proof of that root. |
| `MerkleBlock.ProofDecides` | src/merkleblock.cpp:132-163 | What a proof wrote extracts to its root, matches and places. |
| `MerkleBlock.NothingToSpare` | src/merkleblock.cpp:155-160 | One more hash or one more byte of bits makes it extract to 0. |
| `MerkleRoots.ComputeMerkleRoot` | src/consensus/merkle.cpp:45-66 | The loop computes the hash of the tree over the list, and reports mutation exactly if two neighbours of some level are equal. |
| `MerkleRoots.SameRootSameList` | src/consensus/merkle.cpp:9-42 | Under a collision-free hash two lists of one tree height, with one root and no neighbours equal, are one list. |
| `MerkleRoots.RepetitionSameRoot` | src/consensus/merkle.cpp:9-42 | A list and the same list with its last transaction repeated have one root, which is why equal neighbours are looked for. |
| `MinerScore.ComparesByRank` | src/miner.h:106-160 | The comparison of two packages is the order of their ranks: without contract by what they pay per byte, then contracts that create, then those that only call, each by waiting ancestors, gas price and size, and at last by hash. |
| `MinerScore.CompareIsOrder` | src/miner.h:106-160 | The comparison is a strict order in which only entries of one hash can be level, as a sorted index needs. |
| `MinerScore.RateIs` | src/txmempool.h:384-400 | The fee and size that count give the lower of the two rates of transaction and package. |
| `MinerGreedy.ExactMore` | src/miner.cpp:852-877 | An update keeps the modified map exact: it has every transaction with an ancestor in the block, not chosen before, with just what is left of its totals. |
| `MinerGreedy.ChoicePaysBest` | src/miner.cpp:949-986 | With an exact map the choice pays the most per byte of all transactions not in the block nor chosen before. |
| `Miner.BlockAssembler.SelectPackages` | src/miner.cpp:905-1075 | The loop of the selection, with the same promises. |
| `Miner.BlockAssembler.TakePackage` | src/miner.cpp:1013-1074 | A package that passed the size test extends the replay by one choice, taken exactly if all is final. |
| `Miner.BlockAssembler.BestModified` | src/miner.cpp:953-953 | No entry of the modified map ranks before the one found. |
| `Cuckoo.Cache.RecentCounted` | src/cuckoocache.h:297-300 | Counting recent slots counts recent elements. |
| `CuckooModel.CountIsSize` | src/cuckoocache.h:297-300 | No element is counted twice. |
| `Chain.SkipIs` | src/chain.cpp:73-81 | An even height skips to itself without its lowest one bit, an odd one to the height before without its two lowest, plus one. |
| `ActiveChain.LocatorShape` | src/chain.cpp:23-49 | The prescribed heights in closed form. |
| `Base58.Alphabet` | src/base58.cpp:14-14 | The 58 letters in their order. |
| `Bech32.CharacterSet` | src/bech32.cpp:13-13 | The 32 letters in their order. |
| `CoinsCaching.WithOutputsAt` | src/coins.cpp:87-97 | What adding outputs shows at every outpoint. |

## Left out

- AddrUnserialize.ReadHeader: does not model negative entry counts; the stream is one of tokens, not of bytes, and maps are walked by ascending id.
- CAddrMan::Select_ and GetChance: floating-point odds and an end only with probability one.
- CAddrMan::SetServices_: changes one field that nothing depends on.
- Miner.BlockAssembler.AttemptToAddContractToBlock: does not model the contract engine; success and cost are arbitrary, and the value transfer transactions it appends are not listed in vtx.
- MinerScore.CompareModifiedEntry: does not model rounding; fees and sizes are compared exactly instead of in double precision.
- Miner.BlockAssembler.Choose: does not model the order of mapTx, which for contracts is another one; what it says of entries still to come is for a mempool without contracts in that order.
- Miner.BlockAssembler.UpdatePackagesForAdded: does not count the updated descendants, and states nothing about fees adjusted by hand, which depend on the order of updates.
- Miner.BlockAssembler.AddPackageTxs: does not state which transactions are preferred, nor completeness, with contracts, a time limit or adjusted fees.
- The mempool's cached ancestor totals are taken to be right; keeping them so is the mempool's part.
- MerkleBlock.PartialMerkleTree.ExtractMatches: does not model transaction counts so large that 32-bit widths wrap; the limit test refuses them first.
- CMerkleBlock and the matching of transactions by a Bloom filter: a mask stands for the result.
- CompactBlock.PartiallyDownloadedBlock.InitData: does not model the bucket size test, whose outcome is a parameter, nor logging.
- CompactBlock.PartiallyDownloadedBlock.FillBlock: does not model CheckBlock, whose outcome is a parameter.
- Cuckoo.Cache.constructor: does not model the logarithm for the depth limit, which is a parameter of at least one.
- RollingBloom.RollingBloomFilter.constructor: does not model the sizing formulas with logarithms; their results are parameters.
- CBloomFilter: the fixed filter would add only easier members.
- ActiveChain.ActiveChain.GetLocator: does not model heights so large that the step wraps, and lists entries instead of their hashes.
- CChain::FindEarliestAtLeast, Next and Genesis: a library search and two accessors.
- GetBlockProofEquivalentTime, SetHex, GetHex and getdouble: conversions around the arithmetic.
- CheckQueueing.CheckQueue.Add: does not model the destructor-driven Wait of CCheckQueueControl nor thread interruption.
- CoinsCaching.CoinsDB.BatchWrite: does not model splitting into batches, the head blocks marker or crash recovery.
- Coin compression, undo data, and AccessByTxid: easier members around the caches.
- Bech32.ThreeRejected: does not cover a fourth error, whose detection within 89 characters the comment also claims; that rests on a search over all patterns, not on the roots of the generator.
- Base58.DecodeBase58: is the overload for C strings; buffer lengths beyond the range of int are not modelled.
