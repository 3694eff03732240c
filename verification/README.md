# Cache hierarchy simulator — a Dafny model

This project models the simulation engine in `Assignment_files/cache_sim.cc`.
The engine is a trace-driven simulator of an L1 cache. The L1 may have a small
fully-associative victim cache (VC) and a next level (an L2). It is modelled
as pure functions over immutable values:

- A **block** (`CacheBlock.Block`) is a tag with a valid bit and a dirty bit.
- A **set** (`CacheSet`) is a list of exactly `assoc` blocks, most recently used (MRU) first.
- The **victim cache** (`VictimCache`) is an MRU-first list of `numBlocks` blocks.
- A **cache level** (`CacheSim.Cache`) holds `numSets` sets, an optional VC, an optional next level and seven counters.
- `HandleRead` and `HandleWrite` return the new state of the level and of every level below it.
- `BlockList` holds the list operations that sets and the VC share. Both are `std::list`s in the source. The shared operations are:
  - the scan from MRU to LRU for a valid tag;
  - the splice of a position to the front.
- `Simulation` models the driver's construction of the hierarchy (`Assignment_files/test1.cpp`) and its replay of a trace.

The code has these quirks, and the model keeps them:

- **A VC is never short of blocks.** It is created holding `numBlocks` invalid blocks, so it is always at capacity. Every insertion drops the LRU entry.
- **A VC hit does not remove the block from the VC.** The block is moved to the VC's MRU position and a copy is installed in the set. With two or more VC entries the block is then held in both places (`VictimSwap`). The VC itself can come to hold two valid copies of one tag, one clean and one dirty. A VC lookup then promotes the first (most recent) copy (`VictimCache.FindBlock`).
- **A write hit does not set the dirty bit of the stored block.** The source marks a local copy. A block installed clean by a read miss stays clean after later write hits (`ReadMissThenWriteStaysClean`).
- **A read miss that goes to the next level counts two read misses.** A write miss counts one (`ReadMiss`, `WriteMiss`).
- **A read that is served by the VC installs the block clean**, whatever its dirty bit in the VC was.
- **A write miss reads the next level.** It does not write it.

Preconditions:

- **The constructor** requires `blockSize * assoc > 0`. The source divides by this product.
- **The handlers** require the shape the constructor establishes (`CacheSim.Valid`):
  - at least one set, each with `assoc > 0` blocks (the source computes `% numSets` and takes the set's back block);
  - a VC, if there is one, with positive capacity and at capacity;
  - the same shape at the next level.
- `NewCache` proves that a constructor call with `size >= blockSize * assoc` yields such a level.

## Model

| member | source | states |
|---|---|---|
| CacheBlock.Empty | Assignment_files/cache_sim.cc:12 | the default block is invalid, clean and has tag 0 |
| CacheBlock.Invalidate | Assignment_files/cache_sim.cc:15-18 | invalidation clears the valid and dirty bits and keeps the tag |
| BlockList.InvalidateFrees | Assignment_files/cache_sim.cc:15-18 | invalidating a valid entry of a list with unique tags gives the list a free slot and removes the tag from it. Every other entry is kept, and tags stay unique and in their home set |
| BlockList.MoveToFront | Assignment_files/cache_sim.cc:95-97 | the reference splice: the entering entry is at the front and the length is kept |
| BlockList.MoveToFrontShifts | Assignment_files/cache_sim.cc:95-97 | behind the front, the entries before the chosen position move back one place and the entries after it stay put, so only the chosen entry leaves |
| BlockList.FirstMatch | Assignment_files/cache_sim.cc:93-94 | the reference first match: the position holds a valid entry with the tag and no earlier position does |
| BlockList.FindAndPromote | Assignment_files/cache_sim.cc:92-102 | the scan hits iff some valid entry carries the tag. On a hit it returns the first such entry and the list with that entry spliced to the front. On a miss the list is unchanged and the default block is returned |
| BlockList.MoveToFrontUnique | Assignment_files/cache_sim.cc:94-97 | moving an entry to the front keeps valid tags unique, provided the entering entry clashes with none left behind |
| BlockList.MoveToFrontMultiset | Assignment_files/cache_sim.cc:95-97 | a splice replaces exactly one occurrence of the moved entry by the entering one |
| CacheSet.New | Assignment_files/cache_sim.cc:84-89 | a new set holds `assoc` invalid blocks: it has a free slot iff `assoc > 0`, and no tag is found in it |
| CacheSet.FindBlock | Assignment_files/cache_sim.cc:92-102 | lookup hits iff a valid block has the tag. On a hit the first matching block is spliced to MRU with the rest in order, and the returned copy is that block. The set keeps its length, and is unchanged on a miss |
| CacheSet.FindBlockPermutes | Assignment_files/cache_sim.cc:92-102 | lookup only reorders the set (multiset equality) |
| CacheSet.HasSpace | Assignment_files/cache_sim.cc:116-121 | true iff some block of the set is invalid |
| CacheSet.FirstFree | Assignment_files/cache_sim.cc:124-125 | the first invalid block from the MRU end: it is invalid and every block before it is valid |
| CacheSet.InsertBlock | Assignment_files/cache_sim.cc:123-135 | with a free slot, the first free slot becomes a valid block with the tag and moves to MRU, and every other block keeps its order. With no free slot the set is unchanged |
| CacheSet.EvictAndInsert | Assignment_files/cache_sim.cc:105-114 | the LRU block is returned as evicted, and a valid block with the tag and dirty bit enters at MRU in its place |
| CacheSet.EvictAndInsertReplacesLru | Assignment_files/cache_sim.cc:105-114 | the set's multiset loses exactly the LRU block and gains the new block |
| CacheSet.InstallKeepsInvariant | Assignment_files/cache_sim.cc:218-227 | installing a tag that missed, into the set its tag maps to, keeps tags unique and every valid block in its home set |
| CacheSet.PromoteKeepsInvariant | Assignment_files/cache_sim.cc:93-98 | promoting a hit keeps tags unique and at home |
| VictimCache.New | Assignment_files/cache_sim.cc:28-33 | a new VC holds `numBlocks` invalid blocks: it is at capacity and no tag is found in it |
| VictimCache.FindBlock | Assignment_files/cache_sim.cc:35-43 | lookup hits iff a valid entry has the tag. A hit splices the FIRST matching entry to MRU, keeps it in the VC and leaves the other entries in their order; a miss changes nothing. Capacity and length are kept |
| VictimCache.FindBlockPermutes | Assignment_files/cache_sim.cc:35-43 | VC lookup only reorders the entries |
| VictimCache.Insert | Assignment_files/cache_sim.cc:50-55 | the block enters at MRU. At capacity the LRU entry is dropped first and the length is kept; below capacity every old entry stays, one place back |
| VictimCache.InsertDropsExactlyLru | Assignment_files/cache_sim.cc:50-55 | at capacity, insertion removes exactly the LRU entry from the multiset and adds the new block |
| VictimCache.SwapBlock | Assignment_files/cache_sim.cc:45-48 | the evicted block becomes the MRU entry and every older entry moves one place back. At capacity the VC stays at capacity and its multiset loses exactly the LRU entry and gains the evicted block; below capacity it grows by one |
| VictimCache.SwapIgnoresTag | Assignment_files/cache_sim.cc:45-48 | the swap's result does not depend on its tag argument |
| CacheSim.NewCache | Assignment_files/cache_sim.cc:167-174 | the level stores the given `size`, `assoc` and `blockSize` (which `GetTag` and `GetIndex` read), `numSets = size / (blockSize * assoc)`, and every set is a new set. There is a VC iff `victimSize > 0`. All counters are zero. The level is well-formed when `size >= blockSize * assoc` |
| CacheSim.GetTag | Assignment_files/cache_sim.cc:179-181 | the address lies in block number `tag` (`tag * blockSize <= address < (tag + 1) * blockSize`) |
| CacheSim.GetIndex | Assignment_files/cache_sim.cc:183-185 | the index is below `numSets` and is the remainder of the tag divided by `numSets` |
| CacheSim.SwapIn | Assignment_files/cache_sim.cc:200-207 | the set becomes a valid block with the tag at MRU followed by all its old blocks but the LRU one, in order; the LRU block becomes the VC's MRU entry. The VC keeps capacity and stays at capacity. Both swap counters rise by one. Other sets and the next level are unchanged |
| CacheSim.Install | Assignment_files/cache_sim.cc:218-227 | the tag enters the set at MRU. With a free slot the VC is unchanged; otherwise the VC keeps its capacity. Other sets, the counters and the next level are unchanged |
| CacheSim.Fetch | Assignment_files/cache_sim.cc:213-216 | the next level, if any, is read at the same address and stays well-formed. The sets and the VC are unchanged |
| CacheSim.HandleRead | Assignment_files/cache_sim.cc:187-228 | after a read the addressed block is valid at MRU of its set, and the other sets are unchanged. Reads rise by one and write counters are unchanged. No counter decreases. The counter relations and the shape of the hierarchy are kept |
| CacheSim.HandleReadMiss | Assignment_files/cache_sim.cc:198-227 | the miss path of a read has the same outcome as a read: the block is resident at MRU and the counters are related as above |
| CacheSim.HandleWrite | Assignment_files/cache_sim.cc:230-266 | after a write the addressed block is valid at MRU of its set, and the other sets are unchanged. Writes rise by one and read counters are unchanged. No counter decreases. The counter relations and the shape are kept |
| CacheSim.HandleWriteMiss | Assignment_files/cache_sim.cc:241-265 | the miss path of a write has the same outcome as a write |
| CacheProperties.ReadHit | Assignment_files/cache_sim.cc:191-196 | a read hit counts one read and nothing else, moves the first matching block to MRU, and leaves the VC and the next level untouched |
| CacheProperties.WriteHit | Assignment_files/cache_sim.cc:234-239 | a write hit counts one write and nothing else and promotes the block. The stored dirty bit is unchanged |
| CacheProperties.ReadMiss | Assignment_files/cache_sim.cc:198-216 | a read miss adds 2 read misses when there is a next level and the VC did not serve it, and 1 otherwise. A swap is counted iff the VC served it. The next level is read exactly when it exists and the VC did not serve the miss |
| CacheProperties.WriteMiss | Assignment_files/cache_sim.cc:241-256 | a write miss adds exactly one write miss. The next level is READ (never written) unless the VC served the miss |
| CacheProperties.VictimSwap | Assignment_files/cache_sim.cc:200-207 | on a VC hit both swap counters rise by one, and the set becomes the new block followed by all but its LRU block. The old LRU block is the VC's MRU entry, followed by the promoted VC (its first match spliced to the front) shifted back one place, so its LRU entry leaves. The VC keeps its length and the next level is not consulted. With two or more VC entries the VC still holds the tag |
| CacheProperties.SwapPath | Assignment_files/cache_sim.cc:198-207 | on a VC hit a handler counts the access and its miss and then performs exactly the swap |
| CacheProperties.FullMiss | Assignment_files/cache_sim.cc:218-227 | on a miss in both the set and the VC: with a free slot the tag fills the first free slot and the VC is unchanged. Otherwise it replaces the LRU block, which enters the VC if there is one. No swap is counted |
| CacheProperties.ReadKeepsCounters | Assignment_files/cache_sim.cc:187-228 | a read keeps the counter relations at every level of the hierarchy, and counts no write at any level |
| CacheProperties.WriteKeepsCounters | Assignment_files/cache_sim.cc:230-266 | a write keeps the counter relations at every level, and the levels below it count no write, since they are only read |
| CacheProperties.ReadKeepsCoherent | Assignment_files/cache_sim.cc:187-228 | a read keeps every level coherent: tags unique per set, and each valid block in the set its tag maps to |
| CacheProperties.WriteKeepsCoherent | Assignment_files/cache_sim.cc:230-266 | a write keeps every level coherent |
| CacheProperties.SetStaysCoherent | Assignment_files/cache_sim.cc:193-227 | the accessed set stays coherent under a read or a write |
| Simulation.BuildHierarchy | Assignment_files/test1.cpp:47-52 | the L1 stores the given size, associativity and block size. The driver's L2 exists iff its size is positive, has that size, has no VC and no next level, and shares the L1 block size. The L1 has a VC iff its VC size is positive, and then with that many entries. With sizes at least one set's worth, the hierarchy is well-formed and coherent. The counter relations hold at both levels and the L2 has counted no write |
| Simulation.Step | Assignment_files/test1.cpp:77-84 | a trace entry counts one read or one write at the top level, as its operation says |
| Simulation.Run | Assignment_files/test1.cpp:70-89 | replaying a trace counts its reads and its writes exactly. No counter decreases, and the counter relations and the shape are kept |
| Simulation.CountersHoldOnAnyTrace | Assignment_files/test1.cpp:47-89 | from the driver's freshly built hierarchy, after any trace, write misses never exceed writes, swaps equal VC swaps, and writebacks are zero, at the L1 and at the L2. The L2 has counted no write and no write miss. The hierarchy stays well-formed and coherent |
| Simulation.RunKeepsCounters | Assignment_files/test1.cpp:70-89 | replaying any trace keeps the counter relations at every level, and the levels below the top count no write |
| Simulation.RunKeepsCoherent | Assignment_files/test1.cpp:70-89 | replaying any trace keeps the hierarchy coherent |
| Simulation.ReadAgainHits | Assignment_files/cache_sim.cc:187-228 | after any read or write of an address, reading it again hits: one more read and no more read misses |
| Simulation.ReadMissThenWriteStaysClean | Assignment_files/cache_sim.cc:218-239 | a block installed by a read miss is still clean at MRU after a write hit on it |
| Simulation.FirstReadThenHit | Assignment_files/cache_sim.cc:167-228 | on a new 4096-byte 2-way cache with 64-byte blocks, address 0x1A2B3C4D has tag 6860017 and set 17 of 32. The first read counts one miss and leaves a clean valid block at MRU; a second read hits |

## Left out

- Printing (`VictimCache::printContent`, `CacheSet::displayBlocks`, `Cache::printContents`, `printStatistics`, `printVictimContents`): output only.
- `VictimCache::evictBlock` (lines 56-63): no caller in the engine or the driver.
- The `writeBack` and `writeAllocate` members: they are declared but never set or read.
- The constructor `CacheBlock(int)`: nothing uses it.
- `VictimCache::blockSize`: it is stored but never read.
- Fixed-width integers: tags and addresses are `unsigned long` and counters are `int`. The model uses unbounded naturals, so wrap-around is not modelled. With a next level every read miss adds 2 to `numReadMisses`, so that counter would wrap after about 2^30 read misses; the other counters after 2^31 events.
- The destructor, and the heap ownership of the VC and the next level: a VC and a next level are optional values here.
- Configurations that divide by zero in the source (`blockSize * assoc == 0`, or fewer bytes than one set so that `numSets == 0`): these are excluded by preconditions, because the source's behaviour there is undefined.
- Negative configuration values: the source's sizes, associativity and block size are `int`, and the model takes them as naturals, so negative configurations are ruled out by the types. The VC size stays an `int`, and a non-positive value means no VC, as in the source.
- The driver's argument parsing, trace-file reading and error exits (`Assignment_files/test1.cpp`): I/O. A trace is given as a sequence of accesses with addresses already parsed.
- `test.cpp`: a test program written against an older interface of the classes, in which a VC is built separately and passed by pointer. It is not part of this model.
