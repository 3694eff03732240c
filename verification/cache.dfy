/** One level of the cache hierarchy: a set-associative array of sets, an
    optional victim cache, an optional next level and the running counters.
    Every operation returns the new state of the level (and, through it, of
    the levels below). */
module CacheSim {

  import opened Wrappers
  import opened CacheBlock
  import opened BlockList
  import CacheSet
  import VictimCache

  /** The counters a level keeps; all start at zero. */
  datatype Stats = Stats(
    numReads: nat, numReadMisses: nat,
    numWrites: nat, numWriteMisses: nat,
    numSwaps: nat, numSwapsFromVC: nat,
    numWritebacks: nat)

  /** `size`, `assoc` and `blockSize` are the configuration; `numSets` is
      derived from them at construction. */
  datatype Cache = Cache(
    size: nat, assoc: nat, blockSize: nat, numSets: nat,
    sets: seq<seq<Block>>,
    next: Option<Cache>,
    victim: Option<VictimCache.VictimCache>,
    stats: Stats)

  /** The shape every constructed level keeps: positive geometry, `numSets`
      sets of `assoc` blocks each, a victim cache (if any) holding exactly its
      positive capacity, and a next level (if any) of the same shape. */
  predicate Valid(c: Cache)
    decreases c
  {
    && c.blockSize > 0 && c.assoc > 0
    && c.numSets == c.size / (c.blockSize * c.assoc) && c.numSets > 0
    && |c.sets| == c.numSets
    && (forall i :: 0 <= i < |c.sets| ==> |c.sets[i]| == c.assoc)
    && (c.victim.Some? ==> c.victim.value.numBlocks > 0 && VictimCache.Full(c.victim.value))
    && (c.next.Some? ==> Valid(c.next.value))
  }

  /** `r` has the configuration and the attached components of `c`. */
  predicate SameShape(c: Cache, r: Cache) {
    && r.size == c.size && r.assoc == c.assoc && r.blockSize == c.blockSize && r.numSets == c.numSets
    && r.next.Some? == c.next.Some?
    && r.victim.Some? == c.victim.Some?
    && (c.victim.Some? ==> r.victim.value.numBlocks == c.victim.value.numBlocks)
  }

  /** Relations between the counters that the protocol keeps: a write miss is
      a write, a read counts at most two read misses, every swap is a
      victim-cache swap accompanying a miss, and writebacks are never counted. */
  predicate CountersAgree(st: Stats) {
    && st.numWriteMisses <= st.numWrites
    && st.numReadMisses <= 2 * st.numReads
    && st.numSwaps == st.numSwapsFromVC
    && st.numSwaps <= st.numReadMisses + st.numWriteMisses
    && st.numWritebacks == 0
  }

  /** The counter relations hold at this level and at every level below it. */
  predicate AllCountersAgree(c: Cache)
    decreases c
  {
    && CountersAgree(c.stats)
    && (c.next.Some? ==> AllCountersAgree(c.next.value))
  }

  /** Neither this level nor any level below it has counted a write: the
      levels below the top are only ever read. */
  predicate ReadsOnly(c: Cache)
    decreases c
  {
    && c.stats.numWrites == 0 && c.stats.numWriteMisses == 0
    && (c.next.Some? ==> ReadsOnly(c.next.value))
  }

  /** No counter of `b` is below the same counter of `a`. */
  predicate NoDecrease(a: Stats, b: Stats) {
    && a.numReads <= b.numReads && a.numReadMisses <= b.numReadMisses
    && a.numWrites <= b.numWrites && a.numWriteMisses <= b.numWriteMisses
    && a.numSwaps <= b.numSwaps && a.numSwapsFromVC <= b.numSwapsFromVC
    && a.numWritebacks <= b.numWritebacks
  }

  /** Within each set valid tags are unique and every valid block sits in the
      set its tag maps to; the same holds at every level below. */
  predicate Coherent(c: Cache)
    decreases c
  {
    && c.numSets > 0
    && (forall i :: 0 <= i < |c.sets| ==> UniqueTags(c.sets[i]) && LivesIn(c.sets[i], i, c.numSets))
    && (c.next.Some? ==> Coherent(c.next.value))
  }

  /** The constructor: `size / (blockSize * assoc)` sets of `assoc` invalid
      blocks, a victim cache of `victimSize` invalid blocks when `victimSize`
      is positive and none otherwise, and all counters zero. */
  function NewCache(size: nat, assoc: nat, blockSize: nat, next: Option<Cache>, victimSize: int): (c: Cache)
    requires blockSize * assoc > 0
    ensures c.size == size && c.assoc == assoc && c.blockSize == blockSize
    ensures c.numSets == size / (blockSize * assoc) && |c.sets| == c.numSets
    ensures forall i :: 0 <= i < |c.sets| ==> c.sets[i] == CacheSet.New(assoc)
    ensures c.next == next
    ensures c.victim.Some? <==> victimSize > 0
    ensures victimSize > 0 ==> c.victim == Some(VictimCache.New(victimSize as nat))
    ensures c.stats == Stats(0, 0, 0, 0, 0, 0, 0)
    ensures size >= blockSize * assoc && (next.Some? ==> Valid(next.value)) ==> Valid(c)
    ensures next.Some? ==> (Coherent(next.value) <==> Coherent(c)) || c.numSets == 0
    ensures next.None? && c.numSets > 0 ==> Coherent(c)
  {
    var numSets := size / (blockSize * assoc);
    var vc := if victimSize > 0 then Some(VictimCache.New(victimSize as nat)) else None;
    var c := Cache(size, assoc, blockSize, numSets, seq(numSets, _ => CacheSet.New(assoc)), next, vc, Stats(0, 0, 0, 0, 0, 0, 0));
    assert forall i :: 0 <= i < |c.sets| ==> UniqueTags(c.sets[i]) && (numSets > 0 ==> LivesIn(c.sets[i], i, numSets));
    assert size >= blockSize * assoc ==> numSets > 0 by {
      if size >= blockSize * assoc {
        DivAtLeastOne(size, blockSize * assoc);
      }
    }
    c
  }

  lemma DivAtLeastOne(a: nat, b: nat)
    requires 0 < b <= a
    ensures a / b > 0
  {
  }

  /** The block address: the address falls in block `tag` of size `blockSize`. */
  function GetTag(c: Cache, address: nat): (tag: nat)
    requires c.blockSize > 0
    ensures tag * c.blockSize <= address < (tag + 1) * c.blockSize
  {
    address / c.blockSize
  }

  /** The set an address maps to: the remainder of the tag divided by the
      number of sets. */
  function GetIndex(c: Cache, address: nat): (index: nat)
    requires c.blockSize > 0 && c.numSets > 0
    ensures index < c.numSets
    ensures GetTag(c, address) == (GetTag(c, address) / c.numSets) * c.numSets + index
  {
    (address / c.blockSize) % c.numSets
  }

  /** A miss on `tag` in set `index` is served by the victim cache: there is
      one, the set has no free slot, and the victim cache holds `tag`. */
  predicate VictimHit(c: Cache, index: nat, tag: nat)
    requires index < |c.sets|
  {
    c.victim.Some? && !HasFree(c.sets[index]) && Contains(c.victim.value.blocks, tag)
  }

  /** The swap after a victim-cache hit: the set's LRU block is evicted and a
      valid copy of `tag` enters at MRU; the evicted block enters the
      (already promoted) victim cache; both swap counters rise. */
  function SwapIn(c: Cache, index: nat, tag: nat, dirty: bool): (r: Cache)
    requires index < |c.sets| && |c.sets[index]| > 0
    requires c.victim.Some? && c.victim.value.numBlocks > 0
    ensures Valid(c) ==> Valid(r) && SameShape(c, r)
    ensures r.size == c.size && r.assoc == c.assoc && r.blockSize == c.blockSize && r.numSets == c.numSets
    ensures |r.sets| == |c.sets| && |r.sets[index]| == |c.sets[index]|
    ensures r.sets[index][0] == Block(tag, true, dirty)
    ensures r.sets[index] == MoveToFront(c.sets[index], |c.sets[index]| - 1, Block(tag, true, dirty))
    ensures forall j :: 0 <= j < |c.sets| && j != index ==> r.sets[j] == c.sets[j]
    ensures r.victim.Some? && r.victim.value.numBlocks == c.victim.value.numBlocks
    ensures VictimCache.Full(c.victim.value) ==> VictimCache.Full(r.victim.value)
    ensures |r.victim.value.blocks| > 0 && r.victim.value.blocks[0] == c.sets[index][|c.sets[index]| - 1]
    ensures r.stats == c.stats.(numSwaps := c.stats.numSwaps + 1, numSwapsFromVC := c.stats.numSwapsFromVC + 1)
    ensures r.next == c.next
  {
    var promoted := VictimCache.FindBlock(c.victim.value, tag).1;
    var ev := CacheSet.EvictAndInsert(c.sets[index], tag, dirty);
    c.(sets := c.sets[index := ev.blocks],
       victim := Some(VictimCache.SwapBlock(promoted, tag, ev.evicted)),
       stats := c.stats.(numSwaps := c.stats.numSwaps + 1, numSwapsFromVC := c.stats.numSwapsFromVC + 1))
  }

  /** The victim cache after a swap: the promoted one with the evicted block
      swapped in. */
  lemma SwapInVictim(c: Cache, index: nat, tag: nat, dirty: bool)
    requires index < |c.sets| && |c.sets[index]| > 0
    requires c.victim.Some? && c.victim.value.numBlocks > 0
    ensures SwapIn(c, index, tag, dirty).victim == Some(VictimCache.SwapBlock(VictimCache.FindBlock(c.victim.value, tag).1, tag, c.sets[index][|c.sets[index]| - 1]))
  {
  }

  /** Installing `tag` after a full miss: into the first free slot when there
      is one; otherwise over the LRU block, which then enters the victim cache
      if there is one. Counters and the next level are untouched. */
  function Install(c: Cache, index: nat, tag: nat, dirty: bool): (r: Cache)
    requires index < |c.sets| && |c.sets[index]| > 0
    requires c.victim.Some? ==> c.victim.value.numBlocks > 0
    ensures Valid(c) ==> Valid(r) && SameShape(c, r)
    ensures r.size == c.size && r.assoc == c.assoc && r.blockSize == c.blockSize && r.numSets == c.numSets
    ensures |r.sets| == |c.sets| && |r.sets[index]| == |c.sets[index]|
    ensures r.sets[index][0] == Block(tag, true, dirty)
    ensures forall j :: 0 <= j < |c.sets| && j != index ==> r.sets[j] == c.sets[j]
    ensures HasFree(c.sets[index]) ==> r.victim == c.victim
    ensures r.victim.Some? == c.victim.Some?
    ensures c.victim.Some? ==> r.victim.value.numBlocks == c.victim.value.numBlocks
    ensures c.victim.Some? && VictimCache.Full(c.victim.value) ==> VictimCache.Full(r.victim.value)
    ensures r.stats == c.stats && r.next == c.next
  {
    var s := c.sets[index];
    if CacheSet.HasSpace(s) then
      c.(sets := c.sets[index := CacheSet.InsertBlock(s, tag, dirty)])
    else
      var ev := CacheSet.EvictAndInsert(s, tag, dirty);
      c.(sets := c.sets[index := ev.blocks],
         victim := if c.victim.Some? then Some(VictimCache.Insert(c.victim.value, ev.evicted)) else None)
  }

  /** A read of `address`. A hit counts the read and promotes the block to
      MRU; a miss takes the read-miss path. */
  function HandleRead(c: Cache, address: nat): (r: Cache)
    requires Valid(c)
    ensures Valid(r) && SameShape(c, r)
    ensures Holds(r.sets[GetIndex(c, address)][0], GetTag(c, address))
    ensures forall j :: 0 <= j < |c.sets| && j != GetIndex(c, address) ==> r.sets[j] == c.sets[j]
    ensures r.stats.numReads == c.stats.numReads + 1
    ensures r.stats.numWrites == c.stats.numWrites && r.stats.numWriteMisses == c.stats.numWriteMisses
    ensures NoDecrease(c.stats, r.stats)
    ensures CountersAgree(c.stats) ==> CountersAgree(r.stats)
    decreases c, 2
  {
    var tag := GetTag(c, address);
    var index := GetIndex(c, address);
    var lookup := CacheSet.FindBlock(c.sets[index], tag);
    if lookup.hit then
      c.(sets := c.sets[index := lookup.blocks], stats := c.stats.(numReads := c.stats.numReads + 1))
    else
      HandleReadMiss(c, address)
  }

  /** The rest of a read whose set lookup missed. The read and the miss are
      counted; if the set is full and the victim cache holds the block, the
      two swap; otherwise the next level (if any) is read, which counts a
      second read miss here, and the block is installed clean. */
  function HandleReadMiss(c: Cache, address: nat): (r: Cache)
    requires Valid(c)
    requires !Contains(c.sets[GetIndex(c, address)], GetTag(c, address))
    ensures Valid(r) && SameShape(c, r)
    ensures Holds(r.sets[GetIndex(c, address)][0], GetTag(c, address))
    ensures forall j :: 0 <= j < |c.sets| && j != GetIndex(c, address) ==> r.sets[j] == c.sets[j]
    ensures r.stats.numReads == c.stats.numReads + 1
    ensures r.stats.numWrites == c.stats.numWrites && r.stats.numWriteMisses == c.stats.numWriteMisses
    ensures NoDecrease(c.stats, r.stats)
    ensures CountersAgree(c.stats) ==> CountersAgree(r.stats)
    decreases c, 1
  {
    var tag := GetTag(c, address);
    var index := GetIndex(c, address);
    var missed := c.(stats := c.stats.(numReads := c.stats.numReads + 1, numReadMisses := c.stats.numReadMisses + 1));
    if c.victim.Some? && !CacheSet.HasSpace(c.sets[index]) && VictimCache.FindBlock(c.victim.value, tag).0 then
      SwapIn(missed, index, tag, false)
    else
      var st := if c.next.Some? then missed.stats.(numReadMisses := missed.stats.numReadMisses + 1) else missed.stats;
      Install(Fetch(c, address, st), index, tag, false)
  }

  /** `c` with counters `st`, after the fetch from the next level that a miss
      makes: when there is a next level, it is read at the same address (a
      READ even when the miss was a write). Nothing else changes. */
  function Fetch(c: Cache, address: nat, st: Stats): (r: Cache)
    requires Valid(c)
    ensures Valid(r) && SameShape(c, r)
    ensures r.sets == c.sets && r.victim == c.victim && r.stats == st
    ensures r.size == c.size && r.assoc == c.assoc && r.blockSize == c.blockSize && r.numSets == c.numSets
    ensures r.next == if c.next.Some? then Some(HandleRead(c.next.value, address)) else None
    decreases c, 0
  {
    if c.next.Some? then c.(next := Some(HandleRead(c.next.value, address)), stats := st)
    else c.(stats := st)
  }

  /** A write of `address`. A hit counts the write and promotes the block to
      MRU; the source sets the dirty bit on a local copy of the block, so the
      stored block keeps its bit. A miss takes the write-miss path. */
  function HandleWrite(c: Cache, address: nat): (r: Cache)
    requires Valid(c)
    ensures Valid(r) && SameShape(c, r)
    ensures Holds(r.sets[GetIndex(c, address)][0], GetTag(c, address))
    ensures forall j :: 0 <= j < |c.sets| && j != GetIndex(c, address) ==> r.sets[j] == c.sets[j]
    ensures r.stats.numWrites == c.stats.numWrites + 1
    ensures r.stats.numReads == c.stats.numReads && r.stats.numReadMisses == c.stats.numReadMisses
    ensures NoDecrease(c.stats, r.stats)
    ensures CountersAgree(c.stats) ==> CountersAgree(r.stats)
  {
    var tag := GetTag(c, address);
    var index := GetIndex(c, address);
    var lookup := CacheSet.FindBlock(c.sets[index], tag);
    if lookup.hit then
      c.(sets := c.sets[index := lookup.blocks], stats := c.stats.(numWrites := c.stats.numWrites + 1))
    else
      HandleWriteMiss(c, address)
  }

  /** The rest of a write whose set lookup missed. The write and the miss are
      counted once each; if the set is full and the victim cache holds the
      block, the two swap; otherwise the next level (if any) is READ and the
      block is installed dirty. */
  function HandleWriteMiss(c: Cache, address: nat): (r: Cache)
    requires Valid(c)
    requires !Contains(c.sets[GetIndex(c, address)], GetTag(c, address))
    ensures Valid(r) && SameShape(c, r)
    ensures Holds(r.sets[GetIndex(c, address)][0], GetTag(c, address))
    ensures forall j :: 0 <= j < |c.sets| && j != GetIndex(c, address) ==> r.sets[j] == c.sets[j]
    ensures r.stats.numWrites == c.stats.numWrites + 1
    ensures r.stats.numReads == c.stats.numReads && r.stats.numReadMisses == c.stats.numReadMisses
    ensures NoDecrease(c.stats, r.stats)
    ensures CountersAgree(c.stats) ==> CountersAgree(r.stats)
  {
    var tag := GetTag(c, address);
    var index := GetIndex(c, address);
    var missed := c.(stats := c.stats.(numWrites := c.stats.numWrites + 1, numWriteMisses := c.stats.numWriteMisses + 1));
    if c.victim.Some? && !CacheSet.HasSpace(c.sets[index]) && VictimCache.FindBlock(c.victim.value, tag).0 then
      SwapIn(missed, index, tag, true)
    else
      Install(Fetch(c, address, missed.stats), index, tag, true)
  }
}
