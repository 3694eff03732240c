/** Replaying a trace of accesses against a hierarchy, as the driver does, and
    two small scenarios: a first read misses, and a second read of the same
    address hits. */
module Simulation {

  import opened Wrappers
  import opened CacheBlock
  import opened BlockList
  import opened CacheSim
  import opened CacheProperties

  /** One trace entry: `r <address>` or `w <address>`. */
  datatype Access = Read(address: nat) | Write(address: nat)

  /** Number of reads in a trace. */
  function ReadCount(trace: seq<Access>): nat {
    if |trace| == 0 then 0 else (if trace[0].Read? then 1 else 0) + ReadCount(trace[1..])
  }

  /** The driver's hierarchy: an L2 (when its size is positive) built with no
      victim cache and no next level, sharing the L1 block size, under an L1
      with a victim cache of `vcBlocks` entries. */
  function BuildHierarchy(l1Size: nat, l1Assoc: nat, blockSize: nat, vcBlocks: int, l2Size: int, l2Assoc: nat): (l1: Cache)
    requires blockSize * l1Assoc > 0
    requires l2Size > 0 ==> blockSize * l2Assoc > 0
    ensures l1.size == l1Size && l1.assoc == l1Assoc && l1.blockSize == blockSize
    ensures l1.next.Some? <==> l2Size > 0
    ensures l1.next.Some? ==> l1.next.value.size == l2Size
    ensures l1.next.Some? ==> l1.next.value.next.None? && l1.next.value.victim.None?
    ensures l1.next.Some? ==> l1.next.value.blockSize == blockSize && l1.next.value.assoc == l2Assoc
    ensures l1.victim.Some? <==> vcBlocks > 0
    ensures vcBlocks > 0 ==> l1.victim.value.numBlocks == vcBlocks as nat
    ensures l1Size >= blockSize * l1Assoc && (l2Size > 0 ==> l2Size >= blockSize * l2Assoc) ==> Valid(l1) && Coherent(l1)
    ensures AllCountersAgree(l1)
    ensures l1.next.Some? ==> ReadsOnly(l1.next.value)
  {
    var l2 := if l2Size > 0 then Some(NewCache(l2Size as nat, l2Assoc, blockSize, None, 0)) else None;
    NewCache(l1Size, l1Assoc, blockSize, l2, vcBlocks)
  }

  /** One trace entry, dispatched on its operation. */
  function Step(c: Cache, a: Access): (r: Cache)
    requires Valid(c)
    ensures Valid(r) && SameShape(c, r)
    ensures r.stats.numReads == c.stats.numReads + (if a.Read? then 1 else 0)
    ensures r.stats.numWrites == c.stats.numWrites + (if a.Write? then 1 else 0)
    ensures NoDecrease(c.stats, r.stats)
    ensures CountersAgree(c.stats) ==> CountersAgree(r.stats)
  {
    match a
    case Read(address) => HandleRead(c, address)
    case Write(address) => HandleWrite(c, address)
  }

  /** Replays `trace` in order on the top level of the hierarchy. Every read
      and write is counted, no counter decreases, and the counter relations
      and the shape of the hierarchy are kept. */
  function Run(c: Cache, trace: seq<Access>): (r: Cache)
    requires Valid(c)
    ensures Valid(r) && SameShape(c, r)
    ensures r.stats.numReads == c.stats.numReads + ReadCount(trace)
    ensures r.stats.numWrites == c.stats.numWrites + (|trace| - ReadCount(trace))
    ensures NoDecrease(c.stats, r.stats)
    ensures CountersAgree(c.stats) ==> CountersAgree(r.stats)
    decreases |trace|
  {
    if |trace| == 0 then c else Run(Step(c, trace[0]), trace[1..])
  }

  /** From a freshly built hierarchy, after any trace: write misses never
      exceed writes, every swap is a victim-cache swap, no writeback is
      counted, and the hierarchy is still well-formed and coherent. */
  lemma CountersHoldOnAnyTrace(l1Size: nat, l1Assoc: nat, blockSize: nat, vcBlocks: int, l2Size: int, l2Assoc: nat, trace: seq<Access>)
    requires blockSize * l1Assoc > 0 && l1Size >= blockSize * l1Assoc
    requires l2Size > 0 ==> blockSize * l2Assoc > 0 && l2Size >= blockSize * l2Assoc
    ensures var r := Run(BuildHierarchy(l1Size, l1Assoc, blockSize, vcBlocks, l2Size, l2Assoc), trace);
            && r.stats.numWriteMisses <= r.stats.numWrites
            && r.stats.numSwaps == r.stats.numSwapsFromVC
            && r.stats.numWritebacks == 0
            && AllCountersAgree(r)
            && (r.next.Some? <==> l2Size > 0)
            && (r.next.Some? ==> r.next.value.stats.numWrites == 0 && r.next.value.stats.numWriteMisses == 0
                                 && r.next.value.stats.numWritebacks == 0)
            && Valid(r) && Coherent(r)
  {
    var c := BuildHierarchy(l1Size, l1Assoc, blockSize, vcBlocks, l2Size, l2Assoc);
    RunKeepsCoherent(c, trace);
    RunKeepsCounters(c, trace);
    var r := Run(c, trace);
    if r.next.Some? {
      assert AllCountersAgree(r.next.value);
    }
  }

  /** Replaying a trace keeps the counter relations at every level, and the
      levels below the top count no write. */
  lemma {:induction false} RunKeepsCounters(c: Cache, trace: seq<Access>)
    requires Valid(c)
    ensures AllCountersAgree(c) ==> AllCountersAgree(Run(c, trace))
    ensures c.next.Some? && ReadsOnly(c.next.value) ==> ReadsOnly(Run(c, trace).next.value)
    decreases |trace|
  {
    if |trace| > 0 {
      var c' := Step(c, trace[0]);
      StepKeepsCounters(c, trace[0]);
      RunKeepsCounters(c', trace[1..]);
      assert Run(c, trace) == Run(c', trace[1..]);
    }
  }

  lemma StepKeepsCounters(c: Cache, a: Access)
    requires Valid(c)
    ensures AllCountersAgree(c) ==> AllCountersAgree(Step(c, a))
    ensures c.next.Some? && ReadsOnly(c.next.value) ==> ReadsOnly(Step(c, a).next.value)
  {
    match a
    case Read(address) => ReadKeepsCounters(c, address);
    case Write(address) => WriteKeepsCounters(c, address);
  }

  /** Replaying a trace keeps every level coherent. */
  lemma {:induction false} RunKeepsCoherent(c: Cache, trace: seq<Access>)
    requires Valid(c) && Coherent(c)
    ensures Coherent(Run(c, trace))
    decreases |trace|
  {
    if |trace| > 0 {
      var c' := Step(c, trace[0]);
      StepKeepsCoherent(c, trace[0]);
      RunKeepsCoherent(c', trace[1..]);
      assert Run(c, trace) == Run(c', trace[1..]);
    }
  }

  lemma StepKeepsCoherent(c: Cache, a: Access)
    requires Valid(c) && Coherent(c)
    ensures Coherent(Step(c, a))
  {
    match a
    case Read(address) => ReadKeepsCoherent(c, address);
    case Write(address) => WriteKeepsCoherent(c, address);
  }

  /** After any access the block is resident, so reading the same address
      again hits: one more read and no more read misses. */
  lemma ReadAgainHits(c: Cache, address: nat, write: bool)
    requires Valid(c)
    ensures var r := if write then HandleWrite(c, address) else HandleRead(c, address);
            var r2 := HandleRead(r, address);
            && r2.stats.numReads == r.stats.numReads + 1
            && r2.stats.numReadMisses == r.stats.numReadMisses
  {
    var r := if write then HandleWrite(c, address) else HandleRead(c, address);
    assert GetIndex(r, address) == GetIndex(c, address);
    assert Holds(r.sets[GetIndex(r, address)][0], GetTag(r, address));
    ReadHit(r, address);
  }

  /** A read that misses installs a clean block, and a later write hit leaves
      it clean: the write hit never sets the dirty bit. */
  lemma ReadMissThenWriteStaysClean(c: Cache, address: nat)
    requires Valid(c)
    requires !Contains(c.sets[GetIndex(c, address)], GetTag(c, address))
    ensures var r := HandleWrite(HandleRead(c, address), address);
            r.sets[GetIndex(c, address)][0] == Block(GetTag(c, address), true, false)
  {
    var tag := GetTag(c, address);
    var i := GetIndex(c, address);
    var r1 := HandleRead(c, address);
    if VictimHit(c, i, tag) {
      VictimSwap(c, address, false);
    } else {
      FullMiss(c, address, false);
    }
    assert r1.sets[i][0] == Block(tag, true, false);
    assert FirstMatch(r1.sets[i], tag) == 0;
    WriteHit(r1, address);
  }

  /** A first read on a new 4096-byte, 2-way cache with 64-byte blocks and
      nothing attached: one read, one read miss, and the block (tag
      0x1A2B3C4D / 64, in set 17 of 32) is resident and clean at MRU. A second
      read of the same address hits. */
  lemma FirstReadThenHit()
    ensures var c := NewCache(4096, 2, 64, None, 0);
            var r := HandleRead(c, 0x1A2B3C4D);
            var r2 := HandleRead(r, 0x1A2B3C4D);
            && c.numSets == 32 && GetTag(c, 0x1A2B3C4D) == 6860017 && GetIndex(c, 0x1A2B3C4D) == 17
            && r.stats.numReads == 1 && r.stats.numReadMisses == 1
            && r.sets[17][0] == Block(6860017, true, false)
            && r2.stats.numReads == 2 && r2.stats.numReadMisses == 1
  {
    var c := NewCache(4096, 2, 64, None, 0);
    assert !Contains(c.sets[17], 6860017);
    ReadMiss(c, 0x1A2B3C4D);
    FullMiss(c, 0x1A2B3C4D, false);
    ReadAgainHits(c, 0x1A2B3C4D, false);
  }
}
