/** What one read or write does to a cache level, case by case, and the
    invariants both keep. */
module CacheProperties {

  import opened Wrappers
  import opened CacheBlock
  import opened BlockList
  import CacheSet
  import VictimCache
  import opened CacheSim

  /** A read hit counts one read and nothing else, promotes the hit block to
      MRU, and leaves the victim cache and the next level alone. */
  lemma ReadHit(c: Cache, address: nat)
    requires Valid(c)
    requires Contains(c.sets[GetIndex(c, address)], GetTag(c, address))
    ensures var r := HandleRead(c, address);
            var i := GetIndex(c, address);
            var k := FirstMatch(c.sets[i], GetTag(c, address));
            && r.stats == c.stats.(numReads := c.stats.numReads + 1)
            && r.victim == c.victim && r.next == c.next
            && r.sets == c.sets[i := MoveToFront(c.sets[i], k, c.sets[i][k])]
  {
  }

  /** A write hit counts one write and nothing else and promotes the hit block
      to MRU with its dirty bit as it was: the write is not recorded. */
  lemma WriteHit(c: Cache, address: nat)
    requires Valid(c)
    requires Contains(c.sets[GetIndex(c, address)], GetTag(c, address))
    ensures var r := HandleWrite(c, address);
            var i := GetIndex(c, address);
            var k := FirstMatch(c.sets[i], GetTag(c, address));
            && r.stats == c.stats.(numWrites := c.stats.numWrites + 1)
            && r.victim == c.victim && r.next == c.next
            && r.sets == c.sets[i := MoveToFront(c.sets[i], k, c.sets[i][k])]
            && r.sets[i][0].dirty == c.sets[i][k].dirty
  {
  }

  /** A read miss counts one read miss, and a second one when the next level
      is read, which happens exactly when there is a next level and the victim
      cache did not serve the miss. */
  lemma ReadMiss(c: Cache, address: nat)
    requires Valid(c)
    requires !Contains(c.sets[GetIndex(c, address)], GetTag(c, address))
    ensures var r := HandleRead(c, address);
            var vh := VictimHit(c, GetIndex(c, address), GetTag(c, address));
            && r.stats.numReadMisses == c.stats.numReadMisses + (if c.next.Some? && !vh then 2 else 1)
            && r.stats.numSwaps == c.stats.numSwaps + (if vh then 1 else 0)
            && r.next == (if c.next.Some? && !vh then Some(HandleRead(c.next.value, address)) else c.next)
  {
  }

  /** A write miss counts exactly one write miss and, unless the victim cache
      served it, sends a READ of the same address to the next level. */
  lemma WriteMiss(c: Cache, address: nat)
    requires Valid(c)
    requires !Contains(c.sets[GetIndex(c, address)], GetTag(c, address))
    ensures var r := HandleWrite(c, address);
            var vh := VictimHit(c, GetIndex(c, address), GetTag(c, address));
            && r.stats.numWriteMisses == c.stats.numWriteMisses + 1
            && r.stats.numSwaps == c.stats.numSwaps + (if vh then 1 else 0)
            && r.next == (if c.next.Some? && !vh then Some(HandleRead(c.next.value, address)) else c.next)
            && (c.next.Some? ==> r.next.value.stats.numWrites == c.next.value.stats.numWrites)
  {
  }

  /** The swap on a victim-cache hit (the set is full and the victim cache
      holds the tag): both swap counters rise by one, the set's LRU block is
      evicted and the tag enters at MRU (clean for a read, dirty for a write),
      the evicted block becomes the victim cache's MRU entry, the victim cache
      keeps its length, and the next level is not consulted. The hit copy is
      not removed from the victim cache: with room for two or more entries it
      is still there afterwards. */
  lemma VictimSwap(c: Cache, address: nat, write: bool)
    requires Valid(c)
    requires !Contains(c.sets[GetIndex(c, address)], GetTag(c, address))
    requires VictimHit(c, GetIndex(c, address), GetTag(c, address))
    ensures var r := if write then HandleWrite(c, address) else HandleRead(c, address);
            var i := GetIndex(c, address);
            var s := c.sets[i];
            var vc := c.victim.value;
            && r.stats.numSwaps == c.stats.numSwaps + 1
            && r.stats.numSwapsFromVC == c.stats.numSwapsFromVC + 1
            && r.sets[i] == [Block(GetTag(c, address), true, write)] + s[..|s| - 1]
            && r.victim.Some? && |r.victim.value.blocks| == |vc.blocks|
            && r.victim.value.blocks[0] == s[|s| - 1]
            && (forall m :: 1 <= m < |vc.blocks| ==>
                  r.victim.value.blocks[m] == VictimCache.FindBlock(vc, GetTag(c, address)).1.blocks[m - 1])
            && r.next == c.next
            && (vc.numBlocks >= 2 ==> Contains(r.victim.value.blocks, GetTag(c, address)))
  {
    var tag := GetTag(c, address);
    var i := GetIndex(c, address);
    var s := c.sets[i];
    var r := if write then HandleWrite(c, address) else HandleRead(c, address);
    SwapPath(c, address, write);
    var st := if write then c.stats.(numWrites := c.stats.numWrites + 1, numWriteMisses := c.stats.numWriteMisses + 1)
              else c.stats.(numReads := c.stats.numReads + 1, numReadMisses := c.stats.numReadMisses + 1);
    SwapInVictim(c.(stats := st), i, tag, write);
    var promoted := VictimCache.FindBlock(c.victim.value, tag).1;
    assert r.victim == Some(VictimCache.SwapBlock(promoted, tag, s[|s| - 1]));
    if c.victim.value.numBlocks >= 2 {
      assert Holds(r.victim.value.blocks[1], tag);
    }
  }

  /** On a victim-cache hit a handler counts the access and its miss, then swaps. */
  lemma SwapPath(c: Cache, address: nat, write: bool)
    requires Valid(c)
    requires !Contains(c.sets[GetIndex(c, address)], GetTag(c, address))
    requires VictimHit(c, GetIndex(c, address), GetTag(c, address))
    ensures var st := if write then c.stats.(numWrites := c.stats.numWrites + 1, numWriteMisses := c.stats.numWriteMisses + 1)
                      else c.stats.(numReads := c.stats.numReads + 1, numReadMisses := c.stats.numReadMisses + 1);
            (if write then HandleWrite(c, address) else HandleRead(c, address))
              == SwapIn(c.(stats := st), GetIndex(c, address), GetTag(c, address), write)
  {
  }

  /** A full miss (neither the set nor the victim cache holds the tag) ends by
      installing the tag at MRU: into the first free slot when the set has
      one, leaving the victim cache alone; otherwise over the LRU block, which
      then goes into the victim cache if there is one. */
  lemma FullMiss(c: Cache, address: nat, write: bool)
    requires Valid(c)
    requires !Contains(c.sets[GetIndex(c, address)], GetTag(c, address))
    requires !VictimHit(c, GetIndex(c, address), GetTag(c, address))
    ensures var r := if write then HandleWrite(c, address) else HandleRead(c, address);
            var i := GetIndex(c, address);
            var s := c.sets[i];
            var b := Block(GetTag(c, address), true, write);
            && r.stats.numSwaps == c.stats.numSwaps
            && (HasFree(s) ==> r.sets[i] == MoveToFront(s, CacheSet.FirstFree(s), b) && r.victim == c.victim)
            && (!HasFree(s) ==> r.sets[i] == MoveToFront(s, |s| - 1, b))
            && (!HasFree(s) && c.victim.Some? ==> r.victim == Some(VictimCache.Insert(c.victim.value, s[|s| - 1])))
            && (c.victim.None? ==> r.victim.None?)
  {
  }

  /** A read keeps the counter relations at every level, and a hierarchy that
      has counted no write anywhere still has none: a read only reads the
      level below. */
  lemma {:induction false} ReadKeepsCounters(c: Cache, address: nat)
    requires Valid(c)
    ensures AllCountersAgree(c) ==> AllCountersAgree(HandleRead(c, address))
    ensures ReadsOnly(c) ==> ReadsOnly(HandleRead(c, address))
    ensures c.next.Some? && ReadsOnly(c.next.value) ==> ReadsOnly(HandleRead(c, address).next.value)
    decreases c
  {
    var r := HandleRead(c, address);
    var i := GetIndex(c, address);
    var tag := GetTag(c, address);
    if c.next.Some? {
      ReadKeepsCounters(c.next.value, address);
      if Contains(c.sets[i], tag) {
        ReadHit(c, address);
      } else {
        ReadMiss(c, address);
      }
    }
  }

  /** A write keeps the counter relations at every level, and the levels below
      the written one count no write: the next level is only read. */
  lemma {:induction false} WriteKeepsCounters(c: Cache, address: nat)
    requires Valid(c)
    ensures AllCountersAgree(c) ==> AllCountersAgree(HandleWrite(c, address))
    ensures c.next.Some? && ReadsOnly(c.next.value) ==> ReadsOnly(HandleWrite(c, address).next.value)
  {
    var i := GetIndex(c, address);
    var tag := GetTag(c, address);
    if c.next.Some? {
      ReadKeepsCounters(c.next.value, address);
      if Contains(c.sets[i], tag) {
        WriteHit(c, address);
      } else {
        WriteMiss(c, address);
      }
    }
  }

  /** Both handlers keep every level coherent: a tag is installed only after
      the set lookup missed, into the set its tag maps to. */
  lemma {:induction false} ReadKeepsCoherent(c: Cache, address: nat)
    requires Valid(c) && Coherent(c)
    ensures Coherent(HandleRead(c, address))
    decreases c
  {
    if c.next.Some? {
      ReadKeepsCoherent(c.next.value, address);
    }
    SetStaysCoherent(c, address, false);
  }

  lemma {:induction false} WriteKeepsCoherent(c: Cache, address: nat)
    requires Valid(c) && Coherent(c)
    ensures Coherent(HandleWrite(c, address))
  {
    if c.next.Some? {
      ReadKeepsCoherent(c.next.value, address);
    }
    SetStaysCoherent(c, address, true);
  }

  /** The accessed set stays unique and at home (the other sets are unchanged). */
  lemma SetStaysCoherent(c: Cache, address: nat, write: bool)
    requires Valid(c) && Coherent(c)
    ensures var r := if write then HandleWrite(c, address) else HandleRead(c, address);
            var i := GetIndex(c, address);
            UniqueTags(r.sets[i]) && LivesIn(r.sets[i], i, c.numSets)
  {
    var tag := GetTag(c, address);
    var i := GetIndex(c, address);
    if Contains(c.sets[i], tag) {
      HitStaysCoherent(c, address, write);
    } else if VictimHit(c, i, tag) {
      SwapStaysCoherent(c, address, write);
    } else {
      InstallStaysCoherent(c, address, write);
    }
  }

  lemma HitStaysCoherent(c: Cache, address: nat, write: bool)
    requires Valid(c) && Coherent(c)
    requires Contains(c.sets[GetIndex(c, address)], GetTag(c, address))
    ensures var r := if write then HandleWrite(c, address) else HandleRead(c, address);
            var i := GetIndex(c, address);
            UniqueTags(r.sets[i]) && LivesIn(r.sets[i], i, c.numSets)
  {
    var i := GetIndex(c, address);
    var s := c.sets[i];
    if write { WriteHit(c, address); } else { ReadHit(c, address); }
    CacheSet.PromoteKeepsInvariant(s, FirstMatch(s, GetTag(c, address)), i, c.numSets);
  }

  lemma SwapStaysCoherent(c: Cache, address: nat, write: bool)
    requires Valid(c) && Coherent(c)
    requires !Contains(c.sets[GetIndex(c, address)], GetTag(c, address))
    requires VictimHit(c, GetIndex(c, address), GetTag(c, address))
    ensures var r := if write then HandleWrite(c, address) else HandleRead(c, address);
            var i := GetIndex(c, address);
            UniqueTags(r.sets[i]) && LivesIn(r.sets[i], i, c.numSets)
  {
    var tag := GetTag(c, address);
    var i := GetIndex(c, address);
    var s := c.sets[i];
    assert tag % c.numSets == i;
    VictimSwap(c, address, write);
    CacheSet.InstallKeepsInvariant(s, |s| - 1, tag, write, i, c.numSets);
  }

  lemma InstallStaysCoherent(c: Cache, address: nat, write: bool)
    requires Valid(c) && Coherent(c)
    requires !Contains(c.sets[GetIndex(c, address)], GetTag(c, address))
    requires !VictimHit(c, GetIndex(c, address), GetTag(c, address))
    ensures var r := if write then HandleWrite(c, address) else HandleRead(c, address);
            var i := GetIndex(c, address);
            UniqueTags(r.sets[i]) && LivesIn(r.sets[i], i, c.numSets)
  {
    var tag := GetTag(c, address);
    var i := GetIndex(c, address);
    var s := c.sets[i];
    assert tag % c.numSets == i;
    FullMiss(c, address, write);
    var k := if HasFree(s) then CacheSet.FirstFree(s) else |s| - 1;
    CacheSet.InstallKeepsInvariant(s, k, tag, write, i, c.numSets);
  }
}
