/** The victim cache: a small fully-associative MRU-first list of blocks
    recently evicted from a cache's sets. */
module VictimCache {

  import opened CacheBlock
  import opened BlockList

  /** `numBlocks` is the capacity fixed at construction. */
  datatype VictimCache = VictimCache(numBlocks: nat, blocks: seq<Block>)

  /** The list holds exactly its capacity (counting invalid entries). */
  predicate Full(vc: VictimCache) {
    |vc.blocks| == vc.numBlocks
  }

  /** A new victim cache: `numBlocks` default (invalid) blocks, so it is full
      from the start and no lookup hits. */
  function New(numBlocks: nat): (vc: VictimCache)
    ensures vc.numBlocks == numBlocks && Full(vc)
    ensures forall i :: 0 <= i < |vc.blocks| ==> vc.blocks[i] == Empty()
    ensures forall tag :: !Contains(vc.blocks, tag)
  {
    VictimCache(numBlocks, seq(numBlocks, _ => Empty()))
  }

  /** Lookup: a hit moves the matching block to MRU but leaves it in the
      victim cache; a miss changes nothing. */
  function FindBlock(vc: VictimCache, tag: nat): (r: (bool, VictimCache))
    ensures r.0 <==> Contains(vc.blocks, tag)
    ensures r.1.numBlocks == vc.numBlocks && |r.1.blocks| == |vc.blocks|
    ensures r.0 ==> Holds(r.1.blocks[0], tag)
    ensures r.0 ==> r.1.blocks == MoveToFront(vc.blocks, FirstMatch(vc.blocks, tag), vc.blocks[FirstMatch(vc.blocks, tag)])
    ensures !r.0 ==> r.1 == vc
  {
    var l := FindAndPromote(vc.blocks, tag);
    (l.hit, vc.(blocks := l.blocks))
  }

  /** A lookup only reorders the victim cache. */
  lemma FindBlockPermutes(vc: VictimCache, tag: nat)
    ensures multiset(FindBlock(vc, tag).1.blocks) == multiset(vc.blocks)
  {
    var l := FindAndPromote(vc.blocks, tag);
    if l.hit {
      MoveToFrontMultiset(vc.blocks, FirstMatch(vc.blocks, tag), l.block);
    }
  }

  /** Enters `b` at MRU, first dropping the LRU (last) entry when the list is
      at capacity. Dropping from an empty list is undefined, hence the
      requirement that a list at capacity be non-empty. */
  function Insert(vc: VictimCache, b: Block): (r: VictimCache)
    requires vc.blocks != [] || vc.numBlocks > 0
    ensures r.numBlocks == vc.numBlocks && |r.blocks| > 0 && r.blocks[0] == b
    ensures Full(vc) ==> r.blocks == MoveToFront(vc.blocks, |vc.blocks| - 1, b)
    ensures !Full(vc) ==> r.blocks[1..] == vc.blocks
    ensures Full(vc) ==> Full(r)
  {
    if |vc.blocks| == vc.numBlocks then vc.(blocks := [b] + vc.blocks[..|vc.blocks| - 1])
    else vc.(blocks := [b] + vc.blocks)
  }

  /** The swap half of a victim-cache hit: the block evicted from the set
      becomes the MRU entry and every older entry moves one place back; at
      capacity the LRU entry is the one that leaves. The tag argument plays
      no part (`SwapIgnoresTag`). */
  function SwapBlock(vc: VictimCache, tag: nat, evicted: Block): (r: VictimCache)
    requires vc.blocks != [] || vc.numBlocks > 0
    ensures r.numBlocks == vc.numBlocks && |r.blocks| > 0 && r.blocks[0] == evicted
    ensures |r.blocks| == if Full(vc) then |vc.blocks| else |vc.blocks| + 1
    ensures forall m :: 1 <= m < |r.blocks| ==> r.blocks[m] == vc.blocks[m - 1]
    ensures Full(vc) ==> Full(r)
    ensures Full(vc) ==> multiset(r.blocks) == multiset(vc.blocks) - multiset{vc.blocks[|vc.blocks| - 1]} + multiset{evicted}
  {
    var r := Insert(vc, evicted);
    assert Full(vc) ==> multiset(r.blocks) == multiset(vc.blocks) - multiset{vc.blocks[|vc.blocks| - 1]} + multiset{evicted} by {
      if Full(vc) {
        InsertDropsExactlyLru(vc, evicted);
      }
    }
    assert forall m :: 1 <= m < |r.blocks| ==> r.blocks[m] == vc.blocks[m - 1] by {
      if Full(vc) {
        MoveToFrontShifts(vc.blocks, |vc.blocks| - 1, evicted);
      }
    }
    r
  }

  /** Swapping under two different tags gives the same victim cache. */
  lemma SwapIgnoresTag(vc: VictimCache, tag1: nat, tag2: nat, evicted: Block)
    requires vc.blocks != [] || vc.numBlocks > 0
    ensures SwapBlock(vc, tag1, evicted) == SwapBlock(vc, tag2, evicted)
  {
  }

  /** On a full victim cache, `Insert` removes exactly one entry, the LRU one. */
  lemma InsertDropsExactlyLru(vc: VictimCache, b: Block)
    requires Full(vc) && vc.numBlocks > 0
    ensures multiset(Insert(vc, b).blocks) == multiset(vc.blocks) - multiset{vc.blocks[|vc.blocks| - 1]} + multiset{b}
    ensures |Insert(vc, b).blocks| == |vc.blocks|
  {
    MoveToFrontMultiset(vc.blocks, |vc.blocks| - 1, b);
  }
}
