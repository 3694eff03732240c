/** One set of a set-associative cache: exactly `assoc` blocks, MRU first. */
module CacheSet {

  import opened CacheBlock
  import opened BlockList

  /** A new set of associativity `assoc`: `assoc` default (invalid) blocks. */
  function New(assoc: nat): (s: seq<Block>)
    ensures |s| == assoc
    ensures forall i :: 0 <= i < |s| ==> s[i] == Empty()
    ensures HasFree(s) <==> assoc > 0
    ensures forall tag :: !Contains(s, tag)
  {
    var s := seq(assoc, _ => Empty());
    assert assoc > 0 ==> !s[0].valid;
    s
  }

  /** Set lookup: a hit moves the block to MRU and returns a copy of it. */
  function FindBlock(s: seq<Block>, tag: nat): (r: Lookup)
    ensures |r.blocks| == |s|
    ensures r.hit <==> Contains(s, tag)
    ensures r.hit ==> Holds(r.blocks[0], tag) && r.block == r.blocks[0]
    ensures r.hit ==> r.blocks == MoveToFront(s, FirstMatch(s, tag), s[FirstMatch(s, tag)])
    ensures !r.hit ==> r.blocks == s
  {
    FindAndPromote(s, tag)
  }

  /** A lookup only reorders the set. */
  lemma FindBlockPermutes(s: seq<Block>, tag: nat)
    ensures multiset(FindBlock(s, tag).blocks) == multiset(s)
  {
    var r := FindBlock(s, tag);
    if r.hit {
      MoveToFrontMultiset(s, FirstMatch(s, tag), r.block);
    }
  }

  /** The scan for a free slot. */
  function HasSpace(s: seq<Block>): (r: bool)
    ensures r <==> HasFree(s)
  {
    if |s| == 0 then false
    else if !s[0].valid then true
    else
      var rest := HasSpace(s[1..]);
      assert HasFree(s[1..]) <==> exists i :: 1 <= i < |s| && !s[i].valid by {
        forall i | 1 <= i < |s| ensures s[i] == s[1..][i - 1] { }
      }
      rest
  }

  /** Position of the first (most recently used) free slot. */
  function FirstFree(s: seq<Block>): (i: nat)
    requires HasFree(s)
    ensures i < |s| && !s[i].valid
    ensures forall j :: 0 <= j < i ==> s[j].valid
  {
    if !s[0].valid then 0
    else
      assert HasFree(s[1..]) by {
        var i :| 0 <= i < |s| && !s[i].valid;
        assert !s[1..][i - 1].valid;
      }
      1 + FirstFree(s[1..])
  }

  /** Fills the first free slot with a valid copy of `tag` and moves it to
      MRU, keeping every other block in order; with no free slot the set is
      returned unchanged. */
  function InsertBlock(s: seq<Block>, tag: nat, dirty: bool): (r: seq<Block>)
    ensures |r| == |s|
    ensures !HasFree(s) ==> r == s
    ensures HasFree(s) ==> r == MoveToFront(s, FirstFree(s), Block(tag, true, dirty))
  {
    if |s| == 0 then s
    else if !s[0].valid then
      assert FirstFree(s) == 0;
      [Block(tag, true, dirty)] + s[1..]
    else if HasSpace(s[1..]) then
      var t := InsertBlock(s[1..], tag, dirty);
      FreeStep(s, Block(tag, true, dirty));
      [t[0]] + [s[0]] + t[1..]
    else
      NoFreeStep(s);
      s
  }

  /** A free slot behind an occupied head: the head slides one place back. */
  lemma FreeStep(s: seq<Block>, x: Block)
    requires |s| > 0 && s[0].valid && HasFree(s[1..])
    ensures HasFree(s)
    ensures FirstFree(s) == FirstFree(s[1..]) + 1
    ensures MoveToFront(s, FirstFree(s), x) == [x] + [s[0]] + MoveToFront(s[1..], FirstFree(s[1..]), x)[1..]
  {
    var t := s[1..];
    var k := FirstFree(t);
    assert s[k + 1] == t[k];
    assert FirstFree(s) == k + 1;
    var a := MoveToFront(s, k + 1, x);
    var b := [x] + [s[0]] + MoveToFront(t, k, x)[1..];
    MoveToFrontShifts(s, k + 1, x);
    MoveToFrontShifts(t, k, x);
    assert |a| == |b|;
    forall m | 0 <= m < |a|
      ensures a[m] == b[m]
    {
      if m >= 2 {
        assert b[m] == MoveToFront(t, k, x)[m - 1];
      }
    }
  }

  /** No free slot in the tail and an occupied head means a full set. */
  lemma NoFreeStep(s: seq<Block>)
    requires |s| > 0 && s[0].valid && !HasFree(s[1..])
    ensures !HasFree(s)
  {
    forall i | 0 < i < |s|
      ensures s[i].valid
    {
      assert s[i] == s[1..][i - 1];
    }
  }

  /** The result of `EvictAndInsert`: the new set and the block that left it. */
  datatype Eviction = Eviction(blocks: seq<Block>, evicted: Block)

  /** Evicts the LRU (last) block, returning it, and enters a valid copy of
      `tag` at MRU. The list's back must exist: the set is never empty. */
  function EvictAndInsert(s: seq<Block>, tag: nat, dirty: bool): (r: Eviction)
    requires |s| > 0
    ensures r.evicted == s[|s| - 1]
    ensures r.blocks == MoveToFront(s, |s| - 1, Block(tag, true, dirty))
  {
    Eviction([Block(tag, true, dirty)] + s[..|s| - 1], s[|s| - 1])
  }

  /** Eviction replaces exactly the LRU block by the new one. */
  lemma EvictAndInsertReplacesLru(s: seq<Block>, tag: nat, dirty: bool)
    requires |s| > 0
    ensures multiset(EvictAndInsert(s, tag, dirty).blocks)
         == multiset(s) - multiset{s[|s| - 1]} + multiset{Block(tag, true, dirty)}
  {
    MoveToFrontMultiset(s, |s| - 1, Block(tag, true, dirty));
  }

  /** Installing a tag that missed keeps the set's tags unique and at home. */
  lemma InstallKeepsInvariant(s: seq<Block>, k: nat, tag: nat, dirty: bool, index: nat, numSets: nat)
    requires k < |s| && numSets > 0
    requires UniqueTags(s) && LivesIn(s, index, numSets)
    requires !Contains(s, tag) && tag % numSets == index
    ensures UniqueTags(MoveToFront(s, k, Block(tag, true, dirty)))
    ensures LivesIn(MoveToFront(s, k, Block(tag, true, dirty)), index, numSets)
  {
    MoveToFrontUnique(s, k, Block(tag, true, dirty));
    MoveToFrontLivesIn(s, k, Block(tag, true, dirty), index, numSets);
  }

  /** Promoting a hit keeps the set's tags unique and at home. */
  lemma PromoteKeepsInvariant(s: seq<Block>, k: nat, index: nat, numSets: nat)
    requires k < |s| && numSets > 0
    requires UniqueTags(s) && LivesIn(s, index, numSets)
    ensures UniqueTags(MoveToFront(s, k, s[k]))
    ensures LivesIn(MoveToFront(s, k, s[k]), index, numSets)
  {
    MoveToFrontUnique(s, k, s[k]);
    MoveToFrontLivesIn(s, k, s[k], index, numSets);
  }
}
