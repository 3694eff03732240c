/** MRU-first lists of blocks. Both a cache set and the victim cache keep their
    blocks in a linked list whose front is the most recently used entry and
    whose back is the next to be evicted; this module holds what the two share. */
module BlockList {

  import opened CacheBlock

  /** Some valid entry of `s` carries `tag`. */
  predicate Contains(s: seq<Block>, tag: nat) {
    exists i :: 0 <= i < |s| && Holds(s[i], tag)
  }

  /** Some entry of `s` is a free (invalid) slot. */
  predicate HasFree(s: seq<Block>) {
    exists i :: 0 <= i < |s| && !s[i].valid
  }

  /** No two valid entries of `s` carry the same tag. */
  predicate UniqueTags(s: seq<Block>) {
    forall i, j :: 0 <= i < |s| && 0 <= j < |s| && s[i].valid && s[j].valid && s[i].tag == s[j].tag ==> i == j
  }

  /** Every valid entry of `s` belongs to set `index` of a cache with `numSets` sets. */
  predicate LivesIn(s: seq<Block>, index: nat, numSets: nat)
    requires numSets > 0
  {
    forall b :: b in s && b.valid ==> b.tag % numSets == index
  }

  /** Entry `k` leaves its position and `x` enters at the front: the list
      splice, or erase followed by push_front, of the simulator. */
  function MoveToFront(s: seq<Block>, k: nat, x: Block): (r: seq<Block>)
    requires k < |s|
    ensures |r| == |s| && r[0] == x
  {
    [x] + s[..k] + s[k + 1..]
  }

  /** Behind the new front, the entries before position `k` shift back one
      place and the entries after it stay where they were. */
  lemma MoveToFrontShifts(s: seq<Block>, k: nat, x: Block)
    requires k < |s|
    ensures forall m :: 1 <= m <= k ==> MoveToFront(s, k, x)[m] == s[m - 1]
    ensures forall m :: k < m < |s| ==> MoveToFront(s, k, x)[m] == s[m]
  {
  }

  /** Position of the first (most recently used) valid entry carrying `tag`. */
  function FirstMatch(s: seq<Block>, tag: nat): (i: nat)
    requires Contains(s, tag)
    ensures i < |s| && Holds(s[i], tag)
    ensures forall j :: 0 <= j < i ==> !Holds(s[j], tag)
  {
    if Holds(s[0], tag) then 0
    else
      assert Contains(s[1..], tag) by {
        var i :| 0 <= i < |s| && Holds(s[i], tag);
        assert Holds(s[1..][i - 1], tag);
      }
      1 + FirstMatch(s[1..], tag)
  }

  /** Outcome of a lookup: whether it hit, the copy of the hit block (the
      default block on a miss), and the list after promotion. */
  datatype Lookup = Lookup(hit: bool, block: Block, blocks: seq<Block>)

  /** Scans from MRU to LRU for a valid entry carrying `tag`. On a hit that
      entry moves to the front and a copy of it is returned; on a miss the list
      is left as it was. */
  function FindAndPromote(s: seq<Block>, tag: nat): (r: Lookup)
    ensures r.hit <==> Contains(s, tag)
    ensures |r.blocks| == |s|
    ensures !r.hit ==> r.blocks == s && r.block == Empty()
    ensures r.hit ==> r.block == s[FirstMatch(s, tag)]
    ensures r.hit ==> r.blocks == MoveToFront(s, FirstMatch(s, tag), r.block)
  {
    if |s| == 0 then Lookup(false, Empty(), s)
    else if Holds(s[0], tag) then
      assert MoveToFront(s, 0, s[0]) == s;
      Lookup(true, s[0], s)
    else
      var t := FindAndPromote(s[1..], tag);
      if t.hit then
        PromoteStep(s, tag, t.block);
        Lookup(true, t.block, [t.block] + [s[0]] + t.blocks[1..])
      else
        MissStep(s, tag);
        Lookup(false, Empty(), s)
  }

  /** A match behind a non-matching head: the head slides one place back. */
  lemma PromoteStep(s: seq<Block>, tag: nat, x: Block)
    requires |s| > 0 && !Holds(s[0], tag) && Contains(s[1..], tag)
    ensures Contains(s, tag)
    ensures FirstMatch(s, tag) == FirstMatch(s[1..], tag) + 1
    ensures MoveToFront(s, FirstMatch(s, tag), x)
         == [x] + [s[0]] + MoveToFront(s[1..], FirstMatch(s[1..], tag), x)[1..]
  {
    var t := s[1..];
    var k := FirstMatch(t, tag);
    assert s[k + 1] == t[k];
    assert FirstMatch(s, tag) == k + 1;
    var a := MoveToFront(s, k + 1, x);
    var b := [x] + [s[0]] + MoveToFront(t, k, x)[1..];
    MoveToFrontShifts(s, k + 1, x);
    MoveToFrontShifts(t, k, x);
    assert |a| == |b|;
    forall m | 0 <= m < |a|
      ensures a[m] == b[m]
    {
      if m >= 2 {
        assert b[m] == MoveToFront(t, k, x)[m - 1];
      }
    }
  }

  /** No match in the tail and none at the head means none at all. */
  lemma MissStep(s: seq<Block>, tag: nat)
    requires |s| > 0 && !Holds(s[0], tag) && !Contains(s[1..], tag)
    ensures !Contains(s, tag)
  {
    forall i | 0 < i < |s|
      ensures !Holds(s[i], tag)
    {
      assert s[i] == s[1..][i - 1];
    }
  }

  /** Every entry of a spliced list is the new entry or an entry of the old one. */
  lemma MoveToFrontElements(s: seq<Block>, k: nat, x: Block)
    requires k < |s|
    ensures forall b :: b in MoveToFront(s, k, x) ==> b == x || b in s
  {
    var r := MoveToFront(s, k, x);
    MoveToFrontShifts(s, k, x);
    forall b | b in r
      ensures b == x || b in s
    {
      var m :| 0 <= m < |r| && r[m] == b;
      if m == 0 {
      } else if m <= k {
        assert b == s[m - 1];
      } else {
        assert b == s[m];
      }
    }
  }

  /** Splicing keeps tags unique as long as the entering entry clashes with no
      entry that stays behind. */
  lemma {:induction false} MoveToFrontUnique(s: seq<Block>, k: nat, x: Block)
    requires k < |s|
    requires UniqueTags(s)
    requires x.valid ==> forall j :: 0 <= j < |s| && j != k && s[j].valid ==> s[j].tag != x.tag
    ensures UniqueTags(MoveToFront(s, k, x))
  {
    var r := MoveToFront(s, k, x);
    MoveToFrontShifts(s, k, x);
    forall i, j | 0 <= i < |r| && 0 <= j < |r| && r[i].valid && r[j].valid && r[i].tag == r[j].tag
      ensures i == j
    {
      assert i > 0 ==> r[i] == s[Origin(k, i)] && Origin(k, i) != k;
      assert j > 0 ==> r[j] == s[Origin(k, j)] && Origin(k, j) != k;
    }
  }

  /** Where entry `m` of `MoveToFront(s, k, x)` came from, for `m > 0`. */
  function Origin(k: nat, m: nat): nat {
    if m == 0 then k else if m <= k then m - 1 else m
  }

  /** Splicing keeps every valid entry in its home set, given the entering one is at home. */
  lemma MoveToFrontLivesIn(s: seq<Block>, k: nat, x: Block, index: nat, numSets: nat)
    requires k < |s| && numSets > 0
    requires LivesIn(s, index, numSets)
    requires x.valid ==> x.tag % numSets == index
    ensures LivesIn(MoveToFront(s, k, x), index, numSets)
  {
    MoveToFrontElements(s, k, x);
  }

  /** Invalidating a valid entry of a list with unique tags frees a slot,
      removes its tag from the list, keeps every other entry and keeps tags
      unique and at home. */
  lemma InvalidateFrees(s: seq<Block>, k: nat, index: nat, numSets: nat)
    requires k < |s| && s[k].valid && UniqueTags(s) && numSets > 0
    ensures var r := s[k := Invalidate(s[k])];
            && |r| == |s| && HasFree(r) && !Contains(r, s[k].tag)
            && (forall j :: 0 <= j < |s| && j != k ==> r[j] == s[j])
            && UniqueTags(r)
            && (LivesIn(s, index, numSets) ==> LivesIn(r, index, numSets))
  {
    var r := s[k := Invalidate(s[k])];
    assert !r[k].valid;
    forall j | 0 <= j < |r|
      ensures !Holds(r[j], s[k].tag)
    {
      if j != k {
        assert r[j] == s[j];
      }
    }
    forall b | b in r && b.valid
      ensures b in s
    {
      var j :| 0 <= j < |r| && r[j] == b;
      assert j != k;
    }
  }

  /** Splicing replaces one occurrence of the `k`-th entry by `x`. */
  lemma MoveToFrontMultiset(s: seq<Block>, k: nat, x: Block)
    requires k < |s|
    ensures multiset(MoveToFront(s, k, x)) == multiset(s) - multiset{s[k]} + multiset{x}
  {
    assert s == s[..k] + [s[k]] + s[k + 1..];
  }
}
