/** One cache line's metadata: the block address it holds and its two state bits. */
module CacheBlock {

  /** `tag` is the block address (byte address divided by the block size). */
  datatype Block = Block(tag: nat, valid: bool, dirty: bool)

  /** The default-constructed block that fills every slot of a new set or victim cache. */
  function Empty(): (b: Block)
    ensures !b.valid && !b.dirty && b.tag == 0
  {
    Block(0, false, false)
  }

  /** Clears both state bits; the stale tag stays behind. */
  function Invalidate(b: Block): (r: Block)
    ensures !r.valid && !r.dirty
    ensures r.tag == b.tag
  {
    b.(valid := false, dirty := false)
  }

  /** `b` is a live copy of block address `tag`. */
  predicate Holds(b: Block, tag: nat) {
    b.valid && b.tag == tag
  }
}
