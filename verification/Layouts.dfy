/** Where buckets lie, and the index the code gives an address. */
module Layouts {
  const BLOCKS_PER_BUCKET: nat := 256

  /** The index of the bucket an address is taken to lie in. */
  function IndexOf(addr: nat): nat { addr / BLOCKS_PER_BUCKET }

  /** It is the index of the bucket starting at the given address, in which the address lies,
      unless the offset in the bucket, added to that of its start, reaches the bucket size. */
  lemma IndexIff(start: nat, addr: nat)
    requires start <= addr < start + BLOCKS_PER_BUCKET
    ensures IndexOf(addr) == IndexOf(start) <==> start % BLOCKS_PER_BUCKET + (addr - start) < BLOCKS_PER_BUCKET
    ensures IndexOf(addr) == IndexOf(start) || IndexOf(addr) == IndexOf(start) + 1
  {}

  /** A bucket's index, counted from its group's first one. */
  lemma IndexInGroup(start: nat, bi: nat)
    ensures IndexOf(start + bi * BLOCKS_PER_BUCKET) == IndexOf(start) + bi
  {}
}
