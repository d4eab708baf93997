/**
  The two block-header shapes of the allocator (mem_alloc_types.h) and the size
  accounting a header walk uses. Offsets are byte offsets from the start of the arena.
*/
module Headers {
  import opened Common

  type uint8 = x: int | 0 <= x < 0x100
  type uint32 = x: int | 0 <= x < 0x1_0000_0000
  type uint64 = x: int | 0 <= x < 0x1_0000_0000_0000_0000

  /** sizeof(mem_used_block_t): one unsigned long. */
  const U: nat := 8
  /** sizeof(mem_free_block_t): unsigned int size, char isFree, padding, next pointer. */
  const F: nat := 16

  /**
    A header as the allocator wrote it. A free header records the WHOLE block size
    (header included) as an unsigned int and carries the isFree byte and the free-list
    link; a used header records only the PAYLOAD size, as an unsigned long.
  */
  datatype Header =
    | Free(size: uint32, isFree: uint8, next: Option<nat>)
    | Used(payload: uint64)

  /** How far a header walk advances from a block: `size` for a free block, `U + size` for a used one. */
  function Footprint(h: Header): nat
  {
    match h
    case Free(size, _, _) => size
    case Used(payload) => U + payload
  }

  /**
    The isFree byte as the walk reads it, through the free-header view, at any header.
    At a used header that byte is byte 4 of the little-endian unsigned long `size`.
  */
  function IsFreeByte(h: Header): uint8
  {
    match h
    case Free(_, isFree, _) => isFree
    case Used(payload) => (payload / 0x1_0000_0000) % 0x100
  }

  predicate ReadsAsFree(h: Header)
  {
    IsFreeByte(h) != 0
  }

  /**
    What every header the allocator writes satisfies, even for a moment: a free header is
    tagged 1 and spans at least a used header, so a walk advances over it; a used
    header's size fits the 32 bits below the tag byte.
  */
  predicate WellFormed(h: Header)
  {
    match h
    case Free(size, isFree, _) => isFree == 1 && size >= U
    case Used(payload) => payload < 0x1_0000_0000
  }

  /**
    A free block has room for its whole free header, `next` link included, so that the
    list rebuild can write the link without reaching into the next block.
  */
  predicate HoldsLink(h: Header)
  {
    h.Free? ==> h.size >= F
  }

  /** A header with its free-list link forgotten: all a header walk looks at. */
  function Shape(h: Header): Header
  {
    match h
    case Free(size, isFree, _) => Free(size, isFree, None)
    case Used(_) => h
  }

  /** Replaces the free-list link of a free header; a used header has none. */
  function SetNext(h: Header, next: Option<nat>): (r: Header)
    ensures Shape(r) == Shape(h)
    ensures r.Free? ==> r.next == next
  {
    match h
    case Free(size, isFree, _) => Free(size, isFree, next)
    case Used(_) => h
  }

  /** The only thing a used header holds: its payload size. */
  function UsedSize(h: Header): (r: nat)
    requires h.Used?
    ensures Footprint(h) == U + r
  {
    h.payload
  }

  /**
    The tag read through the free-header view separates the two shapes exactly, for
    every header the allocator writes: a used header reads as "not free".
  */
  lemma ReadsAsFreeIffFree(h: Header)
    requires WellFormed(h)
    ensures ReadsAsFree(h) <==> h.Free?
  {
    match h
    case Free(_, _, _) =>
    case Used(payload) =>
      assert payload / 0x1_0000_0000 == 0;
  }

  /** Two headers of the same shape walk, read and fit alike. */
  lemma SameShape(h1: Header, h2: Header)
    requires Shape(h1) == Shape(h2)
    ensures Footprint(h1) == Footprint(h2) && IsFreeByte(h1) == IsFreeByte(h2)
    ensures WellFormed(h1) == WellFormed(h2) && HoldsLink(h1) == HoldsLink(h2) && h1.Free? == h2.Free?
    ensures h1.Free? ==> h1.size == h2.size
  {
  }

  /** Every header the allocator writes makes a walk advance. */
  lemma FootprintPositive(h: Header)
    requires WellFormed(h)
    ensures Footprint(h) >= U
  {
  }

  /**
    The used header is smaller than the free header, which separates the fit threshold
    (`req + U`) from the split threshold (`req + U + F`); with these sizes the gap is one
    used header.
  */
  lemma HeaderSizes()
    ensures 0 < U < F && F - U == U
  {
  }
}
