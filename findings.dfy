/**
  Three places where the allocator as written does not do what it evidently intends,
  each with the as-written behaviour, an input that exhibits it, and the corrected
  behaviour the rest of the model uses.
*/
module Findings {
  import opened Common
  import opened Headers
  import opened Layout
  import opened FreeList
  import opened Carving
  import opened Coalescing
  import opened MemAlloc

  /** An arena of 128 bytes after `memory_init` and `memory_alloc(120)`: the one block is taken whole. */
  ghost function WholeArenaTaken(): (a: Arena)
    ensures InHeap(a) && a.layout == [0, 120]
    ensures 0 in a.heap && 120 in a.heap && a.heap[0] == Used(112) && a.heap[120] == Used(0)
  {
    Carved(Arena(map[0 := Free(128, 1, None)], [0]), 0, 120)
  }

  /**
    The walk of `update_free_list` as written meets no free block in that arena, so it
    leaves `first_free` at the block it held before, which is now a used block: for any
    results the walk's contract allows, with `first_free` at 0 beforehand, the list
    head names a used block and the list is not the arena's free blocks.
  */
  lemma AsWrittenRebuildKeepsStaleHead(h: map<nat, Header>, first: Option<nat>, prev: Option<nat>)
    requires prev == Last(FreeBlocks(WholeArenaTaken()))
    requires first == (if prev.None? then Some(0) else Head(FreeBlocks(WholeArenaTaken())))
    ensures FreeBlocks(WholeArenaTaken()) == []
    ensures first == Some(0) && WholeArenaTaken().heap[0].Used?
    ensures !Linked(h, first, FreeBlocks(WholeArenaTaken()))
  {
    var a := WholeArenaTaken();
    assert a.heap[a.layout[1]].Used?;
    assert FreeOffsets(a.heap, a.layout[..1]) == [] by {
      assert a.layout[..1][..0] == [];
    }
    assert FreeOffsets(a.heap, a.layout) == [];
  }

  /**
    The corrected rebuild on the same arena: an empty free list has no head, and the
    relinked headers are linked as the free blocks are.
  */
  lemma CorrectedRebuildClearsHead()
    ensures var a := WholeArenaTaken();
      Head(FreeBlocks(a)) == None && Linked(Relink(a.heap, FreeBlocks(a)), None, FreeBlocks(a))
  {
    AsWrittenRebuildKeepsStaleHead(map[], Some(0), None);
  }

  /**
    The fit test of `memory_alloc` and of the policies as written: `size + U` is
    computed in `size_t`, so it wraps for requests within `U` of 2^64.
  */
  function FitsAsWritten(avail: nat, size: uint64): (r: bool)
    ensures size as nat + U < 0x1_0000_0000_0000_0000 ==> (r <==> avail >= size as nat + U)
    ensures size as nat + U >= 0x1_0000_0000_0000_0000 && avail >= U ==> r
  {
    avail >= (size as nat + U) % 0x1_0000_0000_0000_0000
  }

  /** The fit test as intended: the block holds the request and its used header. */
  function Fits(avail: nat, size: uint64): (r: bool)
    ensures r ==> avail > size as nat
  {
    avail >= size as nat + U
  }

  /**
    The two tests agree on every request whose sum does not wrap; the largest request
    passes the written test at a block of 16 bytes that cannot hold it.
  */
  lemma FitTestWraps(avail: nat, size: uint64)
    ensures size as nat + U < 0x1_0000_0000_0000_0000 ==> (FitsAsWritten(avail, size) <==> Fits(avail, size))
    ensures FitsAsWritten(16, 0xFFFF_FFFF_FFFF_FFFF) && !Fits(16, 0xFFFF_FFFF_FFFF_FFFF)
  {
  }

  /**
    An arena of 128 bytes after `memory_init`, `memory_alloc(104)` and `memory_alloc(8)`:
    the second request takes the 16-byte remainder whole, and its used header at 112
    records a payload of 0. The zeroed bytes at 120, which read as a used header, are
    the 8 bytes that request was given the address of.
  */
  ghost function TinyBlockTaken(): (a: Arena)
    ensures Ok(a, 128) && a.layout == [0, 112, 120]
    ensures 112 in a.heap && a.heap[112] == Used(0) && a.heap[0] == Used(104)
    ensures 120 in a.heap && a.heap[120] == Used(0)
  {
    var a0 := Arena(map[0 := Free(128, 1, None)], [0]);
    assert a0.layout[..0] == [];
    CarvedOk(a0, 128, 0, 104);
    var a1 := Carved(a0, 0, 104);
    CarvedOk(a1, 128, 1, 8);
    Carved(a1, 1, 8)
  }

  /**
    `memory_free(120)` on that arena as written: the block size it records is what
    `memory_get_allocated_block_size` returns, 0, so the block at 112 becomes a free
    header of size 0 that reads as free, and a walk reaching it advances by nothing.
  */
  lemma ZeroPayloadFreeStalls()
    ensures CarvedHeader(16, 8) == Used(0)
    ensures var a := TinyBlockTaken();
      && AllocatedBlockSize(a.heap, 120) == 0
      && var h := Free(AllocatedBlockSize(a.heap, 120), 1, None);
         ReadsAsFree(h) && 112 + Footprint(h) == 112
  {
  }

  /**
    The corrected re-tag records the block's footprint, `U`: the blocks still tile the
    arena. The freed block is then too small for its link and has no free neighbour, so
    this free is outside `Freeable`.
  */
  lemma CorrectedRetagAdvances()
    ensures var a := TinyBlockTaken();
      && Tiles(Freed(a, 128, 1), 128)
      && Freed(a, 128, 1).heap[112] == Free(U, 1, None)
      && !Freeable(a, 1)
  {
    var a := TinyBlockTaken();
    FreedShape(a, 128, 1);
    UnfreeableBreaksOk(a, 128, 1);
  }
}
