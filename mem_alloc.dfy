/**
  The allocator of `basic/src/mem_alloc.c`: one arena of `memory_size` bytes, a
  free list threaded through the free headers, and the three placement policies. The
  globals `first_free` and next-fit's `prev_i` are fields; the arena's headers are a
  map from offset to header, updated in place by the operations; `heap_start` is
  offset 0 and `heap_end` is offset `memorySize`. The ghost `layout` records the walk
  order, so that each operation can be proved against the value-level definitions of
  the modules it imports.
*/
module MemAlloc {
  import opened Common
  import opened Headers
  import opened Layout
  import opened FreeList
  import opened FitPolicy
  import opened Carving
  import opened Coalescing

  /** The placement policy, chosen at build time by FIRST_FIT, BEST_FIT or NEXT_FIT. */
  datatype Policy = FirstFitPolicy | BestFitPolicy | NextFitPolicy

  datatype AllocError = InvalidSize | OutOfMemory

  /** What `memory_alloc` gives back: the payload address, or why there is none. */
  datatype AllocResult = Allocated(addr: nat) | Failed(error: AllocError)

  /** The free-list index of the candidate a policy picks; next-fit starts at `start`. */
  function Choose(policy: Policy, sizes: seq<nat>, need: nat, start: nat): (r: Option<nat>)
    ensures r.Some? ==> r.value < |sizes| && sizes[r.value] >= need
    ensures r.None? <==> forall j :: (if policy.NextFitPolicy? then start else 0) <= j < |sizes| ==> sizes[j] < need
  {
    match policy
    case FirstFitPolicy => FirstFit(sizes, need)
    case BestFitPolicy =>
      BestFitPrefixIsBest(sizes, need, |sizes|);
      BestFit(sizes, need)
    case NextFitPolicy => NextFit(sizes, need, start)
  }

  /**
    The walk of `update_free_list` over headers `heap` laid out as `layout` in an arena
    of `size` bytes: from `heap_start` to `heap_end`, each free block met is stored as
    the `next` of the previous free block, and the first one as `first_free` (which
    keeps its value `first0` when none is met). Whether a block is free is read from the
    tag byte of its header through the free-header view. Also returns the last free
    block met, the walk's `prev_i`.
  */
  method LinkFreeBlocks(heap: map<nat, Header>, ghost layout: seq<nat>, size: nat, first0: Option<nat>)
    returns (h: map<nat, Header>, first: Option<nat>, prev: Option<nat>)
    requires Tiles(Arena(heap, layout), size) && Increasing(layout)
    requires forall k :: 0 <= k < |layout| ==> layout[k] < size
    requires forall k {:trigger heap[layout[k]]} :: 0 <= k < |layout| ==>
               (IsFreeByte(heap[layout[k]]) != 0 <==> heap[layout[k]].Free?)
    ensures AllIn(heap, layout) && AllIn(heap, FreeOffsets(heap, layout))
    ensures h == LinkPairs(heap, FreeOffsets(heap, layout), |FreeOffsets(heap, layout)|)
    ensures prev == Last(FreeOffsets(heap, layout))
    ensures first == (if prev.None? then first0 else Head(FreeOffsets(heap, layout)))
  {
    assert AllIn(heap, layout);
    ghost var fl := FreeOffsets(heap, layout);
    assert AllIn(heap, fl) by {
      FreeOffsetsMembers(heap, layout);
    }
    h := heap;
    first := first0;
    var i: nat := 0;
    prev := None;
    ghost var ki: nat := 0;
    // The walk has met the first `m` free blocks: those below `i`.
    ghost var m: nat := 0;
    // The walk stands at block `ki`, or at `heap_end` after the last block.
    while i != size
      invariant ki <= |layout| && i == (if ki < |layout| then layout[ki] else size)
      invariant Below(fl, m, i)
      invariant h == LinkPairs(heap, fl, m)
      invariant prev == (if m == 0 then None else Some(fl[m - 1]))
      invariant first == (if m == 0 then first0 else Some(fl[0]))
      decreases |layout| - ki
    {
      assert ki < |layout| && i == layout[ki];
      WalkStep(heap, layout, size, fl, ki, m);
      var b := h[i];
      assert IsFreeByte(b) != 0 <==> heap[i].Free?;
      if IsFreeByte(b) != 0 {
        LinkPairsNext(heap, fl, m);
        if prev.Some? {
          h := h[prev.value := SetNext(h[prev.value], Some(i))];
        } else {
          first := Some(i);
        }
        prev := Some(i);
        m := m + 1;
        i := i + b.size as nat;
      } else {
        i := i + U + UsedSize(b);
      }
      ki := ki + 1;
    }
    assert m == |fl| by {
      if m < |fl| {
        assert fl[m] in fl;
        FreeOffsetsMembers(heap, layout);
      }
    }
  }

  /**
    The list walk `ff_alloc` and `nf_alloc` share: from `start`, which is entry `j0` of
    the list `fl` (NULL once past its tail), follow the `next` links until a block whose
    recorded size is at least `need`. The result is the first such entry at or after
    `j0`, or NULL.
  */
  method ScanList(heap: map<nat, Header>, start: Option<nat>, ghost head: Option<nat>, ghost fl: seq<nat>,
                  ghost sizes: seq<nat>, ghost j0: nat, need: nat)
    returns (r: Option<nat>)
    requires Linked(heap, head, fl) && |sizes| == |fl|
    requires forall j :: 0 <= j < |fl| ==> sizes[j] == heap[fl[j]].size as nat
    requires j0 <= |fl| && start == (if j0 < |fl| then Some(fl[j0]) else None)
    ensures r == At(fl, FirstFitFrom(sizes, need, j0))
  {
    var i := start;
    ghost var j := j0;
    while i.Some?
      invariant j0 <= j <= |fl| && i == (if j < |fl| then Some(fl[j]) else None)
      invariant FirstFitFrom(sizes, need, j) == FirstFitFrom(sizes, need, j0)
      decreases |fl| - j
    {
      if heap[i.value].size as nat >= need {
        break;
      }
      i := heap[i.value].next;
      j := j + 1;
    }
    r := i;
  }

  /**
    The scan of `bf_alloc` over the list `fl` starting at `first`: among the blocks
    whose recorded size is at least `need`, keep the smallest, and replace the current
    minimum only by a strictly smaller one, so ties go to the first seen.
  */
  method BestFitScan(heap: map<nat, Header>, first: Option<nat>, ghost fl: seq<nat>,
                     ghost sizes: seq<nat>, need: nat)
    returns (min: Option<nat>)
    requires Linked(heap, first, fl) && |sizes| == |fl|
    requires forall j :: 0 <= j < |fl| ==> sizes[j] == heap[fl[j]].size as nat
    ensures min == At(fl, BestFit(sizes, need))
  {
    var i := first;
    min := None;
    ghost var j := 0;
    while i.Some?
      invariant j <= |fl| && i == (if j < |fl| then Some(fl[j]) else None)
      invariant min == At(fl, BestFitPrefix(sizes, need, j))
      decreases |fl| - j
    {
      if heap[i.value].size as nat >= need {
        if min.None? {
          min := i;
        }
        if heap[i.value].size < heap[min.value].size {
          min := i;
        }
      }
      i := heap[i.value].next;
      j := j + 1;
    }
  }

  /**
    The header walk of `get_next`, from the block at `start` to the first block whose
    tag reads free: that block is the first free block at or after `start`, the entry
    at `StartIndex(., start)` of the free index. Reaching `heap_end` yields no block.
  */
  method SkipUsed(heap: map<nat, Header>, ghost layout: seq<nat>, size: nat, start: nat)
    returns (r: Option<nat>)
    requires Tiles(Arena(heap, layout), size) && Increasing(layout) && start in layout
    requires forall k :: 0 <= k < |layout| ==> layout[k] < size
    requires forall k {:trigger heap[layout[k]]} :: 0 <= k < |layout| ==>
               (IsFreeByte(heap[layout[k]]) != 0 <==> heap[layout[k]].Free?)
    ensures AllIn(heap, layout)
    ensures var fl := FreeOffsets(heap, layout);
      r == (if StartIndex(fl, start) < |fl| then Some(fl[StartIndex(fl, start)]) else None)
  {
    assert AllIn(heap, layout);
    ghost var fl := FreeOffsets(heap, layout);
    var i: nat := start;
    ghost var ki := IndexOf(layout, start);
    ghost var m := StartIndex(fl, start);
    while i != size
      invariant ki <= |layout| && i == (if ki < |layout| then layout[ki] else size)
      invariant Below(fl, m, i)
      decreases |layout| - ki
    {
      assert ki < |layout| && i == layout[ki];
      WalkStep(heap, layout, size, fl, ki, m);
      var b := heap[i];
      if IsFreeByte(b) != 0 {
        return Some(i);
      }
      i := i + U + UsedSize(b);
      ki := ki + 1;
    }
    assert m == |fl| by {
      if m < |fl| {
        assert fl[m] in fl;
        FreeOffsetsMembers(heap, layout);
      }
    }
    r := None;
  }

  /**
    The backward search of `memory_free` over the list `fl` starting at `first`: step
    along the links, remembering the entry left behind, until the entry reached lies at
    or above the freed block `b` or the list ends. A NULL link compares below every
    block, so the search stops at the tail.
  */
  method PrecedingScan(heap: map<nat, Header>, first: Option<nat>, ghost fl: seq<nat>, b: nat)
    returns (t: Option<nat>)
    requires Linked(heap, first, fl)
    ensures t == Preceding(fl, b)
  {
    var i := first;
    if i.None? {
      return None;
    }
    var tmp: nat := i.value;
    ghost var j := 0;
    while i.Some?
      invariant j <= |fl| && i == (if j < |fl| then Some(fl[j]) else None)
      invariant j == 0 ==> i == first
      invariant j > 0 ==> tmp == fl[j - 1] && PrecedingFrom(fl, b, 0) == PrecedingFrom(fl, b, j - 1)
      invariant j > 0 && j < |fl| ==> fl[j] < b
      decreases |fl| - j
    {
      tmp := i.value;
      i := heap[i.value].next;
      j := j + 1;
      if i.Some? && i.value >= b {
        break;
      }
    }
    t := Some(tmp);
  }

  /**
    The writes `memory_alloc` makes at candidate `c`, block `k` of the walk: without a
    split the block is zeroed and its header records `avail - F`; with a split the used
    header records the request and a free header for the remainder follows the payload.
  */
  method CarveBlock(heap: map<nat, Header>, ghost layout: seq<nat>, ghost k: nat, c: nat, req: uint64)
    returns (h: map<nat, Header>, ghost l: seq<nat>)
    requires InHeap(Arena(heap, layout)) && k < |layout| && layout[k] == c && heap[c].Free?
    requires heap[c].size as nat >= req as nat + U && heap[c].size as nat >= F
    ensures h == Carved(Arena(heap, layout), k, req as nat).heap
    ensures l == Carved(Arena(heap, layout), k, req as nat).layout
  {
    var avail := heap[c].size as nat;
    if avail < req as nat + U + F {
      h := heap[c := Used(avail - F)][c + avail - U := Used(0)];
      l := InsertAfterIndex(layout, k, c + avail - U);
    } else {
      h := heap[c := Used(req)][c + U + req as nat := Free(avail - U - req as nat, 1, None)];
      l := InsertAfterIndex(layout, k, c + U + req as nat);
    }
  }

  /** Step 1 of `memory_free` at block `k`: tag it free and record its whole size `sz`. */
  method RetagBlock(heap: map<nat, Header>, ghost layout: seq<nat>, ghost k: nat, b: nat, sz: nat)
    returns (h: map<nat, Header>)
    requires InHeap(Arena(heap, layout)) && k < |layout| && layout[k] == b && heap[b].Used?
    requires sz == heap[b].payload as nat + U < 0x1_0000_0000
    ensures Arena(h, layout) == Retag(Arena(heap, layout), k)
  {
    h := heap[b := Free(sz, 1, None)];
  }

  /**
    A coalescing step of `memory_free`: free block `c`, block `k` of the walk, grows by
    the free block `n` after it, whose header is zeroed and leaves the walk.
  */
  method AbsorbBlock(heap: map<nat, Header>, ghost layout: seq<nat>, ghost k: nat, c: nat, n: nat)
    returns (h: map<nat, Header>, ghost l: seq<nat>)
    requires InHeap(Arena(heap, layout)) && k + 1 < |layout| && layout[k] == c && layout[k + 1] == n
    requires heap[c].Free? && heap[n].Free?
    requires heap[c].size as nat + heap[n].size as nat < 0x1_0000_0000
    ensures h == AbsorbNext(Arena(heap, layout), k).heap && l == AbsorbNext(Arena(heap, layout), k).layout
  {
    h := heap[c := Free(heap[c].size as nat + heap[n].size as nat, 1, heap[c].next)] - {n};
    l := RemoveIndex(layout, k + 1);
  }

  /**
    `memory_get_allocated_block_size` for payload address `p`: the bytes the used block
    spans, its header included, which is how far a header walk advances over it; 0 for
    a block recorded with no payload.
  */
  function AllocatedBlockSize(heap: map<nat, Header>, p: nat): (r: nat)
    requires p >= U && p - U in heap && heap[p - U].Used?
    ensures r == 0 <==> heap[p - U].payload == 0
    ensures r != 0 ==> r == Footprint(heap[p - U])
  {
    if UsedSize(heap[p - U]) != 0 then UsedSize(heap[p - U]) + U else 0
  }

  /**
    Steps 1 and 2 of `memory_free` for payload address `p`, block `k` of the walk: the
    block is tagged free with its whole size, then absorbs the block starting where it
    ends when that offset is inside the arena and its tag reads free. Reports whether
    that merge happened and the offset of the block it absorbed. The size recorded is
    the block's footprint, also for a block of no payload, for which
    `AllocatedBlockSize` gives 0.
  */
  method MergeForward(heap: map<nat, Header>, ghost layout: seq<nat>, size: nat, p: nat, ghost k: nat)
    returns (h: map<nat, Header>, ghost l: seq<nat>, e: nat, merged: bool)
    requires Ok(Arena(heap, layout), size) && k < |layout| && p >= U && layout[k] == p - U
    requires heap[p - U].Used?
    ensures Arena(h, l) == ForwardMerged(Arena(heap, layout), size, k)
    ensures merged == NextIsFree(Arena(heap, layout), k)
    ensures merged ==> e == layout[k + 1]
  {
    ghost var a := Arena(heap, layout);
    var b := p - U;
    BlockEnds(a, size, k);
    RetagFacts(a, size, k);
    ForwardCheck(a, size, k);
    var sz := U + UsedSize(heap[b]);
    h := RetagBlock(heap, layout, k, b, sz);
    l := layout;
    e := b + sz;
    merged := false;
    if e < size && IsFreeByte(h[e]) != 0 {
      assert h[e] == heap[e];
      AbsorbBound(Arena(h, l), size, k);
      h, l := AbsorbBlock(h, l, k, b, e);
      merged := true;
    }
  }

  /**
    The header writes of `memory_free` for payload address `p`, block `k` of the walk,
    with the list from `first` still intact: the backward search, then steps 1 and 2,
    then the merge into the entry found when it ends where the freed block starts.
    Reports which merges happened and the offset the forward merge absorbed.
  */
  method Coalesce(heap: map<nat, Header>, ghost layout: seq<nat>, size: nat, first: Option<nat>,
                  p: nat, ghost k: nat)
    returns (h: map<nat, Header>, ghost l: seq<nat>, e: nat, forward: bool, backward: bool)
    requires Ok(Arena(heap, layout), size) && Linked(heap, first, FreeBlocks(Arena(heap, layout)))
    requires k < |layout| && p >= U && layout[k] == p - U
    requires heap[p - U].Used?
    ensures Arena(h, l) == Freed(Arena(heap, layout), size, k)
    ensures forward == NextIsFree(Arena(heap, layout), k) && (forward ==> e == layout[k + 1])
    ensures backward == PrevIsFree(Arena(heap, layout), k)
  {
    ghost var a := Arena(heap, layout);
    var b := p - U;
    var t := PrecedingScan(heap, first, FreeBlocks(a), b);
    PrecedingMerges(a, size, k);
    backward := t.Some? && t.value + heap[t.value].size as nat == b;
    h, l, e, forward := MergeForward(heap, layout, size, p, k);
    if backward {
      PrecedingAfterFree(a, size, k);
      h, l := MergeBackward(h, l, a, size, k, t.value, b);
    }
  }

  /**
    Step 3 of `memory_free` once the previous block `t` has been found to end where the
    freed block `b`, block `k` of the walk of `a`, starts: `t` absorbs it.
  */
  method MergeBackward(heap: map<nat, Header>, ghost layout: seq<nat>, ghost a: Arena, size: nat,
                       ghost k: nat, t: nat, b: nat)
    returns (h: map<nat, Header>, ghost l: seq<nat>)
    requires Ok(a, size) && k < |a.layout| && a.heap[a.layout[k]].Used?
    requires PrevIsFree(a, k) && t == a.layout[k - 1]
    requires b == a.layout[k]
    requires Arena(heap, layout) == ForwardMerged(a, size, k)
    ensures h == Freed(a, size, k).heap && l == Freed(a, size, k).layout
  {
    BackwardReady(a, size, k);
    h, l := AbsorbBlock(heap, layout, k - 1, t, b);
  }

  class Allocator {
    /** `memory_size`: the arena spans offsets `0 .. memorySize`. */
    const memorySize: nat
    const policy: Policy
    /** The header at each block offset. */
    var heap: map<nat, Header>
    /** `first_free`. */
    var firstFree: Option<nat>
    /** Next-fit's `prev_i`: the block the last next-fit search returned. */
    var prevCursor: Option<nat>
    /** The block offsets a header walk from `heap_start` visits, in order. */
    ghost var layout: seq<nat>

    ghost function Blocks(): Arena
      reads this
    {
      Arena(heap, layout)
    }

    /**
      The allocator's invariant: the blocks tile the arena with well-formed headers and no
      two neighbouring free blocks, the list from `first_free` is exactly the free blocks
      in address order, and the next-fit cursor is at a block.
    */
    ghost predicate Valid()
      reads this
    {
      && Ok(Blocks(), memorySize)
      && Linked(heap, firstFree, FreeBlocks(Blocks()))
      && (prevCursor.Some? ==> prevCursor.value in layout)
    }

    /** The free list, as the sequence of its entries. */
    ghost function FreeIndex(): seq<nat>
      reads this
      requires InHeap(Blocks())
    {
      FreeBlocks(Blocks())
    }

    /** The sizes the policies compare, in list order. */
    ghost function FreeSizes(): seq<nat>
      reads this
      requires Valid()
    {
      Sizes(heap, FreeIndex())
    }

    /** Where next-fit's scan starts: the first list entry at or after the cursor. */
    ghost function CursorStart(): nat
      reads this
      requires Valid()
    {
      if prevCursor.None? then 0 else StartIndex(FreeIndex(), prevCursor.value)
    }

    /** The candidate index the configured policy picks for a request of `size` bytes. */
    ghost function Pick(size: nat): Option<nat>
      reads this
      requires Valid()
    {
      Choose(policy, FreeSizes(), size + U, CursorStart())
    }

    /** `memory_init`: the whole arena is one free block, and it is the list. */
    constructor (size: nat, policy: Policy)
      requires SizeOk(size)
      ensures Valid()
      ensures memorySize == size && this.policy == policy
      ensures heap == map[0 := Header.Free(size, 1, None)] && layout == [0]
      ensures firstFree == Some(0) && prevCursor == None
    {
      memorySize := size;
      this.policy := policy;
      heap := map[0 := Header.Free(size, 1, None)];
      firstFree := Some(0);
      prevCursor := None;
      layout := [0];
      new;
      assert [0][..0] == [];
    }

    /** `ff_alloc`: the first block of the list, from `first_free`, that fits. */
    method FirstFitSearch(size: nat) returns (r: Option<nat>)
      requires Valid()
      ensures r == At(FreeIndex(), FirstFit(FreeSizes(), size + U))
    {
      r := ScanList(heap, firstFree, firstFree, FreeIndex(), FreeSizes(), 0, size + U);
    }

    /** `bf_alloc`: the best-fitting block of the list, from `first_free`. */
    method BestFitSearch(size: nat) returns (r: Option<nat>)
      requires Valid()
      ensures r == At(FreeIndex(), BestFit(FreeSizes(), size + U))
    {
      r := BestFitScan(heap, firstFree, FreeIndex(), FreeSizes(), size + U);
    }

    /**
      `get_next`: without a cursor, the list head; otherwise the first block tagged free
      at or after the cursor's block, which is the first list entry at or after it.
      Reaching `heap_end` yields no block.
    */
    method GetNext() returns (i: Option<nat>)
      requires Valid()
      ensures i == (if CursorStart() < |FreeIndex()| then Some(FreeIndex()[CursorStart()]) else None)
    {
      if prevCursor.None? {
        return firstFree;
      }
      Ordered(Blocks(), memorySize);
      forall k | 0 <= k < |layout|
        ensures IsFreeByte(heap[layout[k]]) != 0 <==> heap[layout[k]].Free?
      {
        ReadsAsFreeIffFree(heap[layout[k]]);
      }
      i := SkipUsed(heap, layout, memorySize, prevCursor.value);
    }

    /**
      `nf_alloc`: from the block `get_next` returns, the first list entry that fits; the
      result, found or not, becomes the cursor `prev_i`.
    */
    method NextFitSearch(size: nat) returns (r: Option<nat>)
      requires Valid()
      modifies this
      ensures heap == old(heap) && layout == old(layout) && firstFree == old(firstFree)
      ensures r == old(At(FreeIndex(), NextFit(FreeSizes(), size + U, CursorStart())))
      ensures prevCursor == r
      ensures Valid()
    {
      ghost var fl := FreeIndex();
      ghost var want := At(fl, NextFit(FreeSizes(), size + U, CursorStart()));
      var i := GetNext();
      i := ScanList(heap, i, firstFree, fl, FreeSizes(), CursorStart(), size + U);
      if i.Some? {
        assert i.value in fl;
        EntryInLayout(Blocks(), i.value);
      }
      ghost var a := Blocks();
      prevCursor := i;
      assert Blocks() == a;
      r := i;
    }

    /**
      `memory_alloc`: a request of 0 bytes is refused; otherwise the policy's candidate
      is carved, a split taking place only when the remainder can hold a free header,
      and the list is rebuilt. The result is the address just after the used header.
    */
    method Alloc(size: uint64) returns (res: AllocResult)
      requires Valid()
      modifies this
      ensures Valid()
      ensures size == 0 ==>
                (res == Failed(InvalidSize) && heap == old(heap) && layout == old(layout)
                 && firstFree == old(firstFree) && prevCursor == old(prevCursor))
      ensures size > 0 && old(Pick(size)).None? ==>
                (res == Failed(OutOfMemory) && heap == old(heap) && layout == old(layout)
                 && firstFree == old(firstFree)
                 && prevCursor == (if policy.NextFitPolicy? then None else old(prevCursor)))
      ensures size > 0 && old(Pick(size)).Some? ==>
                var a := old(Blocks());
                var k := FreeAt(a, old(Pick(size)).value);
                var r := Carved(a, k, size);
                && res == Allocated(a.layout[k] + U)
                && layout == r.layout && heap == Relink(r.heap, FreeBlocks(r))
                && firstFree == Head(FreeBlocks(r))
                && prevCursor == (if policy.NextFitPolicy? then Some(a.layout[k]) else old(prevCursor))
    {
      if size == 0 {
        return Failed(InvalidSize);
      }
      ghost var a := Blocks();
      ghost var pick := Pick(size);
      ghost var fl := FreeIndex();
      var cand: Option<nat>;
      match policy {
        case FirstFitPolicy =>
          cand := FirstFitSearch(size);
        case BestFitPolicy =>
          cand := BestFitSearch(size);
        case NextFitPolicy =>
          cand := NextFitSearch(size);
      }
      assert a == Blocks() && cand == At(fl, pick);
      if cand.None? {
        assert pick.None?;
        return Failed(OutOfMemory);
      }
      ghost var k := FreeAt(a, pick.value);
      var c := cand.value;
      assert c == a.layout[k] && HoldsLink(heap[c]);
      Place(c, k, size);
      res := Allocated(c + U);
    }

    /**
      The carve of `memory_alloc` at candidate `c`, block `k` of the walk, for a request
      of `size` bytes, followed by the list rebuild. The cursor is left where it is.
    */
    method Place(c: nat, ghost k: nat, size: uint64)
      requires Valid() && k < |layout| && layout[k] == c && heap[c].Free?
      requires heap[c].size as nat >= size as nat + U && heap[c].size as nat >= F
      modifies this
      ensures Valid()
      ensures var r := Carved(old(Blocks()), k, size as nat);
        && layout == r.layout && heap == Relink(r.heap, FreeBlocks(r))
        && firstFree == Head(FreeBlocks(r))
      ensures prevCursor == old(prevCursor)
    {
      ghost var a := Blocks();
      CarvedOk(a, memorySize, k, size as nat);
      heap, layout := CarveBlock(heap, layout, k, c, size);
      if prevCursor.Some? {
        InsertKeeps(a.layout, k, layout[k + 1], prevCursor.value);
      }
      UpdateFreeList();
    }

    /**
      `memory_free`: the block of payload address `p` becomes a free block, absorbs the
      next block when it is free, and is absorbed by the previous block when the
      backward search finds that one ending where it starts; then the list is rebuilt.
      A next-fit cursor on an absorbed block is dropped.
    */
    method Free(p: nat)
      requires Valid() && p >= U && p - U in layout
      requires heap[p - U].Used? && Freeable(Blocks(), IndexOf(layout, p - U))
      modifies this
      ensures Valid()
      ensures var a := old(Blocks());
        var r := Freed(a, memorySize, IndexOf(a.layout, p - U));
        && layout == r.layout && heap == Relink(r.heap, FreeBlocks(r))
        && firstFree == Head(FreeBlocks(r))
      ensures prevCursor == (if old(prevCursor).Some? && old(prevCursor).value in layout
                             then old(prevCursor) else None)
    {
      ghost var a := Blocks();
      FreedOk(a, memorySize, IndexOf(layout, p - U));
      Release(p);
      UpdateFreeList();
    }

    /**
      The header writes of `memory_free` for payload address `p`, and the drop of a
      next-fit cursor on a block they absorbed; the list is not rebuilt yet.
    */
    method Release(p: nat)
      requires Valid() && p >= U && p - U in layout
      requires heap[p - U].Used? && Freeable(Blocks(), IndexOf(layout, p - U))
      modifies this
      ensures Blocks() == Freed(old(Blocks()), memorySize, IndexOf(old(layout), p - U))
      ensures firstFree == old(firstFree)
      ensures prevCursor == (if old(prevCursor).Some? && old(prevCursor).value in layout
                             then old(prevCursor) else None)
    {
      ghost var a := Blocks();
      ghost var k := IndexOf(layout, p - U);
      ghost var r := Freed(a, memorySize, k);
      ghost var absorbed := if NextIsFree(a, k) then a.layout[k + 1] else 0;
      CursorAfterFree(a, memorySize, k, prevCursor, absorbed, NextIsFree(a, k), PrevIsFree(a, k));
      var e, forward, backward;
      heap, layout, e, forward, backward := Coalesce(heap, layout, memorySize, firstFree, p, k);
      assert Blocks() == r;
      var cursor := prevCursor;
      if (forward && cursor == Some(e)) || (backward && cursor == Some(p - U)) {
        cursor := None;
      }
      prevCursor := cursor;
      assert Blocks() == r;
    }

    /**
      `update_free_list`: the walk, then the last free block's link set to NULL, or
      `first_free` set to NULL when the walk met no free block.
    */
    method UpdateFreeList()
      requires Ok(Blocks(), memorySize) && (prevCursor.Some? ==> prevCursor.value in layout)
      modifies this
      ensures layout == old(layout) && prevCursor == old(prevCursor)
      ensures heap == Relink(old(heap), FreeBlocks(old(Blocks())))
      ensures firstFree == Head(FreeBlocks(old(Blocks())))
      ensures FreeIndex() == FreeBlocks(old(Blocks()))
      ensures Valid()
    {
      ghost var a0 := Blocks();
      ghost var h0 := heap;
      ghost var fl := FreeBlocks(a0);
      Ordered(a0, memorySize);
      forall k | 0 <= k < |layout|
        ensures IsFreeByte(heap[layout[k]]) != 0 <==> heap[layout[k]].Free?
      {
        ReadsAsFreeIffFree(heap[layout[k]]);
      }
      var h, first, prev := LinkFreeBlocks(heap, layout, memorySize, firstFree);
      heap, firstFree := h, first;
      if prev.Some? {
        heap := heap[prev.value := SetNext(heap[prev.value], None)];
      } else {
        firstFree := None;
      }
      FreeOffsetsIncreasing(h0, layout);
      RelinkIsLinked(h0, fl);
      RelinkKeepsIndex(h0, fl, layout);
      OkIgnoresLinks(a0, Blocks(), memorySize);
    }
  }
}
