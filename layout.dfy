/**
  The arena as a header walk sees it: a map from block offsets to headers, and the
  offsets a walk from offset 0 visits, in order. The walk invariants of the allocator are
  stated here as predicates on such an arena.
*/
module Layout {
  import opened Common
  import opened Headers

  /**
    `heap` holds the header at each block offset; `layout` lists the offsets the walk from
    `heap_start` visits, in address order.
  */
  datatype Arena = Arena(heap: map<nat, Header>, layout: seq<nat>)

  /** `memory_size` is an int, and the arena must hold at least one free header. */
  predicate SizeOk(size: nat)
  {
    F <= size < 0x8000_0000
  }

  ghost predicate Increasing(s: seq<nat>)
  {
    forall i, j :: 0 <= i < j < |s| ==> s[i] < s[j]
  }

  /** Where the walk goes after block `k`: the next block, or `heap_end` after the last one. */
  function NextStart(layout: seq<nat>, size: nat, k: nat): nat
    requires k < |layout|
  {
    if k + 1 < |layout| then layout[k + 1] else size
  }

  ghost predicate InHeap(a: Arena)
  {
    forall k :: 0 <= k < |a.layout| ==> a.layout[k] in a.heap
  }

  /**
    Tiling: the walk starts at offset 0, advancing from each block by its footprint
    lands on the next block, and from the last block lands exactly on `memory_size`.
  */
  ghost predicate Tiles(a: Arena, size: nat)
  {
    && InHeap(a)
    && |a.layout| > 0
    && a.layout[0] == 0
    && forall k {:trigger NextStart(a.layout, size, k)} :: 0 <= k < |a.layout| ==>
         a.layout[k] + Footprint(a.heap[a.layout[k]]) == NextStart(a.layout, size, k)
  }

  ghost predicate HeadersOk(a: Arena)
    requires InHeap(a)
  {
    forall k :: 0 <= k < |a.layout| ==> WellFormed(a.heap[a.layout[k]])
  }

  /** Every free block of the walk can hold its `next` link. */
  ghost predicate Roomy(a: Arena)
    requires InHeap(a)
  {
    forall k :: 0 <= k < |a.layout| ==> HoldsLink(a.heap[a.layout[k]])
  }

  /** Blocks `k` and `k + 1` of the walk are both free. */
  ghost predicate FreePair(a: Arena, k: nat)
    requires InHeap(a) && k + 1 < |a.layout|
  {
    a.heap[a.layout[k]].Free? && a.heap[a.layout[k + 1]].Free?
  }

  /** Coalescing has merged every pair of neighbouring free blocks. */
  ghost predicate NoAdjacentFree(a: Arena)
    requires InHeap(a)
  {
    forall k :: 0 <= k < |a.layout| - 1 ==> !FreePair(a, k)
  }

  /** What a header walk over the arena relies on: the blocks tile it with well-formed headers. */
  ghost predicate Walkable(a: Arena, size: nat)
  {
    SizeOk(size) && Tiles(a, size) && HeadersOk(a)
  }

  /** The shape invariant the allocator keeps at every quiescent point. */
  ghost predicate Ok(a: Arena, size: nat)
  {
    SizeOk(size) && Tiles(a, size) && HeadersOk(a) && Roomy(a) && NoAdjacentFree(a)
  }

  /** The position of an offset in the walk. */
  function IndexOf(s: seq<nat>, x: nat): (k: nat)
    requires x in s
    ensures k < |s| && s[k] == x
  {
    if s[0] == x then 0 else 1 + IndexOf(s[1..], x)
  }

  /** Each step of the walk moves forward. */
  lemma StepForward(a: Arena, size: nat)
    requires Tiles(a, size) && HeadersOk(a)
    ensures forall k {:trigger NextStart(a.layout, size, k)} :: 0 <= k < |a.layout| ==>
              a.layout[k] < NextStart(a.layout, size, k)
  {
    forall k | 0 <= k < |a.layout|
      ensures a.layout[k] < NextStart(a.layout, size, k)
    {
      FootprintPositive(a.heap[a.layout[k]]);
    }
  }

  lemma {:induction false} Chain(a: Arena, size: nat, i: nat, j: nat)
    requires InHeap(a)
    requires forall k {:trigger NextStart(a.layout, size, k)} :: 0 <= k < |a.layout| ==>
               a.layout[k] < NextStart(a.layout, size, k)
    requires i < j < |a.layout|
    ensures a.layout[i] < a.layout[j]
    decreases j - i
  {
    assert a.layout[j - 1] < NextStart(a.layout, size, j - 1);
    if i < j - 1 {
      Chain(a, size, i, j - 1);
    }
  }

  /** One pair of walk positions in address order. */
  lemma {:induction false} Apart(a: Arena, size: nat, i: nat, j: nat)
    requires Tiles(a, size) && HeadersOk(a)
    requires i < j < |a.layout|
    ensures a.layout[i] < a.layout[j]
  {
    StepForward(a, size);
    Chain(a, size, i, j);
  }

  /** No offset is visited twice. */
  lemma {:induction false} Injective(a: Arena, size: nat, i: nat, j: nat)
    requires Tiles(a, size) && HeadersOk(a)
    requires i < |a.layout| && j < |a.layout| && a.layout[i] == a.layout[j]
    ensures i == j
  {
    if i < j {
      Apart(a, size, i, j);
    } else if j < i {
      Apart(a, size, j, i);
    }
  }

  /** Every block starts below `heap_end`. */
  lemma {:induction false} BelowEnd(a: Arena, size: nat, k: nat)
    requires Tiles(a, size) && HeadersOk(a) && k < |a.layout|
    ensures a.layout[k] < size
  {
    var n := |a.layout|;
    assert a.layout[n - 1] + Footprint(a.heap[a.layout[n - 1]]) == NextStart(a.layout, size, n - 1);
    FootprintPositive(a.heap[a.layout[n - 1]]);
    if k < n - 1 {
      Apart(a, size, k, n - 1);
    }
  }

  /** The walk visits strictly increasing offsets, all inside the arena. */
  lemma Ordered(a: Arena, size: nat)
    requires Tiles(a, size) && HeadersOk(a)
    ensures Increasing(a.layout)
    ensures forall i :: 0 <= i < |a.layout| ==> a.layout[i] < size
  {
    StepForward(a, size);
    var n := |a.layout|;
    forall i, j | 0 <= i < j < n
      ensures a.layout[i] < a.layout[j]
    {
      Chain(a, size, i, j);
    }
    forall i | 0 <= i < n
      ensures a.layout[i] < size
    {
      assert a.layout[n - 1] < NextStart(a.layout, size, n - 1);
      if i < n - 1 {
        Chain(a, size, i, n - 1);
      }
    }
  }

  /** Every block ends inside the arena: footprints are bounded by `memory_size`. */
  lemma {:induction false} BlockEnds(a: Arena, size: nat, k: nat)
    requires Tiles(a, size) && HeadersOk(a)
    requires k < |a.layout|
    ensures a.layout[k] + Footprint(a.heap[a.layout[k]]) <= size
  {
    Ordered(a, size);
    assert a.layout[k] + Footprint(a.heap[a.layout[k]]) == NextStart(a.layout, size, k);
  }

  /** The walk invariants depend only on header shapes, not on free-list links. */
  lemma {:induction false} OkIgnoresLinks(a: Arena, b: Arena, size: nat)
    requires Ok(a, size)
    requires b.layout == a.layout
    requires forall k :: 0 <= k < |a.layout| ==>
               a.layout[k] in b.heap && Shape(b.heap[a.layout[k]]) == Shape(a.heap[a.layout[k]])
    ensures Ok(b, size)
  {
    forall k | 0 <= k < |a.layout|
      ensures Footprint(b.heap[b.layout[k]]) == Footprint(a.heap[a.layout[k]])
      ensures WellFormed(b.heap[b.layout[k]]) && HoldsLink(b.heap[b.layout[k]])
      ensures b.heap[b.layout[k]].Free? == a.heap[a.layout[k]].Free?
    {
      SameShape(b.heap[b.layout[k]], a.heap[a.layout[k]]);
    }
    forall k | 0 <= k < |a.layout| - 1
      ensures !FreePair(b, k)
    {
      assert !FreePair(a, k);
    }
  }
}
