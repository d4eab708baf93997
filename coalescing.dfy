/**
  What `memory_free` does to the blocks: re-tag the block as free, absorb the next block
  when it is free, and merge into the previous block when that one is free and ends
  where the freed block starts. Stated on arena values, by the block's neighbours in
  the walk; the allocator's method finds the previous block through the free list.
*/
module Coalescing {
  import opened Common
  import opened Headers
  import opened Layout
  import opened FreeList

  /** The walk order without position `i`. */
  function RemoveIndex(s: seq<nat>, i: nat): (r: seq<nat>)
    requires i < |s|
    ensures |r| == |s| - 1
    ensures forall j :: 0 <= j < i ==> r[j] == s[j]
    ensures forall j :: i <= j < |r| ==> r[j] == s[j + 1]
  {
    s[..i] + s[i + 1..]
  }

  /** Removing one position keeps every other offset in the walk order. */
  lemma RemoveKeeps(s: seq<nat>, i: nat, x: nat)
    requires i < |s| && x in s && x != s[i]
    ensures x in RemoveIndex(s, i)
  {
    var q := IndexOf(s, x);
    if q < i {
      assert RemoveIndex(s, i)[q] == x;
    } else {
      assert RemoveIndex(s, i)[q - 1] == x;
    }
  }

  /**
    On an address-ordered walk, removing a position drops exactly that offset: the
    remaining offsets are those of the walk other than the removed one.
  */
  lemma RemoveDrops(s: seq<nat>, i: nat, x: nat)
    requires Increasing(s) && i < |s|
    ensures x in RemoveIndex(s, i) <==> x in s && x != s[i]
  {
    var r := RemoveIndex(s, i);
    if x in r {
      var q := IndexOf(r, x);
      if q < i {
        assert s[q] == x;
      } else {
        assert s[q + 1] == x;
      }
    }
    if x in s && x != s[i] {
      RemoveKeeps(s, i, x);
    }
  }

  /** Step 1: the used block becomes a free block of footprint `payload + U`. */
  ghost function Retag(a: Arena, k: nat): Arena
    requires InHeap(a) && k < |a.layout| && a.heap[a.layout[k]].Used?
    requires a.heap[a.layout[k]].payload as nat + U < 0x1_0000_0000
  {
    var b := a.layout[k];
    Arena(a.heap[b := Free(a.heap[b].payload as nat + U, 1, None)], a.layout)
  }

  /**
    Block `k` absorbs the free block after it: its size grows by the neighbour's, its
    link is kept, and the neighbour's header is zeroed, so it leaves the walk.
  */
  ghost function AbsorbNext(a: Arena, k: nat): Arena
    requires InHeap(a) && k + 1 < |a.layout|
    requires a.heap[a.layout[k]].Free? && a.heap[a.layout[k + 1]].Free?
    requires a.heap[a.layout[k]].size as nat + a.heap[a.layout[k + 1]].size as nat < 0x1_0000_0000
  {
    var c, n := a.layout[k], a.layout[k + 1];
    var merged := Free(a.heap[c].size as nat + a.heap[n].size as nat, 1, a.heap[c].next);
    Arena(a.heap[c := merged] - {n}, RemoveIndex(a.layout, k + 1))
  }

  /** The block after a freed block, as the forward check sees it. */
  ghost predicate NextIsFree(a: Arena, k: nat)
    requires InHeap(a) && k < |a.layout|
  {
    k + 1 < |a.layout| && a.heap[a.layout[k + 1]].Free?
  }

  /** The block before a freed block, as the backward merge needs it. */
  ghost predicate PrevIsFree(a: Arena, k: nat)
    requires InHeap(a) && k < |a.layout|
  {
    k > 0 && a.heap[a.layout[k - 1]].Free?
  }

  /**
    `r` is `a` with the walk positions `lo..hi` replaced by one block at `a.layout[lo]`:
    every block before `lo` is untouched, and every block after `hi` is untouched and
    moved down by `hi - lo` places.
  */
  ghost predicate Spliced(a: Arena, r: Arena, lo: nat, hi: nat)
    requires InHeap(a) && InHeap(r)
  {
    && lo <= hi < |a.layout| && |r.layout| == |a.layout| - (hi - lo)
    && r.layout[lo] == a.layout[lo]
    && (forall j :: 0 <= j < lo ==> r.layout[j] == a.layout[j] && r.heap[r.layout[j]] == a.heap[a.layout[j]])
    && (forall j :: hi < j < |a.layout| ==>
          r.layout[j - (hi - lo)] == a.layout[j] && r.heap[r.layout[j - (hi - lo)]] == a.heap[a.layout[j]])
  }

  /** The merged block ends where the replaced span ended. */
  lemma {:induction false} SplicedEnd(a: Arena, r: Arena, size: nat, lo: nat, hi: nat)
    requires InHeap(a) && InHeap(r) && Spliced(a, r, lo, hi)
    ensures NextStart(r.layout, size, lo) == NextStart(a.layout, size, hi)
  {
    if hi + 1 < |a.layout| {
      assert r.layout[hi + 1 - (hi - lo)] == a.layout[hi + 1];
    }
  }

  /** A splice of a splice that overlaps it is one splice. */
  lemma {:induction false} SplicedCompose(a: Arena, b: Arena, c: Arena, lo: nat, hi: nat, lo2: nat, hi2: nat)
    requires InHeap(a) && InHeap(b) && InHeap(c)
    requires Spliced(a, b, lo, hi) && Spliced(b, c, lo2, hi2) && lo2 <= lo <= hi2
    ensures Spliced(a, c, lo2, hi + (hi2 - lo))
  {
    var h := hi + (hi2 - lo);
    forall j | h < j < |a.layout|
      ensures c.layout[j - (h - lo2)] == a.layout[j] && c.heap[c.layout[j - (h - lo2)]] == a.heap[a.layout[j]]
    {
      assert b.layout[j - (hi - lo)] == a.layout[j];
      assert c.layout[j - (hi - lo) - (hi2 - lo2)] == b.layout[j - (hi - lo)];
    }
  }

  /**
    Absorbing block `k + 1` into block `k` of an arena `b` spliced from `a` over a span
    that starts at `k` or `k + 1` is again a splice of `a`, over the joined span.
  */
  lemma {:induction false} AbsorbAfterSplice(a: Arena, b: Arena, size: nat, lo: nat, hi: nat, k: nat)
    requires InHeap(a) && Tiles(b, size) && HeadersOk(b) && size < 0x8000_0000
    requires Spliced(a, b, lo, hi) && k <= lo <= k + 1 && k + 1 < |b.layout|
    requires b.heap[b.layout[k]].Free? && b.heap[b.layout[k + 1]].Free?
    ensures b.heap[b.layout[k]].size as nat + b.heap[b.layout[k + 1]].size as nat < 0x1_0000_0000
    ensures var c := AbsorbNext(b, k);
      && Tiles(c, size) && HeadersOk(c) && Spliced(a, c, k, hi + (k + 1 - lo)) && c.heap[c.layout[k]].Free?
  {
    AbsorbBound(b, size, k);
    AbsorbFacts(b, size, k);
    SplicedCompose(a, b, AbsorbNext(b, k), lo, hi, k, k + 1);
  }

  /**
    A splice that leaves a free block at `lo` keeps "no two neighbouring free blocks"
    when the blocks on either side of the replaced span were not free.
  */
  lemma {:induction false} SplicedNoAdjacent(a: Arena, r: Arena, lo: nat, hi: nat)
    requires InHeap(a) && InHeap(r) && NoAdjacentFree(a) && Spliced(a, r, lo, hi)
    requires lo > 0 ==> !a.heap[a.layout[lo - 1]].Free?
    requires hi + 1 < |a.layout| ==> !a.heap[a.layout[hi + 1]].Free?
    ensures NoAdjacentFree(r)
  {
    forall m | 0 <= m < |r.layout| - 1
      ensures !FreePair(r, m)
    {
      if m + 1 < lo {
        assert !FreePair(a, m);
        assert r.heap[r.layout[m]] == a.heap[a.layout[m]];
        assert r.heap[r.layout[m + 1]] == a.heap[a.layout[m + 1]];
      } else if m + 1 == lo {
        assert r.heap[r.layout[m]] == a.heap[a.layout[m]];
      } else if m == lo {
        assert r.heap[r.layout[hi + 1 - (hi - lo)]] == a.heap[a.layout[hi + 1]];
      } else {
        assert !FreePair(a, m + (hi - lo));
        assert r.heap[r.layout[m + (hi - lo) - (hi - lo)]] == a.heap[a.layout[m + (hi - lo)]];
        assert r.heap[r.layout[m + 1 + (hi - lo) - (hi - lo)]] == a.heap[a.layout[m + 1 + (hi - lo)]];
      }
    }
  }

  lemma {:induction false} RetagFacts(a: Arena, size: nat, k: nat)
    requires Tiles(a, size) && HeadersOk(a) && k < |a.layout| && a.heap[a.layout[k]].Used?
    requires a.heap[a.layout[k]].payload as nat + U < 0x1_0000_0000
    ensures var b := Retag(a, k);
      && Tiles(b, size) && HeadersOk(b) && Spliced(a, b, k, k)
      && b.heap[a.layout[k]] == Free(a.heap[a.layout[k]].payload as nat + U, 1, None)
  {
    var b := Retag(a, k);
    forall j | 0 <= j < |a.layout| && j != k
      ensures b.heap[a.layout[j]] == a.heap[a.layout[j]]
    {
      if j < k {
        Apart(a, size, j, k);
      } else {
        Apart(a, size, k, j);
      }
    }
  }

  /** Two neighbouring blocks span no more than the arena, so their sum fits an unsigned int. */
  lemma {:induction false} AbsorbBound(a: Arena, size: nat, k: nat)
    requires Tiles(a, size) && HeadersOk(a) && size < 0x8000_0000 && k + 1 < |a.layout|
    requires a.heap[a.layout[k]].Free? && a.heap[a.layout[k + 1]].Free?
    ensures a.heap[a.layout[k]].size as nat + a.heap[a.layout[k + 1]].size as nat
              == NextStart(a.layout, size, k + 1) - a.layout[k]
    ensures a.heap[a.layout[k]].size as nat + a.heap[a.layout[k + 1]].size as nat < 0x1_0000_0000
  {
    var c: nat, n: nat := a.layout[k], a.layout[k + 1];
    BlockEnds(a, size, k + 1);
    assert c + Footprint(a.heap[c]) == NextStart(a.layout, size, k);
    assert c + a.heap[c].size as nat == n;
    assert n + a.heap[n].size as nat == NextStart(a.layout, size, k + 1) <= size;
  }

  /** After absorbing block `k + 1`, every other block keeps its header and moves down one place. */
  lemma {:induction false} AbsorbedHeaders(a: Arena, size: nat, k: nat)
    requires Tiles(a, size) && HeadersOk(a) && k + 1 < |a.layout|
    requires a.heap[a.layout[k]].Free? && a.heap[a.layout[k + 1]].Free?
    requires a.heap[a.layout[k]].size as nat + a.heap[a.layout[k + 1]].size as nat < 0x1_0000_0000
    ensures var b := AbsorbNext(a, k);
      && InHeap(b) && HeadersOk(b) && Spliced(a, b, k, k + 1)
      && b.heap[a.layout[k]] == Free(a.heap[a.layout[k]].size as nat + a.heap[a.layout[k + 1]].size as nat,
                                     1, a.heap[a.layout[k]].next)
  {
    var c: nat, n: nat := a.layout[k], a.layout[k + 1];
    var b := AbsorbNext(a, k);
    forall j | 0 <= j < |a.layout| && j != k && j != k + 1
      ensures a.layout[j] != c && a.layout[j] != n
      ensures b.heap[a.layout[j]] == a.heap[a.layout[j]]
    {
      if j > k + 1 {
        Apart(a, size, k + 1, j);
        Apart(a, size, k, k + 1);
      } else {
        Apart(a, size, j, k);
        Apart(a, size, k, k + 1);
      }
    }
    forall m | 0 <= m < |b.layout|
      ensures b.layout[m] in b.heap && WellFormed(b.heap[b.layout[m]])
    {
      if m < k {
        assert b.layout[m] == a.layout[m];
      } else if m > k {
        assert b.layout[m] == a.layout[m + 1];
      } else {
        Apart(a, size, k, k + 1);
        assert b.layout[m] == c;
      }
    }
  }

  /** Absorbing the next block keeps the arena tiled; the merged block spans both. */
  lemma {:induction false} AbsorbFacts(a: Arena, size: nat, k: nat)
    requires Tiles(a, size) && HeadersOk(a) && k + 1 < |a.layout|
    requires a.heap[a.layout[k]].Free? && a.heap[a.layout[k + 1]].Free?
    requires a.heap[a.layout[k]].size as nat + a.heap[a.layout[k + 1]].size as nat < 0x1_0000_0000
    ensures var b := AbsorbNext(a, k);
      && Tiles(b, size) && HeadersOk(b) && Spliced(a, b, k, k + 1)
      && b.heap[a.layout[k]] == Free(a.heap[a.layout[k]].size as nat + a.heap[a.layout[k + 1]].size as nat,
                                     1, a.heap[a.layout[k]].next)
  {
    AbsorbedHeaders(a, size, k);
    var c: nat, n: nat := a.layout[k], a.layout[k + 1];
    var b := AbsorbNext(a, k);
    assert c + Footprint(a.heap[c]) == NextStart(a.layout, size, k) == n;
    assert n + Footprint(a.heap[n]) == NextStart(a.layout, size, k + 1);
    forall m | 0 <= m < |b.layout|
      ensures b.layout[m] + Footprint(b.heap[b.layout[m]]) == NextStart(b.layout, size, m)
    {
      if m < k {
        assert b.layout[m + 1] == a.layout[m + 1];
        assert a.layout[m] + Footprint(a.heap[a.layout[m]]) == NextStart(a.layout, size, m);
      } else if m == k {
        SplicedEnd(a, b, size, k, k + 1);
      } else {
        assert b.layout[m + 1 - 1] == a.layout[m + 1];
        assert NextStart(b.layout, size, m) == NextStart(a.layout, size, m + 1);
        assert a.layout[m + 1] + Footprint(a.heap[a.layout[m + 1]]) == NextStart(a.layout, size, m + 1);
      }
    }
  }

  /**
    The forward check of `memory_free` reads the header where the freed block ends. That
    offset lies inside the arena exactly when the block has a next neighbour, and then
    it is that neighbour, whose tag reads free exactly when it is free.
  */
  lemma {:induction false} ForwardCheck(a: Arena, size: nat, k: nat)
    requires Walkable(a, size) && k < |a.layout| && a.heap[a.layout[k]].Used?
    ensures var e := a.layout[k] + U + a.heap[a.layout[k]].payload as nat;
      && (e < size <==> k + 1 < |a.layout|)
      && (e < size ==> e == a.layout[k + 1] && (ReadsAsFree(a.heap[e]) <==> NextIsFree(a, k)))
  {
    assert a.layout[k] + Footprint(a.heap[a.layout[k]]) == NextStart(a.layout, size, k);
    if k + 1 < |a.layout| {
      BelowEnd(a, size, k + 1);
      ReadsAsFreeIffFree(a.heap[a.layout[k + 1]]);
    }
  }

  /** The first block of the span `memory_free` merges: the previous block when it is free. */
  ghost function MergeStart(a: Arena, k: nat): nat
    requires InHeap(a) && k < |a.layout|
  {
    if PrevIsFree(a, k) then k - 1 else k
  }

  /** The last block of the span `memory_free` merges: the next block when it is free. */
  ghost function MergeEnd(a: Arena, k: nat): nat
    requires InHeap(a) && k < |a.layout|
  {
    if NextIsFree(a, k) then k + 1 else k
  }

  /** Steps 1 and 2 of `memory_free`: re-tag, then absorb the next block if it is free. */
  ghost function ForwardMerged(a: Arena, size: nat, k: nat): Arena
    requires Walkable(a, size) && k < |a.layout| && a.heap[a.layout[k]].Used?
  {
    ForwardReady(a, size, k);
    if NextIsFree(a, k) then AbsorbNext(Retag(a, k), k) else Retag(a, k)
  }

  /** The re-tag fits the free header, and after it a free next block can be absorbed. */
  lemma {:induction false} ForwardReady(a: Arena, size: nat, k: nat)
    requires Walkable(a, size) && k < |a.layout| && a.heap[a.layout[k]].Used?
    ensures a.heap[a.layout[k]].payload as nat + U < 0x1_0000_0000
    ensures var a1 := Retag(a, k);
      && InHeap(a1) && a1.heap[a1.layout[k]].Free?
      && (NextIsFree(a, k) ==>
            && k + 1 < |a1.layout| && a1.heap[a1.layout[k + 1]].Free?
            && a1.heap[a1.layout[k]].size as nat + a1.heap[a1.layout[k + 1]].size as nat < 0x1_0000_0000)
  {
    BlockEnds(a, size, k);
    RetagFacts(a, size, k);
    if NextIsFree(a, k) {
      AbsorbBound(Retag(a, k), size, k);
    }
  }

  /**
    Steps 1 and 2 keep the arena tiled with well-formed headers and replace the freed
    block, with the next block when that was free, by one free block.
  */
  lemma {:induction false} ForwardShape(a: Arena, size: nat, k: nat)
    requires Walkable(a, size) && k < |a.layout| && a.heap[a.layout[k]].Used?
    ensures var r := ForwardMerged(a, size, k);
      Tiles(r, size) && HeadersOk(r) && Spliced(a, r, k, MergeEnd(a, k)) && r.heap[r.layout[k]].Free?
  {
    BlockEnds(a, size, k);
    RetagFacts(a, size, k);
    if NextIsFree(a, k) {
      AbsorbAfterSplice(a, Retag(a, k), size, k, k, k);
    }
  }

  /**
    The reference definition of `memory_free` on the blocks: re-tag block `k`, absorb
    its next neighbour if free, then merge it into its previous neighbour if free.
  */
  ghost function Freed(a: Arena, size: nat, k: nat): (r: Arena)
    requires Walkable(a, size) && k < |a.layout| && a.heap[a.layout[k]].Used?
    ensures InHeap(r)
  {
    if PrevIsFree(a, k) then
      BackwardReady(a, size, k);
      MergedBack(a, size, k)
    else
      ForwardShape(a, size, k);
      ForwardMerged(a, size, k)
  }

  /** Step 3 of `memory_free` when the previous block is free: it absorbs the freed block. */
  ghost function MergedBack(a: Arena, size: nat, k: nat): Arena
    requires Walkable(a, size) && k < |a.layout| && a.heap[a.layout[k]].Used?
    requires PrevIsFree(a, k)
  {
    BackwardReady(a, size, k);
    AbsorbNext(ForwardMerged(a, size, k), k - 1)
  }

  /** After steps 1 and 2 the previous block and the freed block are free neighbours. */
  lemma {:induction false} BackwardReady(a: Arena, size: nat, k: nat)
    requires Walkable(a, size) && k < |a.layout| && a.heap[a.layout[k]].Used?
    requires PrevIsFree(a, k)
    ensures var a2 := ForwardMerged(a, size, k);
      && InHeap(a2) && 0 < k < |a2.layout|
      && a2.layout[k - 1] == a.layout[k - 1] && a2.layout[k] == a.layout[k]
      && a2.heap[a2.layout[k - 1]].Free? && a2.heap[a2.layout[k]].Free?
      && a2.heap[a2.layout[k - 1]].size as nat + a2.heap[a2.layout[k]].size as nat < 0x1_0000_0000
      && var r := AbsorbNext(a2, k - 1);
      && Tiles(r, size) && HeadersOk(r) && Spliced(a, r, k - 1, MergeEnd(a, k)) && r.heap[r.layout[k - 1]].Free?
  {
    ForwardShape(a, size, k);
    var a2 := ForwardMerged(a, size, k);
    assert a2.heap[a2.layout[k - 1]] == a.heap[a.layout[k - 1]];
    AbsorbAfterSplice(a, a2, size, k, MergeEnd(a, k), k - 1);
  }

  /**
    `memory_free` keeps the arena tiled with well-formed headers and replaces the span
    from `MergeStart` to `MergeEnd` by one free block.
  */
  lemma {:induction false} FreedShape(a: Arena, size: nat, k: nat)
    requires Walkable(a, size) && k < |a.layout| && a.heap[a.layout[k]].Used?
    ensures var r := Freed(a, size, k);
      && Tiles(r, size) && HeadersOk(r)
      && Spliced(a, r, MergeStart(a, k), MergeEnd(a, k)) && r.heap[r.layout[MergeStart(a, k)]].Free?
  {
    if PrevIsFree(a, k) {
      BackwardReady(a, size, k);
    } else {
      ForwardShape(a, size, k);
    }
  }

  /**
    The frees after which every free block can still hold its link: the freed block is
    large enough for a free header by itself, or it merges with a free neighbour, which
    is.
  */
  ghost predicate Freeable(a: Arena, k: nat)
    requires InHeap(a) && k < |a.layout| && a.heap[a.layout[k]].Used?
  {
    a.heap[a.layout[k]].payload as nat + U >= F || NextIsFree(a, k) || PrevIsFree(a, k)
  }

  /** The block `memory_free` leaves over the span from `MergeStart` to `MergeEnd` can hold its link. */
  lemma {:induction false} MergedHoldsLink(a: Arena, size: nat, k: nat)
    requires Ok(a, size) && k < |a.layout| && a.heap[a.layout[k]].Used? && Freeable(a, k)
    ensures NextStart(a.layout, size, MergeEnd(a, k)) >= a.layout[MergeStart(a, k)] + F
  {
    var lo, hi := MergeStart(a, k), MergeEnd(a, k);
    assert a.layout[k] + Footprint(a.heap[a.layout[k]]) == NextStart(a.layout, size, k);
    if NextIsFree(a, k) {
      assert HoldsLink(a.heap[a.layout[k + 1]]);
      assert a.layout[k + 1] + Footprint(a.heap[a.layout[k + 1]]) == NextStart(a.layout, size, k + 1);
      if lo < k {
        Apart(a, size, lo, k);
      }
    }
    if PrevIsFree(a, k) {
      assert HoldsLink(a.heap[a.layout[k - 1]]);
      assert a.layout[k - 1] + Footprint(a.heap[a.layout[k - 1]]) == NextStart(a.layout, size, k - 1);
      if hi > k {
        assert a.layout[k + 1] + Footprint(a.heap[a.layout[k + 1]]) == NextStart(a.layout, size, k + 1);
      }
    }
  }

  /** A splice whose new block can hold its link keeps every free block able to. */
  lemma {:induction false} SplicedRoomy(a: Arena, r: Arena, lo: nat, hi: nat)
    requires InHeap(a) && InHeap(r) && Roomy(a) && Spliced(a, r, lo, hi)
    requires HoldsLink(r.heap[r.layout[lo]])
    ensures Roomy(r)
  {
    forall m | 0 <= m < |r.layout|
      ensures HoldsLink(r.heap[r.layout[m]])
    {
      if m < lo {
        assert r.heap[r.layout[m]] == a.heap[a.layout[m]];
      } else if m > lo {
        assert r.heap[r.layout[m + (hi - lo) - (hi - lo)]] == a.heap[a.layout[m + (hi - lo)]];
      }
    }
  }

  /**
    `memory_free` keeps every walk invariant, and leaves exactly one free block over the
    freed block and its free neighbours: it starts at the previous block if that was
    free (else at the freed block) and ends where the next block ended if that was free
    (else where the freed block ended). Every block before or after that span is
    untouched.
  */
  lemma {:induction false} FreedOk(a: Arena, size: nat, k: nat)
    requires Ok(a, size) && k < |a.layout| && a.heap[a.layout[k]].Used? && Freeable(a, k)
    ensures var r := Freed(a, size, k);
      var lo, hi := MergeStart(a, k), MergeEnd(a, k);
      && Ok(r, size) && Spliced(a, r, lo, hi) && r.heap[r.layout[lo]].Free?
      && r.layout[lo] + Footprint(r.heap[r.layout[lo]]) == NextStart(a.layout, size, hi)
  {
    FreedShape(a, size, k);
    var r := Freed(a, size, k);
    var lo, hi := MergeStart(a, k), MergeEnd(a, k);
    SplicedEnd(a, r, size, lo, hi);
    assert r.layout[lo] + Footprint(r.heap[r.layout[lo]]) == NextStart(r.layout, size, lo);
    FreedNoAdjacent(a, size, k);
    FreedRoomy(a, size, k);
  }

  /** After `memory_free` no two neighbouring blocks are free. */
  lemma {:induction false} FreedNoAdjacent(a: Arena, size: nat, k: nat)
    requires Ok(a, size) && k < |a.layout| && a.heap[a.layout[k]].Used?
    ensures NoAdjacentFree(Freed(a, size, k))
  {
    FreedShape(a, size, k);
    SpanNoAdjacent(a, Freed(a, size, k), k);
  }

  /** Replacing the span `memory_free` merges by one block leaves no free neighbours. */
  lemma {:induction false} SpanNoAdjacent(a: Arena, r: Arena, k: nat)
    requires InHeap(a) && InHeap(r) && NoAdjacentFree(a) && k < |a.layout|
    requires Spliced(a, r, MergeStart(a, k), MergeEnd(a, k))
    ensures NoAdjacentFree(r)
  {
    if PrevIsFree(a, k) && k >= 2 {
      assert !FreePair(a, k - 2);
    }
    if NextIsFree(a, k) && k + 2 < |a.layout| {
      assert !FreePair(a, k + 1);
    }
    SplicedNoAdjacent(a, r, MergeStart(a, k), MergeEnd(a, k));
  }

  /** After a `Freeable` free every free block can still hold its link. */
  lemma {:induction false} FreedRoomy(a: Arena, size: nat, k: nat)
    requires Ok(a, size) && k < |a.layout| && a.heap[a.layout[k]].Used? && Freeable(a, k)
    ensures Roomy(Freed(a, size, k))
  {
    FreedShape(a, size, k);
    var r := Freed(a, size, k);
    var lo, hi := MergeStart(a, k), MergeEnd(a, k);
    SplicedEnd(a, r, size, lo, hi);
    assert r.layout[lo] + Footprint(r.heap[r.layout[lo]]) == NextStart(r.layout, size, lo);
    MergedHoldsLink(a, size, k);
    SplicedRoomy(a, r, lo, hi);
  }

  /**
    Outside `Freeable` the freed block stays in the walk as a free block too small for
    its link, so the invariant is lost: `Freeable` is exactly the condition for it.
  */
  lemma {:induction false} UnfreeableBreaksOk(a: Arena, size: nat, k: nat)
    requires Ok(a, size) && k < |a.layout| && a.heap[a.layout[k]].Used? && !Freeable(a, k)
    ensures !Ok(Freed(a, size, k), size)
    ensures Freed(a, size, k).heap[a.layout[k]] == Free(a.heap[a.layout[k]].payload as nat + U, 1, None)
  {
    BlockEnds(a, size, k);
    RetagFacts(a, size, k);
    assert Freed(a, size, k) == Retag(a, k);
    assert !HoldsLink(Freed(a, size, k).heap[Freed(a, size, k).layout[k]]);
  }

  /** A splice drops from the walk exactly the blocks of positions `lo + 1 .. hi`. */
  lemma {:induction false} SplicedMembers(a: Arena, r: Arena, size: nat, lo: nat, hi: nat, c: nat)
    requires Tiles(a, size) && HeadersOk(a) && InHeap(r) && Spliced(a, r, lo, hi) && c in a.layout
    ensures c in r.layout <==> !(lo < IndexOf(a.layout, c) <= hi)
  {
    var q := IndexOf(a.layout, c);
    if q <= lo {
      assert r.layout[q] == c;
    } else if q > hi {
      assert r.layout[q - (hi - lo)] == c;
    } else if c in r.layout {
      var m := IndexOf(r.layout, c);
      if m < lo {
        Injective(a, size, m, q);
      } else if m == lo {
        Injective(a, size, lo, q);
      } else {
        var j := m + (hi - lo);
        assert r.layout[j - (hi - lo)] == a.layout[j];
        Injective(a, size, j, q);
      }
    }
  }

  /**
    `memory_free` removes from the walk exactly the blocks it absorbs: the next block
    when it was free, and the freed block itself when the previous block was free.
  */
  lemma {:induction false} FreedKeeps(a: Arena, size: nat, k: nat, c: nat)
    requires Walkable(a, size) && k < |a.layout| && a.heap[a.layout[k]].Used?
    requires c in a.layout
    ensures c in Freed(a, size, k).layout <==>
              !((NextIsFree(a, k) && c == a.layout[k + 1]) || (PrevIsFree(a, k) && c == a.layout[k]))
  {
    FreedShape(a, size, k);
    SpanMembers(a, Freed(a, size, k), size, k, c);
  }

  /** Replacing the span `memory_free` merges by one block drops the absorbed blocks only. */
  lemma {:induction false} SpanMembers(a: Arena, r: Arena, size: nat, k: nat, c: nat)
    requires Walkable(a, size) && k < |a.layout| && InHeap(r) && c in a.layout
    requires Spliced(a, r, MergeStart(a, k), MergeEnd(a, k))
    ensures c in r.layout <==>
              !((NextIsFree(a, k) && c == a.layout[k + 1]) || (PrevIsFree(a, k) && c == a.layout[k]))
  {
    var lo, hi := MergeStart(a, k), MergeEnd(a, k);
    var q := IndexOf(a.layout, c);
    SplicedMembers(a, r, size, lo, hi, c);
    assert (lo < q <= hi) <==> ((NextIsFree(a, k) && q == k + 1) || (PrevIsFree(a, k) && q == k));
    assert q == k <==> c == a.layout[k] by {
      if c == a.layout[k] {
        Injective(a, size, q, k);
      }
    }
    assert k + 1 < |a.layout| ==> (q == k + 1 <==> c == a.layout[k + 1]) by {
      if k + 1 < |a.layout| && c == a.layout[k + 1] {
        Injective(a, size, q, k + 1);
      }
    }
  }

  /**
    Dropping a cursor that sits on a block `memory_free` absorbed (the next block `e`
    after a forward merge, the freed block after a backward merge) leaves exactly the
    cursors still on a block of the new walk.
  */
  lemma {:induction false} CursorAfterFree(a: Arena, size: nat, k: nat, cursor: Option<nat>,
                                            e: nat, forward: bool, backward: bool)
    requires Walkable(a, size) && k < |a.layout| && a.heap[a.layout[k]].Used?
    requires cursor.Some? ==> cursor.value in a.layout
    requires forward == NextIsFree(a, k) && (forward ==> e == a.layout[k + 1])
    requires backward == PrevIsFree(a, k)
    ensures var dropped := (forward && cursor == Some(e)) || (backward && cursor == Some(a.layout[k]));
      (if dropped then None else cursor) ==
      (if cursor.Some? && cursor.value in Freed(a, size, k).layout then cursor else None)
  {
    if cursor.Some? {
      FreedKeeps(a, size, k, cursor.value);
    }
  }

  /**
    The backward search of `memory_free`, as an index into the free list: starting at
    the head, it moves on while the entry after the current one lies below the freed
    block `b`, and stops at an entry whose successor is at or above `b`, or at the tail.
  */
  function PrecedingFrom(fl: seq<nat>, b: nat, j: nat): (r: nat)
    requires j < |fl|
    ensures j <= r < |fl|
    ensures r + 1 == |fl| || fl[r + 1] >= b
    ensures forall q :: j < q <= r ==> fl[q] < b
    decreases |fl| - j
  {
    if j + 1 == |fl| || fl[j + 1] >= b then j else PrecedingFrom(fl, b, j + 1)
  }

  /** The entry the backward search leaves in `tmp`; none when the list is empty. */
  function Preceding(fl: seq<nat>, b: nat): (r: Option<nat>)
    ensures r.Some? <==> fl != []
    ensures r.Some? ==> r.value in fl
  {
    if fl == [] then None else Some(fl[PrecedingFrom(fl, b, 0)])
  }

  /**
    On an address-ordered list the search stops at the last entry below `b`, or at the
    head when no entry lies below `b`.
  */
  lemma {:induction false} PrecedingIsLastBelow(fl: seq<nat>, b: nat, j: nat)
    requires Increasing(fl) && j < |fl|
    requires j <= (if StartIndex(fl, b) == 0 then 0 else StartIndex(fl, b) - 1)
    ensures PrecedingFrom(fl, b, j) == (if StartIndex(fl, b) == 0 then 0 else StartIndex(fl, b) - 1)
    decreases |fl| - j
  {
    var s := StartIndex(fl, b);
    if j + 1 < |fl| && fl[j + 1] < b {
      PrecedingIsLastBelow(fl, b, j + 1);
    }
  }

  /** A block ends exactly where another starts only when that one is the next block. */
  lemma {:induction false} EndsAt(a: Arena, size: nat, i: nat, k: nat)
    requires Tiles(a, size) && HeadersOk(a) && i < |a.layout| && k < |a.layout|
    requires a.layout[i] + Footprint(a.heap[a.layout[i]]) == a.layout[k]
    ensures i + 1 == k
  {
    assert NextStart(a.layout, size, i) == a.layout[k];
    BelowEnd(a, size, k);
    assert a.layout[i + 1] == a.layout[k];
    Injective(a, size, i + 1, k);
  }

  /**
    The merge test of `memory_free` is exact: the entry the backward search finds ends
    where the freed block starts if and only if the block just before it in the walk is
    free. The entry found is always a free block.
  */
  lemma {:induction false} PrecedingMerges(a: Arena, size: nat, k: nat)
    requires Ok(a, size) && k < |a.layout| && a.heap[a.layout[k]].Used?
    ensures var t := Preceding(FreeBlocks(a), a.layout[k]);
      && (t.Some? ==> t.value in a.heap && a.heap[t.value].Free?)
      && ((t.Some? && t.value + a.heap[t.value].size as nat == a.layout[k]) <==> PrevIsFree(a, k))
  {
    var fl := FreeBlocks(a);
    var b := a.layout[k];
    var t := Preceding(fl, b);
    FreeOffsetsMembers(a.heap, a.layout);
    if t.Some? && t.value + a.heap[t.value].size as nat == b {
      var i := IndexOf(a.layout, t.value);
      EndsAt(a, size, i, k);
    }
    if PrevIsFree(a, k) {
      PrecedingAfterFree(a, size, k);
      assert a.layout[k - 1] + Footprint(a.heap[a.layout[k - 1]]) == NextStart(a.layout, size, k - 1);
    }
  }

  /** When the previous block is free, the backward search stops exactly at it. */
  lemma {:induction false} PrecedingAfterFree(a: Arena, size: nat, k: nat)
    requires Ok(a, size) && k < |a.layout| && PrevIsFree(a, k)
    ensures Preceding(FreeBlocks(a), a.layout[k]) == Some(a.layout[k - 1])
  {
    var fl := FreeBlocks(a);
    var b := a.layout[k];
    Ordered(a, size);
    FreeOffsetsIncreasing(a.heap, a.layout);
    CountBefore(a.heap, a.layout, k);
    var below := FreeOffsets(a.heap, a.layout[..k]);
    FreeOffsetsSnoc(a.heap, a.layout, k);
    var s := StartIndex(fl, b);
    assert fl[s - 1] == below[s - 1] == a.layout[k - 1];
    PrecedingIsLastBelow(fl, b, 0);
  }
}
