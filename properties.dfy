/**
  Properties that relate several operations of the allocator, stated on arena values:
  what freeing a freshly carved block gives back, and what the no-split branch of
  `memory_alloc` costs.
*/
module Properties {
  import opened Common
  import opened Headers
  import opened Layout
  import opened Carving
  import opened Coalescing

  /**
    The header recorded without a split holds the request only when the block has room
    for a whole free header beyond it: for a candidate of `avail` bytes the recorded
    payload is at least `req` exactly when the block splits or `avail >= req + F`.
  */
  lemma NoSplitShortfall(avail: nat, req: nat)
    requires req + U <= avail < 0x1_0000_0000 && F <= avail
    ensures CarvedHeader(avail, req).payload >= req <==> Splits(avail, req) || avail >= req + F
  {
  }

  /**
    Without a split the zeroed bytes at `c + avail - U` read as a used header of size 0,
    and that header lies inside the `req` bytes the caller asked for, which start at
    `c + U`, exactly when the recorded payload falls short of `req`. A client that
    writes its whole request then overwrites a header the walk reads.
  */
  lemma PhantomInsideRequest(c: nat, avail: nat, req: nat)
    requires req + U <= avail < 0x1_0000_0000 && F <= avail && !Splits(avail, req)
    ensures InsertedHeader(avail, req) == Used(0)
    ensures c + U <= InsertedAt(c, avail, req)
    ensures InsertedAt(c, avail, req) < c + U + req <==> CarvedHeader(avail, req).payload < req
  {
  }

  /**
    Allocating with a split and freeing the same block again restores the walk: the
    used block absorbs the free remainder, its neighbour before it cannot be free, and
    every block has its old shape back. This holds for every request, also one of fewer
    than `F - U` bytes, because the remainder is merged.
  */
  lemma {:induction false} SplitAllocThenFree(a: Arena, size: nat, k: nat, req: nat)
    requires Ok(a, size) && k < |a.layout| && a.heap[a.layout[k]].Free?
    requires Splits(a.heap[a.layout[k]].size as nat, req)
    ensures a.heap[a.layout[k]].size as nat >= F
    ensures var b := Carved(a, k, req);
      && Ok(b, size) && b.heap[b.layout[k]] == Used(req) && Freeable(b, k)
      && var r := Freed(b, size, k);
         && r.layout == a.layout
         && forall j :: 0 <= j < |a.layout| ==> Shape(r.heap[r.layout[j]]) == Shape(a.heap[a.layout[j]])
  {
    CarvedOk(a, size, k, req);
    var b := Carved(a, k, req);
    var c := a.layout[k];
    var avail: nat := a.heap[c].size as nat;
    if k > 0 {
      assert !FreePair(a, k - 1);
      assert b.heap[b.layout[k - 1]] == a.heap[a.layout[k - 1]];
    }
    assert !PrevIsFree(b, k) && NextIsFree(b, k);
    var r := Freed(b, size, k);
    var b1 := Retag(b, k);
    assert r == AbsorbNext(b1, k);
    assert r.layout == a.layout by {
      forall j | 0 <= j < |a.layout|
        ensures r.layout[j] == a.layout[j]
      {
        if j > k {
          assert r.layout[j] == b.layout[j + 1];
        }
      }
    }
    forall j | 0 <= j < |a.layout|
      ensures Shape(r.heap[r.layout[j]]) == Shape(a.heap[a.layout[j]])
    {
      if j < k {
        assert r.heap[r.layout[j]] == b.heap[b.layout[j]];
      } else if j > k {
        assert r.heap[r.layout[j]] == b.heap[b.layout[j + 1]];
      }
    }
  }

  /**
    Allocating a block whole and freeing it again does not restore it: the freed block
    spans `avail - U` bytes and the zeroed header the allocation left behind stays in
    the walk as a used block of no payload, so `U` bytes of the arena stay allocated.
    Neither neighbour is free, so from a candidate of fewer than `U + F` bytes the freed
    block cannot hold its link.
  */
  lemma {:induction false} WholeAllocThenFree(a: Arena, size: nat, k: nat, req: nat)
    requires Ok(a, size) && k < |a.layout| && a.heap[a.layout[k]].Free?
    requires a.heap[a.layout[k]].size as nat >= req + U && !Splits(a.heap[a.layout[k]].size as nat, req)
    ensures var c := a.layout[k];
      var avail: nat := a.heap[c].size as nat;
      var b := Carved(a, k, req);
      && Ok(b, size) && b.layout[k] == c && b.heap[c] == Used(avail - F)
      && (Freeable(b, k) <==> avail >= U + F)
      && var r := Freed(b, size, k);
         && r.layout == InsertAfterIndex(a.layout, k, c + avail - U)
         && r.heap[r.layout[k]] == Free(avail - U, 1, None) && r.heap[r.layout[k + 1]] == Used(0)
  {
    CarvedOk(a, size, k, req);
    var b := Carved(a, k, req);
    if k > 0 {
      assert !FreePair(a, k - 1);
      assert b.heap[b.layout[k - 1]] == a.heap[a.layout[k - 1]];
    }
    assert !PrevIsFree(b, k) && !NextIsFree(b, k);
  }
}
