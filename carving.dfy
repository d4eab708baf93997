/**
  How `memory_alloc` carves a candidate free block: split into a used block and a free
  remainder, or consume the whole block. Stated on arena values; the allocator's method
  performs the same writes in place.
*/
module Carving {
  import opened Common
  import opened Headers
  import opened Layout

  /** The split threshold: the remainder must be able to hold a free header. */
  predicate Splits(avail: nat, req: nat)
  {
    avail >= req + U + F
  }

  /**
    The used header written at the candidate. Without a split it records `avail - F`,
    not the `avail - U` bytes the block spans after its header.
  */
  function CarvedHeader(avail: nat, req: nat): Header
    requires req + U <= avail < 0x1_0000_0000 && F <= avail
  {
    if Splits(avail, req) then Used(req) else Used(avail - F)
  }

  /**
    Where the block after the carved one starts. Without a split the walk from the used
    header stops `F - U` bytes short of the candidate's end, on bytes `memset` zeroed.
  */
  function InsertedAt(c: nat, avail: nat, req: nat): nat
    requires F <= avail
  {
    if Splits(avail, req) then c + U + req else c + avail - U
  }

  /**
    The header found there: the free remainder of a split, or the zeroed bytes, which
    read as a used header with size 0 (a phantom block of one used header).
  */
  function InsertedHeader(avail: nat, req: nat): Header
    requires req + U <= avail < 0x1_0000_0000
  {
    if Splits(avail, req) then Free(avail - U - req, 1, None) else Used(0)
  }

  /**
    The walk arithmetic of both outcomes: the used block leads to the inserted block,
    and the inserted block ends exactly where the candidate ended. Without a split this
    relies on the gap `F - U` being one used header.
  */
  lemma CarveArithmetic(c: nat, avail: nat, req: nat)
    requires req + U <= avail < 0x1_0000_0000 && F <= avail
    ensures c < InsertedAt(c, avail, req)
    ensures c + Footprint(CarvedHeader(avail, req)) == InsertedAt(c, avail, req)
    ensures InsertedAt(c, avail, req) + Footprint(InsertedHeader(avail, req)) == c + avail
    ensures WellFormed(CarvedHeader(avail, req)) && WellFormed(InsertedHeader(avail, req))
    ensures CarvedHeader(avail, req).Used?
  {
    HeaderSizes();
  }

  /**
    The arena after carving block `k` for a request of `req` bytes. A used header goes at
    the candidate and a block is inserted into the walk right after it.
  */
  ghost function Carved(a: Arena, k: nat, req: nat): Arena
    requires InHeap(a) && k < |a.layout| && a.heap[a.layout[k]].Free?
    requires a.heap[a.layout[k]].size as nat >= req + U && a.heap[a.layout[k]].size as nat >= F
  {
    var c := a.layout[k];
    var avail: nat := a.heap[c].size as nat;
    var x := InsertedAt(c, avail, req);
    Arena(a.heap[c := CarvedHeader(avail, req)][x := InsertedHeader(avail, req)],
          InsertAfterIndex(a.layout, k, x))
  }

  /** The walk order with `x` inserted right after position `k`. */
  function InsertAfterIndex(s: seq<nat>, k: nat, x: nat): (r: seq<nat>)
    requires k < |s|
    ensures |r| == |s| + 1 && r[k + 1] == x
    ensures forall j :: 0 <= j <= k ==> r[j] == s[j]
    ensures forall j :: k < j < |s| ==> r[j + 1] == s[j]
  {
    s[..k + 1] + [x] + s[k + 1..]
  }

  /** Inserting keeps every offset already in the walk order. */
  lemma InsertKeeps(s: seq<nat>, k: nat, x: nat, y: nat)
    requires k < |s| && y in s
    ensures y in InsertAfterIndex(s, k, x)
  {
    var q := IndexOf(s, y);
    if q <= k {
      assert InsertAfterIndex(s, k, x)[q] == y;
    } else {
      assert InsertAfterIndex(s, k, x)[q + 1] == y;
    }
  }

  /** The headers every other block of the walk had: neither the candidate nor `x`. */
  lemma {:induction false} OthersDistinct(a: Arena, size: nat, k: nat, x: nat)
    requires Tiles(a, size) && HeadersOk(a) && k < |a.layout|
    requires a.layout[k] < x < NextStart(a.layout, size, k)
    ensures forall j :: 0 <= j < |a.layout| && j != k ==> a.layout[j] != a.layout[k] && a.layout[j] != x
  {
    Ordered(a, size);
    forall j | 0 <= j < |a.layout| && j != k
      ensures a.layout[j] != a.layout[k] && a.layout[j] != x
    {
      if j > k {
        assert a.layout[k + 1] <= a.layout[j];
      }
    }
  }

  /** After inserting `x` after block `k`, every other block of the walk keeps its header. */
  lemma {:induction false} InsertedHeaders(a: Arena, size: nat, k: nat, h1: Header, x: nat, h2: Header)
    requires Tiles(a, size) && HeadersOk(a) && k < |a.layout|
    requires a.layout[k] < x < NextStart(a.layout, size, k)
    requires WellFormed(h1) && WellFormed(h2)
    ensures var b := Arena(a.heap[a.layout[k] := h1][x := h2], InsertAfterIndex(a.layout, k, x));
      && InHeap(b) && HeadersOk(b)
      && (forall j :: 0 <= j < k ==> b.heap[b.layout[j]] == a.heap[a.layout[j]])
      && b.heap[a.layout[k]] == h1 && b.heap[x] == h2
      && (forall j :: k < j < |a.layout| ==> b.heap[b.layout[j + 1]] == a.heap[a.layout[j]])
  {
    OthersDistinct(a, size, k, x);
    var c := a.layout[k];
    var heap' := a.heap[c := h1][x := h2];
    var layout' := InsertAfterIndex(a.layout, k, x);
    forall j | 0 <= j < |a.layout| && j != k
      ensures heap'[a.layout[j]] == a.heap[a.layout[j]]
    {
      assert a.layout[j] != c && a.layout[j] != x;
    }
    forall m | 0 <= m < |layout'|
      ensures layout'[m] in heap' && WellFormed(heap'[layout'[m]])
    {
      if m < k {
        assert layout'[m] == a.layout[m];
      } else if m > k + 1 {
        assert layout'[m] == a.layout[m - 1];
      }
    }
  }

  /**
    Inserting a block into the walk after block `k`, where the two new headers cover
    exactly the span of block `k`, keeps the arena tiled and leaves every other block as
    it was.
  */
  lemma {:induction false} InsertAfter(a: Arena, size: nat, k: nat, h1: Header, x: nat, h2: Header)
    requires Tiles(a, size) && HeadersOk(a) && k < |a.layout|
    requires a.layout[k] < x
    requires a.layout[k] + Footprint(h1) == x && x + Footprint(h2) == NextStart(a.layout, size, k)
    requires WellFormed(h1) && WellFormed(h2)
    ensures var b := Arena(a.heap[a.layout[k] := h1][x := h2], InsertAfterIndex(a.layout, k, x));
      && Tiles(b, size) && HeadersOk(b)
      && (forall j :: 0 <= j < k ==> b.heap[b.layout[j]] == a.heap[a.layout[j]])
      && b.heap[a.layout[k]] == h1 && b.heap[x] == h2
      && (forall j :: k < j < |a.layout| ==> b.heap[b.layout[j + 1]] == a.heap[a.layout[j]])
  {
    FootprintPositive(h2);
    InsertedHeaders(a, size, k, h1, x, h2);
    var heap' := a.heap[a.layout[k] := h1][x := h2];
    var layout' := InsertAfterIndex(a.layout, k, x);
    forall m | 0 <= m < |layout'|
      ensures layout'[m] + Footprint(heap'[layout'[m]]) == NextStart(layout', size, m)
    {
      if m < k {
        assert heap'[layout'[m]] == a.heap[a.layout[m]];
        assert layout'[m + 1] == a.layout[m + 1];
        assert a.layout[m] + Footprint(a.heap[a.layout[m]]) == NextStart(a.layout, size, m);
      } else if m == k + 1 {
        assert NextStart(layout', size, m) == NextStart(a.layout, size, k);
      } else if m > k + 1 {
        assert heap'[layout'[m]] == a.heap[a.layout[m - 1]];
        assert layout'[m] == a.layout[m - 1];
        assert NextStart(layout', size, m) == NextStart(a.layout, size, m - 1);
        assert a.layout[m - 1] + Footprint(a.heap[a.layout[m - 1]]) == NextStart(a.layout, size, m - 1);
      }
    }
  }

  /**
    Carving keeps every walk invariant: the arena stays tiled, every header well formed,
    every free block large enough for its link, and no two neighbouring blocks free. The candidate becomes a used block, the inserted
    block ends where the candidate ended, and all other blocks are untouched.
  */
  lemma {:induction false} CarvedOk(a: Arena, size: nat, k: nat, req: nat)
    requires Ok(a, size) && k < |a.layout| && a.heap[a.layout[k]].Free?
    requires a.heap[a.layout[k]].size as nat >= req + U
    ensures a.heap[a.layout[k]].size as nat >= F
    ensures var b := Carved(a, k, req);
      var c := a.layout[k];
      var avail: nat := a.heap[c].size as nat;
      && Ok(b, size)
      && |b.layout| == |a.layout| + 1
      && b.layout[k] == c && b.heap[c] == CarvedHeader(avail, req)
      && b.layout[k + 1] == InsertedAt(c, avail, req)
      && b.heap[b.layout[k + 1]] == InsertedHeader(avail, req)
      && b.layout[k + 1] + Footprint(b.heap[b.layout[k + 1]]) == c + avail
      && (forall j :: 0 <= j < k ==> b.layout[j] == a.layout[j] && b.heap[b.layout[j]] == a.heap[a.layout[j]])
      && (forall j :: k < j < |a.layout| ==>
            b.layout[j + 1] == a.layout[j] && b.heap[b.layout[j + 1]] == a.heap[a.layout[j]])
  {
    var c := a.layout[k];
    assert HoldsLink(a.heap[c]);
    var avail: nat := a.heap[c].size as nat;
    CarveArithmetic(c, avail, req);
    assert c + avail == NextStart(a.layout, size, k);
    var x := InsertedAt(c, avail, req);
    InsertAfter(a, size, k, CarvedHeader(avail, req), x, InsertedHeader(avail, req));
    var b := Carved(a, k, req);
    var n := |a.layout|;
    forall m | 0 <= m < |b.layout|
      ensures HoldsLink(b.heap[b.layout[m]])
    {
      if m < k {
        assert b.heap[b.layout[m]] == a.heap[a.layout[m]];
      } else if m > k + 1 {
        assert b.heap[b.layout[m - 1 + 1]] == a.heap[a.layout[m - 1]];
      }
    }
    forall m | 0 <= m < |b.layout| - 1
      ensures !FreePair(b, m)
    {
      if m + 1 < k {
        assert !FreePair(a, m);
        assert b.heap[b.layout[m]] == a.heap[a.layout[m]];
        assert b.heap[b.layout[m + 1]] == a.heap[a.layout[m + 1]];
      } else if m == k + 1 {
        assert !FreePair(a, k);
        assert b.heap[b.layout[m + 1]] == a.heap[a.layout[k + 1]];
      } else if m > k + 1 {
        assert !FreePair(a, m - 1);
        assert b.heap[b.layout[m]] == a.heap[a.layout[m - 1]];
        assert b.heap[b.layout[m + 1]] == a.heap[a.layout[m]];
      }
    }
  }
}
