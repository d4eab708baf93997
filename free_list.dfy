/**
  The free-list index: the free blocks in address order (`FreeOffsets`), the links that
  `update_free_list` writes into their headers, and what it means for the list reachable
  from `first_free` to be that index.
*/
module FreeList {
  import opened Common
  import opened Headers
  import opened Layout

  ghost predicate AllIn(heap: map<nat, Header>, offs: seq<nat>)
  {
    forall k :: 0 <= k < |offs| ==> offs[k] in heap
  }

  /** The free blocks among `offs`, in the order of `offs`. */
  ghost function FreeOffsets(heap: map<nat, Header>, offs: seq<nat>): seq<nat>
    requires AllIn(heap, offs)
    decreases |offs|
  {
    if offs == [] then []
    else
      var last := offs[|offs| - 1];
      FreeOffsets(heap, offs[..|offs| - 1]) + (if heap[last].Free? then [last] else [])
  }

  /** The free list of an arena: its free blocks in walk order. */
  ghost function FreeBlocks(a: Arena): (r: seq<nat>)
    requires InHeap(a)
    ensures AllIn(a.heap, r) && FreeIn(a.heap, r)
  {
    FreeOffsetsMembers(a.heap, a.layout);
    var r := FreeOffsets(a.heap, a.layout);
    assert forall j :: 0 <= j < |r| ==> r[j] in r;
    r
  }

  /** Every list entry is a block of the walk. */
  lemma EntryInLayout(a: Arena, x: nat)
    requires InHeap(a) && x in FreeBlocks(a)
    ensures x in a.layout
  {
    FreeOffsetsMembers(a.heap, a.layout);
  }

  /** The walk position of free-list entry `j`. */
  ghost function FreeAt(a: Arena, j: nat): (k: nat)
    requires InHeap(a) && HeadersOk(a) && j < |FreeBlocks(a)|
    ensures k < |a.layout| && a.layout[k] == FreeBlocks(a)[j]
    ensures a.heap[a.layout[k]].Free? && WellFormed(a.heap[a.layout[k]])
  {
    FreeOffsetsMembers(a.heap, a.layout);
    assert FreeBlocks(a)[j] in FreeBlocks(a);
    IndexOf(a.layout, FreeBlocks(a)[j])
  }

  /** The last entry of a list, if any: the walk's `prev_i`. */
  function Last(fl: seq<nat>): Option<nat>
  {
    if fl == [] then None else Some(fl[|fl| - 1])
  }

  /** The list head `update_free_list` installs: the lowest free block, if any. */
  function Head(fl: seq<nat>): Option<nat>
  {
    if fl == [] then None else Some(fl[0])
  }

  /** Extending a prefix of the walk by one block extends its index by that block if it is free. */
  lemma FreeOffsetsSnoc(heap: map<nat, Header>, offs: seq<nat>, k: nat)
    requires AllIn(heap, offs) && 0 < k <= |offs|
    ensures AllIn(heap, offs[..k - 1]) && AllIn(heap, offs[..k])
    ensures FreeOffsets(heap, offs[..k]) ==
              FreeOffsets(heap, offs[..k - 1]) + (if heap[offs[k - 1]].Free? then [offs[k - 1]] else [])
  {
    assert offs[..k][..k - 1] == offs[..k - 1];
  }

  /** The index holds exactly the free blocks of `offs`. */
  lemma {:induction false} FreeOffsetsMembers(heap: map<nat, Header>, offs: seq<nat>)
    requires AllIn(heap, offs)
    ensures forall x :: x in FreeOffsets(heap, offs) <==> x in offs && heap[x].Free?
    ensures AllIn(heap, FreeOffsets(heap, offs))
    decreases |offs|
  {
    if offs != [] {
      var init := offs[..|offs| - 1];
      FreeOffsetsMembers(heap, init);
      assert offs == init + [offs[|offs| - 1]];
    }
    var r := FreeOffsets(heap, offs);
    forall j | 0 <= j < |r|
      ensures r[j] in heap
    {
      assert r[j] in r;
    }
  }

  /** The index of a walk in address order is itself in address order. */
  lemma {:induction false} FreeOffsetsIncreasing(heap: map<nat, Header>, offs: seq<nat>)
    requires AllIn(heap, offs) && Increasing(offs)
    ensures Increasing(FreeOffsets(heap, offs))
    decreases |offs|
  {
    if offs != [] {
      var init := offs[..|offs| - 1];
      var last := offs[|offs| - 1];
      FreeOffsetsIncreasing(heap, init);
      FreeOffsetsMembers(heap, init);
      var fi := FreeOffsets(heap, init);
      forall j | 0 <= j < |fi|
        ensures fi[j] < last
      {
        assert fi[j] in init;
      }
    }
  }

  lemma {:induction false} FreeOffsetsAppend(heap: map<nat, Header>, xs: seq<nat>, ys: seq<nat>)
    requires AllIn(heap, xs) && AllIn(heap, ys)
    ensures AllIn(heap, xs + ys)
    ensures FreeOffsets(heap, xs + ys) == FreeOffsets(heap, xs) + FreeOffsets(heap, ys)
    decreases |ys|
  {
    assert AllIn(heap, xs + ys) by {
      forall k | 0 <= k < |xs + ys| ensures (xs + ys)[k] in heap {
        if k >= |xs| { assert (xs + ys)[k] == ys[k - |xs|]; }
      }
    }
    if ys == [] {
      assert xs + ys == xs;
    } else {
      var init, last := ys[..|ys| - 1], ys[|ys| - 1];
      var tailPart := if heap[last].Free? then [last] else [];
      assert (xs + ys)[..|xs + ys| - 1] == xs + init;
      assert (xs + ys)[|xs + ys| - 1] == last;
      FreeOffsetsAppend(heap, xs, init);
      calc {
        FreeOffsets(heap, xs + ys);
        FreeOffsets(heap, xs + init) + tailPart;
        (FreeOffsets(heap, xs) + FreeOffsets(heap, init)) + tailPart;
        FreeOffsets(heap, xs) + (FreeOffsets(heap, init) + tailPart);
      }
    }
  }

  /** Only whether each block is free matters to the index. */
  lemma {:induction false} FreeOffsetsShape(h1: map<nat, Header>, h2: map<nat, Header>, offs: seq<nat>)
    requires AllIn(h1, offs) && AllIn(h2, offs)
    requires forall k :: 0 <= k < |offs| ==> h1[offs[k]].Free? == h2[offs[k]].Free?
    ensures FreeOffsets(h1, offs) == FreeOffsets(h2, offs)
    decreases |offs|
  {
    if offs != [] {
      FreeOffsetsShape(h1, h2, offs[..|offs| - 1]);
    }
  }

  /**
    Splits the index of a walk at block `k`: the free blocks before it, then those from
    it on.
  */
  lemma SplitAt(heap: map<nat, Header>, offs: seq<nat>, k: nat)
    requires AllIn(heap, offs) && k <= |offs|
    ensures AllIn(heap, offs[..k]) && AllIn(heap, offs[k..])
    ensures FreeOffsets(heap, offs) == FreeOffsets(heap, offs[..k]) + FreeOffsets(heap, offs[k..])
  {
    assert offs == offs[..k] + offs[k..];
    FreeOffsetsAppend(heap, offs[..k], offs[k..]);
  }

  /**
    The position of the first entry of an address-ordered list at or after offset `c`:
    the number of entries below `c`.
  */
  function StartIndex(fl: seq<nat>, c: nat): (n: nat)
    ensures n <= |fl|
    ensures forall j :: 0 <= j < n ==> fl[j] < c
    ensures n < |fl| ==> fl[n] >= c
  {
    if fl == [] || fl[0] >= c then 0 else 1 + StartIndex(fl[1..], c)
  }

  lemma {:induction false} StartIndexOfSplit(xs: seq<nat>, ys: seq<nat>, c: nat)
    requires forall j :: 0 <= j < |xs| ==> xs[j] < c
    requires forall j :: 0 <= j < |ys| ==> ys[j] >= c
    ensures StartIndex(xs + ys, c) == |xs|
    decreases |xs|
  {
    if xs == [] {
      assert xs + ys == ys;
    } else {
      assert (xs + ys)[1..] == xs[1..] + ys;
      StartIndexOfSplit(xs[1..], ys, c);
    }
  }

  /** The first `n` entries of `fl` are exactly those below `c`. */
  ghost predicate Below(fl: seq<nat>, n: nat, c: nat)
  {
    && n <= |fl| && (forall j :: 0 <= j < n ==> fl[j] < c)
    && (n < |fl| ==> fl[n] >= c)
  }

  /** `StartIndex` is the first position whose entry is at or after `c`. */
  lemma {:induction false} StartIndexIs(fl: seq<nat>, c: nat, n: nat)
    requires Below(fl, n, c)
    ensures StartIndex(fl, c) == n
    decreases n
  {
    if n > 0 {
      assert fl[0] < c;
      StartIndexIs(fl[1..], c, n - 1);
    }
  }

  /** An index over blocks none of which is free is empty. */
  lemma NoneFree(heap: map<nat, Header>, offs: seq<nat>)
    requires AllIn(heap, offs)
    requires forall q :: 0 <= q < |offs| ==> !heap[offs[q]].Free?
    ensures FreeOffsets(heap, offs) == []
  {
    FreeOffsetsMembers(heap, offs);
  }

  /** An index over blocks starting with a free one starts with that block. */
  lemma FreeFirst(heap: map<nat, Header>, offs: seq<nat>)
    requires AllIn(heap, offs) && offs != [] && heap[offs[0]].Free?
    ensures FreeOffsets(heap, offs) == [offs[0]] + FreeOffsets(heap, offs[1..])
  {
    assert offs == [offs[0]] + offs[1..];
    FreeOffsetsAppend(heap, [offs[0]], offs[1..]);
    assert [offs[0]][..0] == [];
  }

  /**
    In an address-ordered walk, the free blocks before block `ci` are exactly the
    free-list entries below `offs[ci]`.
  */
  lemma {:induction false} CountBefore(heap: map<nat, Header>, offs: seq<nat>, ci: nat)
    requires AllIn(heap, offs) && Increasing(offs) && ci < |offs|
    ensures AllIn(heap, offs[..ci]) && AllIn(heap, offs[ci..])
    ensures FreeOffsets(heap, offs) == FreeOffsets(heap, offs[..ci]) + FreeOffsets(heap, offs[ci..])
    ensures StartIndex(FreeOffsets(heap, offs), offs[ci]) == |FreeOffsets(heap, offs[..ci])|
  {
    var c := offs[ci];
    SplitAt(heap, offs, ci);
    var below, above := FreeOffsets(heap, offs[..ci]), FreeOffsets(heap, offs[ci..]);
    FreeOffsetsMembers(heap, offs[..ci]);
    FreeOffsetsMembers(heap, offs[ci..]);
    forall j | 0 <= j < |below| ensures below[j] < c {
      assert below[j] in offs[..ci];
    }
    forall j | 0 <= j < |above| ensures above[j] >= c {
      assert above[j] in offs[ci..];
    }
    StartIndexOfSplit(below, above, c);
  }

  /**
    A walk from block `ci` that passes only used blocks up to block `m` reaches the
    free-list entry at `StartIndex(., offs[ci])` when block `m` is free, and runs off the
    end of the list when it reaches `heap_end`.
  */
  lemma {:induction false} FirstFreeFrom(heap: map<nat, Header>, offs: seq<nat>, ci: nat, m: nat)
    requires AllIn(heap, offs) && Increasing(offs)
    requires ci <= m <= |offs| && ci < |offs|
    requires forall q :: ci <= q < m ==> !heap[offs[q]].Free?
    requires m < |offs| ==> heap[offs[m]].Free?
    ensures m < |offs| ==>
              StartIndex(FreeOffsets(heap, offs), offs[ci]) < |FreeOffsets(heap, offs)| &&
              FreeOffsets(heap, offs)[StartIndex(FreeOffsets(heap, offs), offs[ci])] == offs[m]
    ensures m == |offs| ==>
              StartIndex(FreeOffsets(heap, offs), offs[ci]) == |FreeOffsets(heap, offs)|
  {
    CountBefore(heap, offs, ci);
    var tail := offs[ci..];
    SplitAt(heap, tail, m - ci);
    NoneFree(heap, tail[..m - ci]);
    if m < |offs| {
      FreeFirst(heap, tail[m - ci..]);
    } else {
      assert tail[m - ci..] == [];
    }
  }

  /**
    The walk's position in the free list: when block `ki` is free it is the entry at
    `StartIndex(., offs[ki])`, and the position of the next block (or the length of the
    list, after the last block) counts it.
  */
  lemma {:induction false} WalkIndex(heap: map<nat, Header>, offs: seq<nat>, ki: nat)
    requires AllIn(heap, offs) && Increasing(offs) && ki < |offs|
    ensures var fl := FreeOffsets(heap, offs);
      var n := StartIndex(fl, offs[ki]);
      && (heap[offs[ki]].Free? ==> n < |fl| && fl[n] == offs[ki])
      && (if ki + 1 < |offs| then StartIndex(fl, offs[ki + 1]) else |fl|)
           == n + (if heap[offs[ki]].Free? then 1 else 0)
  {
    CountBefore(heap, offs, ki);
    FreeOffsetsSnoc(heap, offs, ki + 1);
    if ki + 1 < |offs| {
      CountBefore(heap, offs, ki + 1);
    } else {
      assert offs[..ki + 1] == offs;
    }
    if heap[offs[ki]].Free? {
      FirstFreeFrom(heap, offs, ki, ki);
    }
  }

  /**
    One step of the walk of `update_free_list`, standing at block `ki` having met the
    first `m` free blocks (exactly those below it): the block's header has not been
    rewritten yet, advancing by its footprint reaches the next block (or `heap_end`),
    and when it is free it is entry `m` of the index, so that the walk has then met
    `m + 1` free blocks, again exactly those below where it stands.
  */
  lemma WalkStep(heap: map<nat, Header>, layout: seq<nat>, size: nat, fl: seq<nat>, ki: nat, m: nat)
    requires AllIn(heap, layout) && Tiles(Arena(heap, layout), size) && Increasing(layout)
    requires ki < |layout| && forall k :: 0 <= k < |layout| ==> layout[k] < size
    requires fl == FreeOffsets(heap, layout) && Below(fl, m, layout[ki])
    ensures AllIn(heap, fl)
    ensures layout[ki] + Footprint(heap[layout[ki]]) == NextStart(layout, size, ki)
    ensures LinkPairs(heap, fl, m)[layout[ki]] == heap[layout[ki]]
    ensures heap[layout[ki]].Free? ==>
              m < |fl| && fl[m] == layout[ki] && Below(fl, m + 1, NextStart(layout, size, ki))
    ensures !heap[layout[ki]].Free? ==> Below(fl, m, NextStart(layout, size, ki))
  {
    var i: nat := layout[ki];
    FreeOffsetsMembers(heap, layout);
    StartIndexIs(fl, i, m);
    WalkIndex(heap, layout, ki);
    LinkPairsBelow(heap, fl, m, i);
    assert i + Footprint(heap[i]) == NextStart(layout, size, ki);
  }

  /**
    Free-list fidelity: `first_free` names the first entry of `fl`, each entry is a free
    header linking to the next entry, and the last entry's link is NULL.
  */
  ghost predicate Linked(heap: map<nat, Header>, head: Option<nat>, fl: seq<nat>)
  {
    && head == Head(fl)
    && forall j :: 0 <= j < |fl| ==>
         fl[j] in heap && heap[fl[j]].Free? && heap[fl[j]].next == Successor(fl, j)
  }

  /** The link entry `j` of a list holds: the next entry, or NULL at the tail. */
  function Successor(fl: seq<nat>, j: nat): Option<nat>
    requires j < |fl|
  {
    if j + 1 < |fl| then Some(fl[j + 1]) else None
  }

  ghost predicate FreeIn(heap: map<nat, Header>, fl: seq<nat>)
  {
    forall j :: 0 <= j < |fl| ==> fl[j] in heap && heap[fl[j]].Free?
  }

  /**
    The links `update_free_list` has written once its walk has met the first `m`
    entries of `fl`: each entry met after the first is stored as the `next` of the one
    met before it.
  */
  ghost function LinkPairs(heap: map<nat, Header>, fl: seq<nat>, m: nat): (r: map<nat, Header>)
    requires AllIn(heap, fl) && m <= |fl|
    ensures r.Keys == heap.Keys
    decreases m
  {
    if m < 2 then heap
    else
      var h := LinkPairs(heap, fl, m - 1);
      h[fl[m - 2] := SetNext(h[fl[m - 2]], Some(fl[m - 1]))]
  }

  /** The walk's write on meeting entry `m`: the entry met before it links to it. */
  lemma LinkPairsNext(heap: map<nat, Header>, fl: seq<nat>, m: nat)
    requires AllIn(heap, fl) && m < |fl|
    ensures m > 0 ==> fl[m - 1] in LinkPairs(heap, fl, m)
    ensures LinkPairs(heap, fl, m + 1) ==
              if m == 0 then LinkPairs(heap, fl, m)
              else LinkPairs(heap, fl, m)[fl[m - 1] := SetNext(LinkPairs(heap, fl, m)[fl[m - 1]], Some(fl[m]))]
  {
  }

  /**
    What those writes do: each entry met but the last now links to its successor, and
    every other header, and every block's shape, is unchanged.
  */
  lemma {:induction false} LinkPairsFacts(heap: map<nat, Header>, fl: seq<nat>, m: nat)
    requires AllIn(heap, fl) && Increasing(fl) && m <= |fl|
    ensures forall o :: o in heap ==> Shape(LinkPairs(heap, fl, m)[o]) == Shape(heap[o])
    ensures forall j :: 0 <= j < m - 1 ==>
              LinkPairs(heap, fl, m)[fl[j]] == SetNext(heap[fl[j]], Some(fl[j + 1]))
    ensures forall o :: o in heap && (forall j :: 0 <= j < m - 1 ==> fl[j] != o) ==>
              LinkPairs(heap, fl, m)[o] == heap[o]
    decreases m
  {
    if m >= 2 {
      LinkPairsFacts(heap, fl, m - 1);
      var h := LinkPairs(heap, fl, m - 1);
      var o := fl[m - 2];
      assert forall j :: 0 <= j < m - 2 ==> fl[j] != o;
      assert h[o] == heap[o];
      var r := LinkPairs(heap, fl, m);
      assert r == h[o := SetNext(h[o], Some(fl[m - 1]))];
      forall j | 0 <= j < m - 1
        ensures r[fl[j]] == SetNext(heap[fl[j]], Some(fl[j + 1]))
      {
        if j < m - 2 {
          assert fl[j] != o;
        }
      }
      forall o' | o' in heap && (forall j :: 0 <= j < m - 1 ==> fl[j] != o')
        ensures r[o'] == heap[o']
      {
        assert forall j :: 0 <= j < m - 2 ==> fl[j] != o';
      }
    }
  }

  /** A header above every entry met so far has not been written. */
  lemma {:induction false} LinkPairsBelow(heap: map<nat, Header>, fl: seq<nat>, m: nat, o: nat)
    requires AllIn(heap, fl) && m <= |fl| && o in heap
    requires forall j :: 0 <= j < m ==> fl[j] < o
    ensures LinkPairs(heap, fl, m)[o] == heap[o]
    decreases m
  {
    if m >= 2 {
      LinkPairsBelow(heap, fl, m - 1, o);
    }
  }

  /**
    The rebuilt headers: every free block linked to the next one in address order and
    the last one terminated with NULL.
  */
  ghost function Relink(heap: map<nat, Header>, fl: seq<nat>): (r: map<nat, Header>)
    requires AllIn(heap, fl)
    ensures r.Keys == heap.Keys
  {
    if fl == [] then heap
    else
      var h := LinkPairs(heap, fl, |fl|);
      var last := fl[|fl| - 1];
      h[last := SetNext(h[last], None)]
  }

  /**
    Rebuilding over an address-ordered list of free blocks makes the list reachable from
    the head exactly that list, and changes no header's shape and no other header.
  */
  lemma RelinkIsLinked(heap: map<nat, Header>, fl: seq<nat>)
    requires FreeIn(heap, fl) && Increasing(fl)
    ensures Linked(Relink(heap, fl), Head(fl), fl)
    ensures forall o :: o in heap ==> Shape(Relink(heap, fl)[o]) == Shape(heap[o])
    ensures forall o :: o in heap && o !in fl ==> Relink(heap, fl)[o] == heap[o]
  {
    LinkPairsFacts(heap, fl, |fl|);
    if fl != [] {
      var r := Relink(heap, fl);
      var n := |fl|;
      forall j | 0 <= j < n
        ensures fl[j] in r && r[fl[j]].Free?
        ensures r[fl[j]].next == (if j + 1 < n then Some(fl[j + 1]) else None)
      {
        SameShape(r[fl[j]], heap[fl[j]]);
      }
      forall o | o in heap && o !in fl
        ensures r[o] == heap[o]
      {
        assert forall j :: 0 <= j < n - 1 ==> fl[j] != o;
      }
    }
  }

  /** Rewriting links does not change which blocks are free. */
  lemma {:induction false} RelinkKeepsIndex(heap: map<nat, Header>, fl: seq<nat>, offs: seq<nat>)
    requires FreeIn(heap, fl) && Increasing(fl) && AllIn(heap, offs)
    ensures AllIn(Relink(heap, fl), offs)
    ensures FreeOffsets(Relink(heap, fl), offs) == FreeOffsets(heap, offs)
  {
    RelinkIsLinked(heap, fl);
    var r := Relink(heap, fl);
    forall k | 0 <= k < |offs|
      ensures r[offs[k]].Free? == heap[offs[k]].Free?
    {
      SameShape(r[offs[k]], heap[offs[k]]);
    }
    FreeOffsetsShape(r, heap, offs);
  }

  /** The sizes of the listed free blocks, in list order: what the fit policies compare. */
  ghost function Sizes(heap: map<nat, Header>, fl: seq<nat>): (r: seq<nat>)
    requires FreeIn(heap, fl)
    ensures |r| == |fl|
    ensures forall j :: 0 <= j < |fl| ==> r[j] == heap[fl[j]].size as nat
  {
    seq(|fl|, j requires 0 <= j < |fl| => heap[fl[j]].size as nat)
  }

  /** The block a policy's list index names. */
  function At(fl: seq<nat>, r: Option<nat>): Option<nat>
    requires r.Some? ==> r.value < |fl|
  {
    if r.Some? then Some(fl[r.value]) else None
  }
}
