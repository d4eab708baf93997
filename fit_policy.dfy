/**
  The three candidate-selection policies, stated on the sizes of the free blocks in
  free-list order. `need` is the request plus the used-header size; a block fits when
  its recorded size is at least `need`. Results are indexes into the free list.
*/
module FitPolicy {
  import opened Common

  /** First-fit from position `start`: the first block at or after `start` that fits. */
  function FirstFitFrom(sizes: seq<nat>, need: nat, start: nat): (r: Option<nat>)
    decreases |sizes| - start
    ensures r.Some? ==> start <= r.value < |sizes| && sizes[r.value] >= need
    ensures r.Some? ==> forall j :: start <= j < r.value ==> sizes[j] < need
    ensures r.None? ==> forall j :: start <= j < |sizes| ==> sizes[j] < need
  {
    if start >= |sizes| then None
    else if sizes[start] >= need then Some(start)
    else FirstFitFrom(sizes, need, start + 1)
  }

  /** First-fit: scan the whole list from its head. */
  function FirstFit(sizes: seq<nat>, need: nat): Option<nat>
  {
    FirstFitFrom(sizes, need, 0)
  }

  /**
    Best-fit over the first `n` blocks, as the scan keeps it: a later block replaces the
    current minimum only when it is strictly smaller, so ties go to the first one seen.
  */
  function BestFitPrefix(sizes: seq<nat>, need: nat, n: nat): (r: Option<nat>)
    requires n <= |sizes|
    ensures r.Some? ==> r.value < n && sizes[r.value] >= need
  {
    if n == 0 then None
    else
      var r := BestFitPrefix(sizes, need, n - 1);
      if sizes[n - 1] >= need && (r.None? || sizes[n - 1] < sizes[r.value]) then Some(n - 1) else r
  }

  /**
    The best-fit candidate among the first `n` blocks is no larger than any block that
    fits, strictly smaller than every fitting block before it, and there is none only
    when no block fits.
  */
  lemma {:induction false} BestFitPrefixIsBest(sizes: seq<nat>, need: nat, n: nat)
    requires n <= |sizes|
    ensures var r := BestFitPrefix(sizes, need, n);
      && (r.Some? ==> forall j :: 0 <= j < n && sizes[j] >= need ==> sizes[r.value] <= sizes[j])
      && (r.Some? ==> forall j :: 0 <= j < r.value && sizes[j] >= need ==> sizes[r.value] < sizes[j])
      && (r.None? ==> forall j :: 0 <= j < n ==> sizes[j] < need)
  {
    if n > 0 {
      BestFitPrefixIsBest(sizes, need, n - 1);
    }
  }

  /** Best-fit: the whole list. */
  function BestFit(sizes: seq<nat>, need: nat): Option<nat>
  {
    BestFitPrefix(sizes, need, |sizes|)
  }

  /**
    Next-fit: scan forward from the position where the cursor resolved, with no
    wrap-around to the head of the list.
  */
  function NextFit(sizes: seq<nat>, need: nat, start: nat): Option<nat>
  {
    FirstFitFrom(sizes, need, start)
  }

  /** First-fit and best-fit find a candidate for exactly the same requests. */
  lemma FirstAndBestAgreeOnSuccess(sizes: seq<nat>, need: nat)
    ensures FirstFit(sizes, need).Some? <==> BestFit(sizes, need).Some?
    ensures FirstFit(sizes, need).Some? ==>
              FirstFit(sizes, need).value <= BestFit(sizes, need).value &&
              sizes[BestFit(sizes, need).value] <= sizes[FirstFit(sizes, need).value]
  {
    BestFitPrefixIsBest(sizes, need, |sizes|);
  }

  /** Next-fit started at the head of the list is first-fit. */
  lemma NextFitFromHeadIsFirstFit(sizes: seq<nat>, need: nat)
    ensures NextFit(sizes, need, 0) == FirstFit(sizes, need)
  {
  }

  /**
    A next-fit candidate fits and nothing between the start position and it fits; a
    block that fits at or after the start position means next-fit succeeds.
  */
  lemma NextFitFindsAnyLaterFit(sizes: seq<nat>, need: nat, start: nat, j: nat)
    requires start <= j < |sizes| && sizes[j] >= need
    ensures NextFit(sizes, need, start).Some?
    ensures NextFit(sizes, need, start).value <= j
  {
  }

  /**
    The three policies on free blocks of sizes [24, 112, 20] (increasing addresses) for a
    request of 8 bytes (need 16): first-fit takes the block at the head, best-fit the
    smallest sufficient one, and next-fit started after the head takes the second block.
  */
  lemma PoliciesDiffer()
    ensures FirstFit([24, 112, 20], 16) == Some(0)
    ensures BestFit([24, 112, 20], 16) == Some(2)
    ensures NextFit([24, 112, 20], 16, 1) == Some(1)
  {
  }
}
