# Fixed-arena memory allocator

A Dafny model of the allocator in `basic/src/mem_alloc.c` and of the two header shapes in
`advanced/src/mem_alloc_types.h`. The allocator manages one arena of `memory_size` bytes.
Each block of the arena starts with a header:

- a free block has a free header (`size` of the whole block as an `unsigned int`, an
  `isFree` byte, a `next` link);
- a used block has a used header (one `unsigned long` holding the payload size).

The free blocks are threaded into a free list from `first_free`. Allocation uses one of
three placement policies, chosen at build time:

- first-fit (`ff_alloc`);
- best-fit (`bf_alloc`);
- next-fit (`nf_alloc`), whose cursor `prev_i` is resolved by `get_next`.

`memory_alloc` carves the chosen block. It splits off a free remainder when that can hold
a free header, and otherwise takes the block whole. `memory_free` re-tags a block as free
and merges it with a free block after it and a free block before it. Both rebuild the free
list with `update_free_list`, a header walk over the whole arena.

How the model is built:

- **Arena.** The arena is a map from block offset to header (`Headers.Header`), with
  `U = 8` (`sizeof(mem_used_block_t)`) and `F = 16` (`sizeof(mem_free_block_t)`).
  `heap_start` is offset 0 and `heap_end` is offset `memory_size`.
- **Walk order.** A ghost sequence `layout` records the block offsets a header walk
  visits, in order. The walk invariants are predicates on it (`Layout.Ok`):
  - tiling: each block's footprint reaches the next block, and the last one reaches
    `memory_size`;
  - every header is well formed: a free header is tagged 1 and spans at least `U`
    bytes, so the walk advances over it;
  - every free block can hold its whole free header, `next` link included (`Layout.Roomy`);
  - no two neighbouring blocks are both free.
- **Value-level definitions.** Each operation has one on arenas:
  - `Carving.Carved` for the carve of `memory_alloc`;
  - `Coalescing.Freed` for the header writes of `memory_free`;
  - `FreeList.Relink` for the corrected list rebuild;
  - the policy functions of `FitPolicy`, over the sizes in free-list order.
- **Imperative side.** The globals (`first_free`, `prev_i`, the headers) are the fields
  of the class `MemAlloc.Allocator`. Its methods are proved against those definitions.
  The module-level methods of `MemAlloc` are the loops of the source (list scans, header
  walks, the backward search), each proved against a specification function.
- **The no-split branch.** It records a payload of `avail - F`, so the walk from the used
  header lands `F - U` bytes short of the block's end, on zeroed bytes. The model
  represents those bytes as a phantom used header `Used(0)`. It proves that the walk
  still tiles because `F - U == U`.

## Model

| member | source | states |
|---|---|---|
| Headers.SetNext | advanced/src/mem_alloc_types.h:7-12 | rewriting the `next` link of a free header sets that link and leaves the size and tag as they were |
| Headers.UsedSize | advanced/src/mem_alloc_types.h:16-19 | a used header holds only the payload size, and the walk advances over it by `U` plus that size |
| Headers.ReadsAsFreeIffFree | basic/src/mem_alloc.c:131 | the `isFree` byte read through the free-header view at a well-formed header is nonzero exactly when the header is a free header, so used headers read as "not free" |
| Headers.FootprintPositive | basic/src/mem_alloc.c:139-144 | every header the allocator writes makes the walk advance by at least `U` bytes |
| Headers.HeaderSizes | advanced/src/mem_alloc_types.h:7-19 | the used header is smaller than the free header, and the gap between the two is one used header |
| Layout.Ordered | basic/src/mem_alloc.c:129-146 | in a tiled arena the walk visits strictly increasing offsets, all below `memory_size` |
| Layout.OkIgnoresLinks | basic/src/mem_alloc.c:133-134 | rewriting only the free-list links of the headers keeps every walk invariant |
| FreeList.FreeOffsetsMembers | basic/src/mem_alloc.c:129-140 | an offset is in the free-block index exactly when it is a block of the walk with a free header |
| FreeList.FreeOffsetsIncreasing | basic/src/mem_alloc.c:129-146 | the free blocks the walk meets come in increasing address order |
| FreeList.LinkPairsFacts | basic/src/mem_alloc.c:133-134 | after the walk has met `m` free blocks, each of the first `m - 1` links to the next free block; every other header is unchanged and no shape changes |
| FreeList.RelinkIsLinked | basic/src/mem_alloc.c:123-147 | the corrected rebuild makes the list from the lowest free block run through exactly the free blocks in address order and end in NULL; it changes no header's shape, and headers off the list are untouched |
| FreeList.RelinkKeepsIndex | basic/src/mem_alloc.c:123-147 | relinking does not change which blocks of the walk are free |
| FreeList.StartIndex | basic/src/mem_alloc.c:82-93 | the list position where next-fit resumes: every earlier entry lies below the cursor and the entry there lies at or above it |
| FreeList.FirstFreeFrom | basic/src/mem_alloc.c:82-93 | the first block tagged free at or after the cursor in walk order is the list entry at that position; when there is none, the position is the end of the list |
| FitPolicy.FirstFitFrom | basic/src/mem_alloc.c:34-39 | the result is the first entry at or after the start whose size is at least the need, every entry before it is too small, and NULL means every entry from the start is too small |
| FitPolicy.BestFitPrefixIsBest | basic/src/mem_alloc.c:51-65 | best-fit's pick fits and is no larger than any fitting entry; every earlier fitting entry is strictly larger, so ties go to the first; NULL means no entry fits |
| FitPolicy.FirstAndBestAgreeOnSuccess | basic/src/mem_alloc.c:30-68 | first-fit finds a block exactly when best-fit does; best-fit's block is never earlier and never larger |
| FitPolicy.NextFitFromHeadIsFirstFit | basic/src/mem_alloc.c:79-80 | next-fit resumed at the list head picks what first-fit picks |
| FitPolicy.NextFitFindsAnyLaterFit | basic/src/mem_alloc.c:101-106 | if any entry at or after the resume point fits, next-fit finds one, no later than it |
| FitPolicy.PoliciesDiffer | basic/src/mem_alloc.c:30-111 | on the free sizes 24, 112, 20 and a need of 16, first-fit, best-fit and next-fit resumed at entry 1 pick three different blocks |
| Carving.CarveArithmetic | basic/src/mem_alloc.c:186-200 | the carved header starts a block that ends where the inserted header starts (the free remainder, or the phantom zero header); that one ends where the candidate ended; both are well formed and the carved header is used |
| Carving.CarvedOk | basic/src/mem_alloc.c:182-200 | carving a free block that fits keeps every walk invariant. Block `k` becomes the used header (payload `req` on a split, `avail - F` otherwise). It is followed by the remainder (free, `avail - U - req` bytes, at `U + req`) or by the phantom `Used(0)` at `avail - U`, which ends exactly at the candidate's end. All other blocks are untouched |
| Coalescing.RetagFacts | basic/src/mem_alloc.c:214-221 | re-tagging a used block as free with size `payload + U` keeps the tiling, also when the block is too small for a free header, and changes no other block |
| Coalescing.AbsorbBound | basic/src/mem_alloc.c:230 | two neighbouring blocks together span exactly from the first to the end of the second, so the merged size fits the `unsigned int` size field |
| Coalescing.AbsorbFacts | basic/src/mem_alloc.c:227-232 | a free block absorbing the free block after it keeps the tiling; the merged block has the sum of the sizes and keeps its link, and every other block is kept and moves down one place |
| Coalescing.ForwardCheck | basic/src/mem_alloc.c:225-227 | the offset where the freed block ends is inside the arena exactly when the block has a next neighbour; then it is that neighbour, whose tag reads free exactly when it is free |
| Coalescing.ForwardReady | basic/src/mem_alloc.c:220-230 | the freed block's size fits the free header's field, and after the re-tag a free next block can be absorbed without overflow |
| Coalescing.ForwardShape | basic/src/mem_alloc.c:214-232 | re-tagging and absorbing a free next block keeps the arena tiled and well formed; the freed block, together with the next block when that was free, becomes one free block; everything else is untouched |
| Coalescing.BackwardReady | basic/src/mem_alloc.c:244-249 | when the previous block is free, after the forward step it and the freed block are free neighbours at the same places, and merging them gives one free block from the previous block to the end of the merged span |
| Coalescing.FreedShape | basic/src/mem_alloc.c:212-249 | the header writes of `memory_free` keep the arena tiled and well formed, and replace the span from the free previous block (if any) to the free next block (if any) by one free block |
| Coalescing.FreedOk | basic/src/mem_alloc.c:212-249 | when the freed block can hold a free header or has a free neighbour, `memory_free` keeps every walk invariant, including "no two neighbouring free blocks" and "every free block holds its link". It leaves one free block starting at the previous block when that was free (otherwise at the freed block). That block ends where the next block ended when that was free (otherwise where the freed block ended) |
| Coalescing.FreedNoAdjacent | basic/src/mem_alloc.c:225-249 | after `memory_free` no two neighbouring blocks are free, for every used block freed |
| Coalescing.FreedRoomy | basic/src/mem_alloc.c:220-249 | when the freed block can hold a free header or has a free neighbour, every free block can hold its link after `memory_free`: a merge with a free neighbour makes the block at least as large as that neighbour |
| Coalescing.UnfreeableBreaksOk | basic/src/mem_alloc.c:220-221 | a freed block of fewer than `F` bytes with no free neighbour stays in the walk as a free header of `payload + U` bytes, and the invariant is lost; so the condition of `FreedOk` is exact |
| Coalescing.FreedKeeps | basic/src/mem_alloc.c:225-249 | a block leaves the walk exactly when `memory_free` absorbs it: the next block when it was free, and the freed block when the previous one was free |
| Coalescing.CursorAfterFree | basic/src/mem_alloc.c:72 | dropping the next-fit cursor when it sits on an absorbed block leaves exactly the cursors that still name a block of the new walk |
| Coalescing.PrecedingIsLastBelow | basic/src/mem_alloc.c:234-242 | the backward search, resumed at any entry below the freed block, stops at the last list entry below the freed block |
| Coalescing.PrecedingMerges | basic/src/mem_alloc.c:244 | the entry the backward search finds is a free block, and it ends where the freed block starts exactly when the block before the freed one is free |
| Coalescing.PrecedingAfterFree | basic/src/mem_alloc.c:234-242 | when the previous block is free, the backward search stops exactly at it |
| MemAlloc.Choose | basic/src/mem_alloc.c:174-180 | the configured policy's pick fits the need; NULL exactly when no entry fits, counting from the head, or from the resume point for next-fit |
| MemAlloc.LinkFreeBlocks | basic/src/mem_alloc.c:123-147 | the walk as written: each free block met becomes the `next` of the previous free block, the first one met becomes `first_free`, `first_free` keeps its old value when none is met, and the tail's link is not touched |
| MemAlloc.ScanList | basic/src/mem_alloc.c:32-41 | the list scan returns the first entry at or after its start whose size is at least the need, or NULL |
| MemAlloc.BestFitScan | basic/src/mem_alloc.c:46-68 | the scan of `bf_alloc` returns the block best-fit picks over the list |
| MemAlloc.SkipUsed | basic/src/mem_alloc.c:82-94 | the header walk of `get_next` returns the first free block at or after the cursor's block, or nothing when it reaches `heap_end` |
| MemAlloc.PrecedingScan | basic/src/mem_alloc.c:234-242 | the backward search over the list returns the entry the reference search picks |
| MemAlloc.CarveBlock | basic/src/mem_alloc.c:184-200 | the header writes of `memory_alloc` at the candidate produce the carved arena |
| MemAlloc.RetagBlock | basic/src/mem_alloc.c:214-221 | the re-tag writes a free header of the block's whole size with `isFree` 1 |
| MemAlloc.AbsorbBlock | basic/src/mem_alloc.c:230-231 | one coalescing write: the first block's size grows by the second's, and the second header leaves the walk |
| MemAlloc.AllocatedBlockSize | basic/src/mem_alloc.c:254-264 | 0 exactly when the recorded payload is 0; otherwise the whole footprint of the used block, header included |
| MemAlloc.MergeForward | basic/src/mem_alloc.c:214-232 | for any used block, re-tag and forward merge yield the forward-merged arena; the merge happens exactly when the next block is free, and then it absorbs that block. The size recorded is the block's footprint, also for payload 0 (see Findings) |
| MemAlloc.Coalesce | basic/src/mem_alloc.c:214-249 | for any used block, the header writes of `memory_free` yield the freed arena; reports a forward merge exactly when the next block was free, and a backward merge exactly when the previous block was free |
| MemAlloc.MergeBackward | basic/src/mem_alloc.c:244-249 | the backward merge completes the freed arena |
| MemAlloc.Allocator.constructor | basic/src/mem_alloc.c:149-161 | after init the arena is one free block of `memory_size` bytes tagged 1, it is the list head, the cursor is NULL, and the invariant holds |
| MemAlloc.Allocator.FirstFitSearch | basic/src/mem_alloc.c:30-42 | `ff_alloc` returns the block first-fit picks over the free sizes in list order |
| MemAlloc.Allocator.BestFitSearch | basic/src/mem_alloc.c:46-68 | `bf_alloc` returns the block best-fit picks over the free sizes in list order |
| MemAlloc.Allocator.GetNext | basic/src/mem_alloc.c:74-95 | with no cursor, the list head; otherwise the first list entry at or after the cursor's block, or nothing when there is none |
| MemAlloc.Allocator.NextFitSearch | basic/src/mem_alloc.c:97-111 | `nf_alloc` returns next-fit's pick from the resume point, stores it (found or NULL) as the cursor, and changes nothing else |
| MemAlloc.Allocator.Alloc | basic/src/mem_alloc.c:163-210 | a request of 0 is refused with nothing changed. With no fitting block, reports out of memory with no header changed. Otherwise it carves the policy's block, rebuilds the list over the carved arena and returns the block's offset plus `U`. It keeps the invariant |
| MemAlloc.Allocator.Place | basic/src/mem_alloc.c:182-202 | carving at the candidate, then the rebuild: the new state is the carved arena with its list relinked, and the invariant holds |
| MemAlloc.Allocator.Free | basic/src/mem_alloc.c:212-252 | for a block that can hold a free header or has a free neighbour, the new state is the freed arena with its list relinked and the invariant holds; the next-fit cursor is kept if its block is still in the walk, otherwise dropped |
| MemAlloc.Allocator.Release | basic/src/mem_alloc.c:212-249 | the header writes of `memory_free` make the blocks the freed arena, `first_free` is kept as it was, and the next-fit cursor is kept if its block is still in the walk, otherwise dropped |
| MemAlloc.Allocator.UpdateFreeList | basic/src/mem_alloc.c:123-147 | the corrected rebuild relinks the free blocks in address order, with NULL after the last one and a NULL head when there is none; the invariant holds |
| Properties.NoSplitShortfall | basic/src/mem_alloc.c:186-191 | the carved header records at least the request exactly when the block splits or is at least `req + F` bytes |
| Properties.PhantomInsideRequest | basic/src/mem_alloc.c:186-191 | without a split the zeroed bytes at `c + avail - U` read as a used header of size 0, and that header lies inside the requested bytes `[c + U, c + U + req)` exactly when the recorded payload is below `req` |
| Properties.SplitAllocThenFree | basic/src/mem_alloc.c:192-252 | splitting a block for any request and freeing it again restores the walk, with every block's shape as before; that free is always one `FreedOk` covers |
| Properties.WholeAllocThenFree | basic/src/mem_alloc.c:186-252 | taking a block whole and freeing it again leaves a free block `U` bytes short, followed by the phantom `Used(0)` header, which stays in the walk; the free is one `FreedOk` covers exactly when the candidate had at least `U + F` bytes |
| Findings.WholeArenaTaken | basic/src/mem_alloc.c:186-191 | a 128-byte arena after `memory_alloc(120)` holds a used block of payload 112 at 0, then the phantom header at 120 |
| Findings.AsWrittenRebuildKeepsStaleHead | basic/src/mem_alloc.c:123-147 | on that arena the walk as written meets no free block, so `first_free` still names offset 0, now a used block, and the list is not the free blocks |
| Findings.CorrectedRebuildClearsHead | basic/src/mem_alloc.c:123-147 | on the same arena the corrected rebuild leaves an empty list with a NULL head |
| Findings.FitsAsWritten | basic/src/mem_alloc.c:36 | the fit test with the sum taken modulo 2^64: it agrees with the unbounded comparison when `size + U` does not wrap, and passes every block of at least `U` bytes when it does |
| Findings.Fits | basic/src/mem_alloc.c:36 | the fit test as intended: a block that passes is larger than the request |
| Findings.FitTestWraps | basic/src/mem_alloc.c:36 | the wrapping fit test agrees with the unbounded one whenever `size + U` does not wrap; the largest request passes the wrapping test at a 16-byte block |
| Findings.TinyBlockTaken | basic/src/mem_alloc.c:186-198 | a 128-byte arena after `memory_alloc(104)` and `memory_alloc(8)` keeps the invariant, holds a used header of payload 0 at 112, and holds the phantom `Used(0)` header at 120, the address the second request returns |
| Findings.ZeroPayloadFreeStalls | basic/src/mem_alloc.c:220-221 | freeing that block as written records size 0: the new free header reads as free and a walk reaching it does not advance |
| Findings.CorrectedRetagAdvances | basic/src/mem_alloc.c:220-221 | recording the footprint instead keeps the arena tiled, with a free header of `U` bytes at 112; that free is outside the condition of `FreedOk` |

## Left out

- Undefined behaviour on out of memory: when no block fits, the source dereferences the NULL candidate (line 182) and returns an uninitialised pointer (line 209). `MemAlloc.Allocator.Alloc` returns `Failed(OutOfMemory)` instead and changes no header. Under next-fit it still stores the NULL result as the cursor, as `nf_alloc` does.
- Zero-size requests: the source prints a message and calls `exit(0)` (lines 165-169). The model returns `Failed(InvalidSize)` with nothing changed.
- The fit re-check at line 182: for a policy's candidate it always holds, so it is not a separate branch. The `print_alloc_error` branch is reached only through the out-of-memory case above.
- Output and process hooks: the diagnostic output (`printf`, all `print_*` routines, `print_mem_state`) and `run_at_exit`/`atexit` are left out. They write to the terminal only.
- `my_mmap` and `MEMORY_SIZE`: the arena is assumed to exist; its size is a constructor parameter bounded by `int` (`F <= memory_size < 2^31`). `memory_init` writes only the size and the tag of the first header, so its `next` link is whatever `my_mmap` returned; the constructor records NULL there, which assumes zeroed pages. `ff_alloc` reads that link at line 38.
- The demo `main` is left out; nothing depends on it.
- Payload bytes and padding: blocks carry headers only, and the model has no client writes. Its invariants therefore hold for clients that write only within the payload their used header records; a no-split allocation can record less than was requested (see `Properties.PhantomInsideRequest` below). The `memset` zeroing is modelled where the walk reads it: as the phantom `Used(0)` header after a whole-block allocation, and as the removal of absorbed headers. 64-bit pointers are offsets.
- The `basic/` copy of the header included at line 12 is not part of this model. The `advanced/` declarations stand in for it.
- Concurrency: the allocator is single-threaded, so none is modelled.
- MemAlloc.Allocator.Free: requires a used header of the walk (an allocation, or a phantom header that no allocation returned) that either has at least `F - U` payload bytes or has a free neighbour (`Coalescing.Freeable`).
  - Double frees and foreign pointers are undefined in the source. A phantom header's address is such a pointer; the model lets it be freed like a block of payload 0.
  - A smaller block with no free neighbour stays in the walk as a free block of fewer than `F` bytes. The re-tag itself writes only the size and the tag, which fit. When another free block follows it, the next rebuild writes the small block's `next` link at line 134, which reaches into the next block's header. When none follows, the rebuild never writes that link, so it keeps the old payload bytes; a later request that the block fits can then take it whole, and line 190 computes a negative payload that wraps in `unsigned long`. `Coalescing.UnfreeableBreaksOk` shows the invariant is then lost.
  - A payload of 0 is freed as corrected (see Findings): the source records size 0 and its walk never leaves that block.
- MemAlloc.MergeForward: the forward merge reads the header where the freed block ends only when that offset is below `heap_end`. The source also reads at `heap_end` when the freed block is last, outside the arena.
- MemAlloc.Allocator.GetNext: when the header walk reaches `heap_end`, the model returns no block. The source returns `heap_end` itself, which `nf_alloc` then reads as a header outside the arena. Next-fit does not wrap around to the list head, as in the code. With no cursor and an empty list, `i` is NULL and the source reads `i->isFree` at line 84; the model returns NULL. That state arises only with the corrected rebuild, which sets `first_free` to NULL.
- MemAlloc.Allocator.Free: drops the next-fit cursor when its block is absorbed by a merge. The source keeps `prev_i` pointing at the zeroed bytes, and `get_next` would then walk from there.
- MemAlloc.Coalesce: the backward search runs before the re-tag. It reads the head's link and the links of entries below the freed block. Steps 1 and 2 do not touch the links below the freed block. The head's link may have been zeroed, when the head is the absorbed next block, but either value stops the search at the head, so the result is the same. With an empty list the source's `tmp` is uninitialised; the model finds no previous block.
- MemAlloc.RetagBlock: writes the new free header with a NULL link, where the source leaves whatever bytes were there. The rebuild overwrites every link that is read afterwards.
- Integer widths: `unsigned int` free sizes are bounded by 2^32, and every sum the model stores is proved to fit. The `size + sizeof(mem_used_block_t)` of the fit tests is computed unbounded; see Findings.
- Properties.NoSplitShortfall, Properties.WholeAllocThenFree, Properties.PhantomInsideRequest, MemAlloc.Allocator.Alloc: the no-split branch's payload of `avail - F` is kept as written (line 190). A request of `req` with `avail - F < req <= avail - U` is granted a payload smaller than asked, and freeing such a block leaves the phantom header allocated. These lemmas state that behaviour rather than correct it. In that case the phantom header at `c + avail - U` lies inside the bytes the caller asked for, `[c + U, c + U + req)`, as `Properties.PhantomInsideRequest` shows. On `Findings.TinyBlockTaken`, `memory_alloc(8)` returns 120, the phantom's own offset. A client that writes the bytes it requested overwrites that header, and the next walk of `update_free_list` (lines 131, 139, 144) reads client data as a header. So `MemAlloc.Allocator.Alloc` keeping the invariant, and `Properties.WholeAllocThenFree`, hold only for clients that write within the recorded payload.

## Findings

| source | as written | input that shows it | evidently intended | confidence | as-written member | corrected member |
|---|---|---|---|---|---|---|
| basic/src/mem_alloc.c:123-147 | `update_free_list` sets `first_free` only when it meets a free block, and never sets the last free block's `next` | a 128-byte arena after `memory_init` and `memory_alloc(120)`: no block is free, but `first_free` still names offset 0, now a used block (Findings.AsWrittenRebuildKeepsStaleHead) | `first_free` is NULL when no block is free, and the last free block links to NULL | not executed | MemAlloc.LinkFreeBlocks | MemAlloc.Allocator.UpdateFreeList |
| basic/src/mem_alloc.c:220 | `memory_free` records `memory_get_allocated_block_size(p)` as the free block's size, and that function returns 0 for a payload of 0 (lines 258-263), so the block is re-tagged free with size 0 | `memory_alloc(104)` then `memory_alloc(8)` on a 128-byte arena: the 16-byte remainder is taken whole and records payload 0 (line 190); freeing it gives a free header of size 0 at 112, where the walk of `update_free_list` stays forever (line 139) (Findings.ZeroPayloadFreeStalls) | record the block's footprint, `payload + sizeof(mem_used_block_t)`, so the walk moves on | not executed | MemAlloc.AllocatedBlockSize | MemAlloc.MergeForward |
| basic/src/mem_alloc.c:36 | the fit test `i->size >= size + sizeof(mem_used_block_t)` adds in `size_t`, which wraps for requests within 8 of 2^64 (the same sum appears at lines 53, 103, 182 and 186) | `size = 2^64 - 1`: the sum wraps to 7, so a 16-byte free block passes the test (Findings.FitTestWraps) | compare against the unbounded sum, so that such a request finds no block | not executed | Findings.FitsAsWritten | MemAlloc.Choose |
