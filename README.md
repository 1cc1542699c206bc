# Boundary-tag allocator of myAllocator.c, in Dafny

This project models the heap allocator of `myAllocator.c` and proves properties about it.
The allocator carves one contiguous arena, `[arenaBegin, arenaEnd)`, into blocks. Each block
has a header (`BlockPrefix_t`: a pointer to the block's footer and an `allocated` flag) and a
footer (`BlockSuffix_t`: a pointer back to the header). The blocks tile the arena. On top of
that layout the file offers:

- first-fit, best-fit and next-fit searches. Only first-fit reaches its `growArena` fallback
  as written; best-fit and next-fit never do (see Findings);
- splitting of a found block on allocation;
- release with coalescing of free neighbours;
- in-place growth of a region (`combine`, `resizeRegion`);
- a structural checker, `arenaCheck`.

## How the model is built

- **Memory.** It is a `map<int, int>` from byte address to one 8-byte cell (LP64). Each
  block keeps three cells:
  - the header at `p` holds the footer address;
  - `p + 8` holds the flag (0 or 1);
  - the footer holds the header address.
  The header and footer sizes are `align8(sizeof …)`: 16 and 8 bytes.
- **Block list.** The class `MyAllocator.Allocator` holds the file's globals as fields, plus
  a ghost field `blocks: seq<Block>`. `Valid()` says two things:
  - the blocks tile the arena, each at least 24 bytes long;
  - the cells of every block in memory say what the block is.

  `Valid()` implies every assert of `arenaCheck` (lines 181-183 and 193) and is kept by
  every method except `MakeFreeBlock`, a tag writer whose callers re-establish it. It is
  stronger than those asserts: they check neither the flag values nor
  the 24-byte minimum.
- **Pure block-list functions.** Module `BlockOps` states each rewrite on the block list:
  `Marked`, `Fused`, `SplitAt`, `Placed`, `MergedWithPrev`, `Coalesced`, `Released`,
  `Grown` and `Resized`. Module `Placement` states what each search looks for: `FirstFit`,
  `BestFit`, `BestFitAsWritten` and `NextFit`.
- **Methods and lemmas.** Each method is proved to rewrite `blocks` exactly as its function
  says. Lemmas prove what those functions mean: geometry, tiling, coalescing and fit.
- **Tag writes.** Module `TagWrites` proves that the memory writes of each rewrite leave
  memory describing the rewritten list.
- **sbrk.** The two `sbrk` calls are parameters: `initBrk` for `initializeArena` and
  `growBrk` (or `brk`) for `growArena`. `sbrk` reports failure with `(void *) -1`.
  `growArena` tests its result against 0 and against `arenaEnd` (line 158). A real failure
  takes the `n != arenaEnd` branch, and the model follows both branches. `initializeArena`
  never checks the result (line 90). Its precondition, a positive `initBrk` with the arena
  ending below 2^64, excludes the failure value, whether it is read as -1 or as the top
  address.
- **Address helpers.** Each of the source's small address functions is one Dafny function
  in `BlockModel`:
  - `computeUsableSpace`, `computeNextPrefixAddr` and `computePrevSuffixAddr` are
    `UsableSpace`, `NextPrefixAddr` and `PrevSuffixAddr`;
  - `getNextPrefix`, `getPrevPrefix` and `!p->allocated` are `GetNextPrefix`,
    `GetPrevPrefix` and `IsFree` (lines 95-122);
  - `pcheck` is `PCheck` (lines 167-169);
  - `prefixToRegion` and `regionToPrefix` are `PrefixToRegion` and `RegionToPrefix`
    (lines 248-262).

  What they return on an arena is proved in the `Navigation`, `PCheckCovered` and
  `RegionRoundTrip` rows below.

Facts about the code that a reader of the allocator might not expect:

- `findBestFit` never calls `growArena` on a fruitless scan: its "no fit" test (line 377)
  compares a `size_t` with 0 using `<` (see Findings).
- `findNextFit` never wraps around to `arenaBegin` (lines 426-438), so its `growArena` call
  (line 443) cannot be reached (see Findings).
- `resizeRegion(0, 0)` returns 0 (lines 318-325); `resizeRegion(0, n)` for `n > 0` reads the
  header at address 0 (lines 327-328).
- A successful `resizeRegion` that merges the successor splits the merged block again
  (lines 338-343), so the number of blocks stays the same (`ResizedShape`).
- The merge test of `resizeRegion` adds the literal `16` (line 331), while the reclaimed tags
  are `prefixSize + suffixSize == 24` on LP64. `AbsorbsNext` keeps the literal.
- Line 92 assigns an undeclared `areaBegin`. The model assigns `arenaBegin`, as meant.

## Model

| member | source | states |
|---|---|---|
| BlockModel.Align8 | myAllocator.c:61 | the result is the least multiple of 8 not below x |
| BlockModel.WithBlock | myAllocator.c:69-77 | after makeFreeBlock's (or combine's) three writes, the header at addr points at the footer at addr+size-8, the footer points back at addr, and the flag is set; the usable space is size-24 and the next header is at addr+size |
| MyAllocator.Allocator.MakeFreeBlock | myAllocator.c:69-77 | returns addr; memory gains exactly the tags of a free block of size bytes at addr |
| MyAllocator.Allocator.constructor | myAllocator.c:80-84 | no arena yet: arenaBegin, arenaEnd and the tracker are 0, the block list is empty, and the growth switch is the given configuration |
| MyAllocator.Allocator.InitializeArena | myAllocator.c:87-93 | on the first call, the arena is one free block of DEFAULT_BRKSIZE bytes at brk, with the tracker at arenaBegin; afterwards nothing changes; the arena invariant holds either way |
| TagWrites.InitWrite | myAllocator.c:87-93 | the cells initializeArena writes describe an arena of exactly one free block spanning it |
| BlockModel.Navigation | myAllocator.c:95-122 | for every block: computeUsableSpace is end-start-24, computeNextPrefixAddr is its end, `!allocated` reads the flag, getNextPrefix returns 0 exactly for the last block and otherwise the next header, and getPrevPrefix returns 0 exactly for the first block and otherwise the previous header |
| BlockModel.RegionRoundTrip | myAllocator.c:248-262 | regionToPrefix and prefixToRegion map 0 to 0 and are inverse, offset by prefixSize: prefix to region to prefix for headers p > 0, and region to prefix to region for regions r > 16 |
| BlockOps.MergedWithPrevSpec | myAllocator.c:124-131 | coalescePrev merges only when both blocks are free; the merged block spans from the predecessor's start to p's end, has usable(prev)+usable(p)+24 bytes, and is returned; all other blocks stay; otherwise nothing changes and p is returned |
| MyAllocator.Allocator.CoalescePrev | myAllocator.c:124-131 | the arena becomes MergedWithPrev of the old list, and the returned header is that of the block now holding p |
| MyAllocator.Allocator.Coalesce | myAllocator.c:134-142 | coalesce(0) changes nothing; otherwise the arena becomes Coalesced: merged with the predecessor, then the result with its successor |
| TagWrites.FuseWrite | myAllocator.c:124-131 | the footer and header writes of coalescePrev (flag 0) or combine (flag 1) over blocks lo..hi describe the list with those blocks fused |
| BlockOps.ReleasedShape | myAllocator.c:292-299 | freeRegion replaces the block and each free neighbour by one free block from the lowest to the highest of them |
| BlockOps.ReleasedKeepsCoalesced | myAllocator.c:292-299 | if no free block had a free neighbour before freeRegion, none has after it |
| BlockOps.ReleasedKeepsAllocated | myAllocator.c:292-299 | freeRegion leaves every other allocated block in place |
| BlockOps.ReleasedFreesBlock | myAllocator.c:292-299 | afterwards the released block lies inside a free block at least as large |
| MyAllocator.Allocator.FreeRegion | myAllocator.c:292-299 | freeRegion(0) changes nothing; otherwise the arena becomes Released (flag cleared, then coalesced); full coalescing is preserved and the arena invariant holds |
| MyAllocator.Allocator.SetAllocated | myAllocator.c:281 | writing the flag marks exactly that block, and the arena invariant holds |
| TagWrites.MarkWrite | myAllocator.c:281 | the flag write leaves memory describing the list with that block marked |
| BlockOps.GrowthRequest | myAllocator.c:154-156 | growArena asks for max(s+24, DEFAULT_BRKSIZE) bytes |
| BlockOps.GrownShape | myAllocator.c:157-163 | after growth the arena tiles up to the new end; the last block is free, ends at the new end and has at least request-24 usable bytes; it absorbed the old last block when that was free; all blocks before it are unchanged |
| BlockOps.GrownKeepsCoalesced | myAllocator.c:157-163 | growth keeps every free block between allocated ones |
| BlockOps.GrownKeepsStarts | myAllocator.c:157-163 | growth keeps every header a header |
| TagWrites.GrowWrite | myAllocator.c:160-161 | the new block's cells at the old arena end describe the old list plus that block |
| MyAllocator.Allocator.GrowArena | myAllocator.c:146-164 | with growth disabled, or when sbrk returns 0 or an address other than arenaEnd, it returns 0 and nothing changes; otherwise arenaEnd advances by the request and the arena is Grown; it returns the header of the block holding the new space |
| BlockModel.PCheckCovered | myAllocator.c:167-169 | on a tiled arena pcheck holds exactly for the addresses some block holds: it rejects every address outside the blocks, and (with Navigation) accepts every header and footer |
| MyAllocator.Allocator.ArenaCheck | myAllocator.c:172-202 | every assert of the walk holds; it sums the usable space of the free and the allocated blocks and counts the blocks; free + allocated + 24 * blocks equals arenaEnd - arenaBegin |
| BlockModel.Accounting | myAllocator.c:172-202 | in any tiled arena, free + allocated usable space plus 24 bytes per block is the arena size |
| Placement.FitFromSpec | myAllocator.c:236-244 | the forward scan from block k skips only blocks that do not fit, and finds nothing only when no block from k on fits |
| MyAllocator.Allocator.FindFirstFit | myAllocator.c:236-244 | returns the header of the lowest-address free block with at least s usable bytes; when there is none, it returns what growArena returns and the arena is grown accordingly |
| BlockOps.PlacedShape | myAllocator.c:274-282 | when the excess allows a split, the allocated front keeps the header address and has exactly align8(s) usable bytes, and the free remainder has the rest less 24, at least 8; together they span the original block; otherwise the whole block is marked |
| BlockOps.PlacedAllocates | myAllocator.c:274-282 | the placed block keeps its header, is allocated and holds at least s bytes |
| BlockOps.PlacedTiles | myAllocator.c:274-282 | the arena stays tiled after a placement |
| BlockOps.PlacedKeepsCoalesced | myAllocator.c:274-282 | placing into a free block keeps every free block between allocated ones |
| BlockOps.PlacedKeepsStarts | myAllocator.c:274-282 | a placement keeps every header a header |
| TagWrites.SplitWrite | myAllocator.c:276-279 | the two makeFreeBlock calls of a split, remainder first, describe the list with the block split |
| MyAllocator.Allocator.SplitBlock | myAllocator.c:276-279 | the arena becomes SplitAt: a front block of exactly asize usable bytes and a free remainder |
| MyAllocator.Allocator.PlaceBlock | myAllocator.c:274-282 | the arena becomes Placed for the found block, and the region returned is its header plus 16 |
| MyAllocator.Allocator.PlaceAt | myAllocator.c:274-282 | the placed block keeps its index and header, is allocated, holds s bytes when it did before, and keeps full coalescing when it was a free fit |
| MyAllocator.Allocator.PlaceFound | myAllocator.c:273-288 | a found block is placed and its region returned; a 0 from the search returns 0 and leaves the arena unchanged |
| MyAllocator.ObtainedFits | myAllocator.c:236-244 | the block a search chose fits, the block growth provides fits too, and the arena stays tiled and fully coalesced; a search result is 0 exactly when nothing was obtained |
| MyAllocator.Allocator.FirstFitAllocRegion | myAllocator.c:265-290 | initialises the arena if need be, then places the first fit (or the grown block) and returns its region, or returns 0 with the arena unchanged; the region's block is allocated with at least s usable bytes; full coalescing is preserved; the tracker is arenaBegin after a first-call initialisation and unchanged otherwise, and stays a header |
| Placement.BestFitUpToSpec | myAllocator.c:352-381 | the best fit among the first n blocks exists exactly when some fits; no fitting block has less slack; every earlier fit has strictly more, so ties keep the first |
| Placement.ExactFitIsBest | myAllocator.c:360-361 | an exact fit with no exact fit before it is the best fit, so stopping the scan there is sound |
| MyAllocator.BestScanStep | myAllocator.c:358-372 | one step of the scan keeps the running best fit and difference equal to the best fit so far |
| Placement.BestFitAsWrittenFits | myAllocator.c:352-381 | as written, findBestFit returns a fitting block exactly when some block fits |
| MyAllocator.Allocator.FindBestFit | myAllocator.c:352-381 | as written: returns the header of the best fit, or arenaBegin when no block fits (the `< 0` tests on a size_t never hold), and never grows the arena |
| MyAllocator.BestFitFallthroughReusesAllocated | myAllocator.c:377-380 | an arena whose only block is allocated: nothing fits 8 bytes, yet the block at arenaBegin is chosen, and placing it re-allocates the live region and frees its tail |
| MyAllocator.Allocator.FindBestFitOrGrow | myAllocator.c:352-381 | corrected findBestFit: returns the best fit, or falls back on growArena exactly when no block fits |
| MyAllocator.Allocator.BestFitAllocRegion | myAllocator.c:384-407 | as written: places the block findBestFit returns and never grows the arena; the result is always a nonzero, allocated region; the region holds s bytes and coalescing is kept only when some block fitted; the tracker is set only by initialisation and stays a header |
| MyAllocator.Allocator.BestFitOrGrowAllocRegion | myAllocator.c:384-407 | with the corrected search: places the best fit (or the grown block) and returns its region, or 0 with the arena unchanged; the region holds s bytes and full coalescing is preserved; the tracker is set only by initialisation and stays a header |
| Placement.NextFitSpec | myAllocator.c:420-444 | NextFit is the first fit in the cyclic order from block k and finds nothing only when no block fits |
| MyAllocator.Allocator.FindNextFit | myAllocator.c:420-444 | as written: returns the first fit at or after the tracker and moves the tracker there; the wrap branch and the growArena call are unreachable |
| MyAllocator.NextFitNeverWraps | myAllocator.c:426-437 | the tracker at the allocated second block and only the first block fitting: the as-written scan finds nothing before the arena end, while the wrap-around search finds the first block |
| MyAllocator.Allocator.FindNextFitWrapping | myAllocator.c:420-444 | corrected findNextFit: returns the first fit in cyclic order from the tracker and moves the tracker there, or falls back on growArena exactly when no block fits |
| MyAllocator.Allocator.NextFitAllocRegion | myAllocator.c:446-469 | as written: places the first fit at or after the tracker and returns its region; the tracker moves to that block, which is allocated with at least s bytes; full coalescing is preserved |
| MyAllocator.ObtainedKeepsStarts | myAllocator.c:446-469 | growing and placing keep the tracker at a block header, and the placed block keeps its header |
| MyAllocator.Allocator.WrappingNextFitAllocRegion | myAllocator.c:446-469 | with the corrected search: places the cyclic next fit (or the grown block), or returns 0; the tracker follows the block found and stays at a header; the region holds s bytes and full coalescing is preserved |
| MyAllocator.Allocator.Combine | myAllocator.c:303-311 | the block at left absorbs its successor at right, is marked allocated, and left is returned |
| MyAllocator.Allocator.AbsorbNext | myAllocator.c:327-334 | the block absorbs its successor exactly when the successor exists, is free, and their usable sizes plus 16 reach newSize |
| BlockOps.ResizedShape | myAllocator.c:313-349 | a region already large enough comes back unchanged; a successful growth merged the free successor, keeps the header, has exactly align8(n) usable bytes and a free remainder ending where the successor ended, and keeps the block count; a failure returns 0, possibly after merging |
| BlockOps.ResizedKeepsCoalesced | myAllocator.c:313-349 | resizeRegion keeps every free block between allocated ones |
| MyAllocator.Allocator.ResizeRegion | myAllocator.c:313-349 | the arena becomes Resized and the result is r on success and 0 on failure; a nonzero result's block holds newSize bytes; full coalescing is preserved |

## Left out

- Output: `printf`/`fprintf` calls, `printBlockInfo` (lines 205-232), the failure messages
  (lines 284-287, 402-405, 464-467) and the read of `computeUsableSpace(arenaBegin)` that
  only feeds them. The print at line 151 of an uninitialised pointer is left out too.
- `sbrk` failure at initialisation: `initializeArena` (line 90) never checks the result.
  The model therefore requires a positive `initBrk` with the arena ending below 2^64. That
  excludes the failure value `(void *) -1`, read either as -1 or as the top address. Both
  `sbrk` calls require the arena to end below 2^64.
- Payload bytes: memory holds only the tag cells, so region contents are not modelled.
- C integer widths: `int oldSize`, `combinedSizes`, `foundSize`, `iteratedUsableSpace` and
  `numBlocks` are unbounded integers. Sizes are taken to stay below `INT_MAX`, so the
  narrowing never bites.
- `isEqual` (lines 415-417) is inlined as `==`.
- Concurrency: the allocator is single-threaded global state.
- The driver programs that time and exercise the allocator are not part of this model.
- FindNextFit: requires the tracker to be a block header, and a fitting block at or after
  it. Without a fit the source walks off the arena end and reads the header at address 0.
- NextFitAllocRegion: has the same precondition as FindNextFit. It also requires the tracker
  to be a block header.
- WrappingNextFitAllocRegion: requires the tracker to be a block header. `freeRegion` can
  leave the tracker inside a merged block, because coalescing never updates it. The model
  does not follow a stale tracker.
- BestFitAllocRegion: promises s usable bytes and full coalescing only when some block fits.
  In the fallthrough case it places the block at arenaBegin whatever it holds (see Findings).
- ResizeRegion: requires `newSize == 0` when `r == 0`. Otherwise the source reads the header
  at address 0 (lines 327-328).
- ResizeRegion: requires `r` to be a region of the arena. An address the allocator does not
  own is undefined behaviour.

## Findings

| source | as written | input that shows it | evidently intended | confidence | as-written member | corrected member |
|---|---|---|---|---|---|---|
| myAllocator.c:355-380 | the "no fit yet" sentinel is a `size_t` set to -1 and tested with `< 0`, which never holds; when no block fits, findBestFit returns arenaBegin and never calls growArena | an arena whose only block is allocated, with a request for 8 bytes (`MyAllocator.BestFitFallthroughReusesAllocated`): bestFitAllocRegion hands out the live region again and turns its tail into a free block | call growArena exactly when no block fits | not executed | MyAllocator.Allocator.FindBestFit | MyAllocator.Allocator.FindBestFitOrGrow |
| myAllocator.c:426-443 | the wrap test `hasMadeCycle && …` runs while `hasMadeCycle` is still 0, so the scan never returns to arenaBegin; past the last block `p` becomes 0 and line 427 reads address 0; the growArena call is unreachable | the tracker at an allocated second block, with only the first block fitting (`MyAllocator.NextFitNeverWraps`) | wrap around to arenaBegin, scan up to the tracker, then call growArena | not executed | MyAllocator.Allocator.FindNextFit | MyAllocator.Allocator.FindNextFitWrapping |
