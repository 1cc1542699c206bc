/** The allocator of myAllocator.c: its global state (arena bounds, next-fit tracker,
    growth switch and the boundary tags in memory) as the fields of one object, and
    its functions as methods proved against the block-list definitions of BlockOps
    and Placement. */
module MyAllocator {
  import opened BlockModel
  import opened Placement
  import opened BlockOps
  import opened TagWrites

  /** SIZE_MAX: the value (size_t)-1 that findBestFit starts its best difference at. */
  const SizeMax: int := AddressTop - 1

  /** The block list right after initializeArena has run on an arena starting at brk. */
  function FreshArena(brk: int): (bs: seq<Block>)
    ensures |bs| == 1 && bs[0].start == brk && bs[0].end == brk + DefaultBrkSize && !bs[0].isAllocated
  {
    [Block(brk, brk + DefaultBrkSize, false)]
  }

  /** What a search leaves behind: the block list and arena end afterwards, and the index
      of the block it returns (None: it returns 0). */
  datatype Outcome = Outcome(blocks: seq<Block>, end: int, found: Option<nat>)

  /** growArena's outcome on the block list bs of an arena ending at end. It grows only
      when growth is enabled and sbrk returns brk == end. */
  function Growth(bs: seq<Block>, end: int, s: nat, canGrow: bool, brk: int): Outcome
  {
    if canGrow && brk != 0 && brk == end then
      var (g, j) := Grown(bs, brk, GrowthRequest(s));
      Outcome(g, end + GrowthRequest(s), Some(j))
    else Outcome(bs, end, None)
  }

  /** What the search of an *AllocRegion function obtains, given the block its scan chose
      (None: nothing fits, and it falls back on growArena). */
  function Obtained(choice: Option<nat>, bs: seq<Block>, end: int, s: nat, canGrow: bool, brk: int): Outcome
  {
    if choice.Some? then Outcome(bs, end, choice) else Growth(bs, end, s, canGrow, brk)
  }

  /** The header address a search returns for an outcome: its block's start, or 0. */
  function Chosen(o: Outcome): int
  {
    if o.found.Some? && o.found.value < |o.blocks| then o.blocks[o.found.value].start else 0
  }

  /** growArena's successful path: the new free block appended at the old end is a header
      of the longer list, and merging it with its predecessor gives Growth's outcome. */
  lemma GrowthAppends(bs: seq<Block>, begin: int, end: int, s: nat, canGrow: bool)
    requires Tiles(bs, begin, end) && canGrow && end != 0
    ensures var bs1 := bs + [Block(end, end + GrowthRequest(s), false)];
      && IsBlockStart(bs1, end) && IndexOf(bs1, end) == |bs|
      && var (r, j) := MergedWithPrev(bs1, |bs|);
         Growth(bs, end, s, canGrow, end) == Outcome(r, end + GrowthRequest(s), Some(j))
  {
    var bs1 := bs + [Block(end, end + GrowthRequest(s), false)];
    TilesConcat(bs, [Block(end, end + GrowthRequest(s), false)], begin, end, end + GrowthRequest(s));
    IndexOfStart(bs1, begin, end + GrowthRequest(s), |bs|);
  }

  /** Whatever the scan chose fits, the grown block fits too, the arena stays tiled and
      stays fully coalesced: the block an *AllocRegion function places can hold s bytes. */
  lemma ObtainedFits(choice: Option<nat>, bs: seq<Block>, begin: int, end: int, s: nat, canGrow: bool, brk: int)
    requires Tiles(bs, begin, end)
    requires choice.Some? ==> choice.value < |bs| && Fits(bs[choice.value], s)
    ensures var o := Obtained(choice, bs, end, s, canGrow, brk);
      && Tiles(o.blocks, begin, o.end) && end <= o.end
      && (o.found.Some? ==> o.found.value < |o.blocks| && Fits(o.blocks[o.found.value], s)
                            && begin <= o.blocks[o.found.value].start)
      && (o.found.None? ==> o.blocks == bs && o.end == end)
      && (0 < begin ==> (Chosen(o) != 0 <==> o.found.Some?))
      && (FullyCoalesced(bs) ==> FullyCoalesced(o.blocks))
  {
    var o := Obtained(choice, bs, end, s, canGrow, brk);
    if choice.None? && canGrow && brk != 0 && brk == end {
      GrownShape(bs, begin, end, GrowthRequest(s));
      if FullyCoalesced(bs) {
        GrownKeepsCoalesced(bs, begin, end, GrowthRequest(s));
      }
    }
    if o.found.Some? {
      TilesBounds(o.blocks, begin, o.end, o.found.value);
    }
  }

  /** Placing the block an *AllocRegion search obtained keeps every header a header,
      and keeps the placed block's own header. */
  lemma ObtainedKeepsStarts(choice: Option<nat>, bs: seq<Block>, begin: int, end: int, s: nat,
                            canGrow: bool, brk: int, t: int)
    requires Tiles(bs, begin, end) && IsBlockStart(bs, t)
    requires choice.Some? ==> choice.value < |bs|
    ensures var o := Obtained(choice, bs, end, s, canGrow, brk);
      && IsBlockStart(o.blocks, t)
      && (o.found.Some? ==>
            && o.found.value < |o.blocks|
            && IsBlockStart(Placed(o.blocks, o.found.value, Align8(s)), t)
            && Placed(o.blocks, o.found.value, Align8(s))[o.found.value].start == o.blocks[o.found.value].start)
  {
    var o := Obtained(choice, bs, end, s, canGrow, brk);
    if choice.None? && canGrow && brk != 0 && brk == end {
      GrownShape(bs, begin, end, GrowthRequest(s));
      GrownKeepsStarts(bs, begin, end, GrowthRequest(s), t);
    }
    if o.found.Some? {
      PlacedShape(o.blocks, o.found.value, Align8(s));
      PlacedKeepsStarts(o.blocks, o.found.value, Align8(s), t);
    }
  }

  /** findBestFit's scan after the first k blocks: no exact fit among them, and the
      current best fit and its excess are those of BestFitUpTo, or the initial `none`
      and `top` while nothing fitted. */
  ghost predicate BestScan(bs: seq<Block>, s: nat, k: nat, fit: int, diff: int, none: int, top: int)
    requires k <= |bs|
  {
    && (forall j :: 0 <= j < k && Fits(bs[j], s) ==> Slack(bs[j], s) != 0)
    && (BestFitUpTo(bs, s, k).None? ==> fit == none && diff == top)
    && (BestFitUpTo(bs, s, k).Some? ==>
          fit == bs[BestFitUpTo(bs, s, k).value].start && diff == Slack(bs[BestFitUpTo(bs, s, k).value], s))
  }

  /** One step of findBestFit's scan: block k, not an exact fit, replaces the current
      best exactly when it fits with less excess. */
  lemma BestScanStep(bs: seq<Block>, s: nat, k: nat, fit: int, diff: int, none: int, top: int,
                     fit': int, diff': int)
    requires k < |bs| && BestScan(bs, s, k, fit, diff, none, top)
    requires Fits(bs[k], s) ==> 0 < Slack(bs[k], s) < top
    requires if Fits(bs[k], s) && Slack(bs[k], s) < diff then fit' == bs[k].start && diff' == Slack(bs[k], s)
             else fit' == fit && diff' == diff
    ensures BestScan(bs, s, k + 1, fit', diff', none, top)
  {
  }

  /** Counterexample to findBestFit as written: in an arena whose only block is allocated
      nothing fits a request for 8 bytes, yet the scan returns arenaBegin, the header of
      that allocated block. bestFitAllocRegion then splits it and marks its front
      allocated: the region at b + 16 is handed out a second time and everything of the
      live region past its first 16 bytes becomes a free block. */
  lemma BestFitFallthroughReusesAllocated(b: int)
    ensures var bs := [Block(b, b + DefaultBrkSize, true)];
      && BestFit(bs, 8).None? && BestFitAsWritten(bs, 8) == 0 && bs[0].start == b && bs[0].isAllocated
      && Placed(bs, 0, Align8(8)) == [Block(b, b + 32, true), Block(b + 32, b + DefaultBrkSize, false)]
  {
    var bs := [Block(b, b + DefaultBrkSize, true)];
    assert BestFitUpTo(bs, 8, 0).None?;
    assert Align8(8) == 8;
  }

  /** Counterexample to findNextFit as written: the tracker is at the allocated second
      block and only the first block fits. The scan finds nothing from the tracker to the
      end of the arena (FitFrom is None), getNextPrefix returns 0 there, and since the
      wrap-around branch never runs the next iteration reads the header at address 0;
      the wrap-around search finds the first block. */
  lemma NextFitNeverWraps(b: int)
    ensures var bs := [Block(b, b + 64, false), Block(b + 64, b + 128, true)];
      FitFrom(bs, 8, 1).None? && NextFit(bs, 8, 1) == Some(0)
  {
    var bs := [Block(b, b + 64, false), Block(b + 64, b + 128, true)];
    assert FitFrom(bs, 8, 2).None?;
  }

  class Allocator {
    /** The header and footer cells of every block, by byte address. */
    var mem: Memory
    /** arenaBegin and arenaEnd: 0 and 0 until the arena is initialised. */
    var arenaBegin: int
    var arenaEnd: int
    /** Where findNextFit starts its scan. */
    var nextFitTracker: int
    /** When set, growArena refuses to call sbrk. */
    var growingDisabled: bool
    /** The blocks of the arena in address order, as the tags in mem describe them. */
    ghost var blocks: seq<Block>

    ghost predicate Valid()
      reads this
    {
      if arenaBegin == 0 then arenaEnd == 0 && blocks == []
      else WellFormed(mem, arenaBegin, arenaEnd, blocks)
    }

    /** The state before any call: no arena yet. The source starts with growth disabled. */
    constructor (growingDisabled: bool)
      ensures Valid() && this.growingDisabled == growingDisabled
      ensures arenaBegin == 0 && arenaEnd == 0 && nextFitTracker == 0
      ensures blocks == [] && mem == map[]
    {
      mem := map[];
      arenaBegin, arenaEnd, nextFitTracker := 0, 0, 0;
      this.growingDisabled := growingDisabled;
      blocks := [];
    }

    /** makeFreeBlock: writes the header (suffix address, flag 0) and the footer of a
        free block of size bytes at addr. */
    method MakeFreeBlock(addr: int, size: int) returns (p: int)
      requires size >= Overhead
      modifies this`mem
      ensures p == addr && mem == WithBlock(old(mem), addr, size, false)
    {
      p := addr;
      var limitAddr := addr + size;
      var s := limitAddr - SuffixSize;
      mem := mem[p := s];
      mem := mem[s := p];
      mem := mem[p + FlagOffset := 0];
    }

    /** initializeArena: on the first call, one free block over the DEFAULT_BRKSIZE bytes
        that sbrk returned at brk; afterwards nothing. */
    method InitializeArena(brk: int)
      requires Valid()
      requires arenaBegin == 0 ==> 0 < brk && brk + DefaultBrkSize < AddressTop
      modifies this`mem, this`arenaBegin, this`arenaEnd, this`nextFitTracker, this`blocks
      ensures Valid()
      ensures old(arenaBegin) != 0 ==>
        && arenaBegin == old(arenaBegin) && arenaEnd == old(arenaEnd)
        && nextFitTracker == old(nextFitTracker) && blocks == old(blocks) && mem == old(mem)
      ensures old(arenaBegin) == 0 ==>
        && arenaBegin == brk && arenaEnd == brk + DefaultBrkSize
        && nextFitTracker == brk && blocks == FreshArena(brk)
    {
      if arenaBegin != 0 {
        return;
      }
      InitWrite(mem, brk, DefaultBrkSize);
      arenaBegin := MakeFreeBlock(brk, DefaultBrkSize);
      arenaEnd := arenaBegin + DefaultBrkSize;
      // The source assigns an undeclared `areaBegin` here; arenaBegin is meant.
      nextFitTracker := arenaBegin;
      blocks := FreshArena(brk);
    }

    /** p->allocated = a for the block whose header is at p. */
    method SetAllocated(p: int, a: bool)
      requires Valid() && IsBlockStart(blocks, p)
      modifies this`mem, this`blocks
      ensures Valid() && blocks == Marked(old(blocks), IndexOf(old(blocks), p), a)
    {
      ghost var bs := blocks;
      ghost var i := IndexOf(bs, p);
      MarkWrite(mem, arenaBegin, arenaEnd, bs, i, a, p);
      mem := mem[p + FlagOffset := Flag(a)];
      blocks := Marked(bs, i, a);
    }

    /** The split of an allocation: the block at p becomes a free block of exactly asize
        usable bytes followed by a free remainder. */
    method SplitBlock(p: int, asize: nat)
      requires Valid() && IsBlockStart(blocks, p) && CanSplit(blocks[IndexOf(blocks, p)], asize)
      modifies this`mem, this`blocks
      ensures Valid() && blocks == SplitAt(old(blocks), IndexOf(old(blocks), p), asize)
    {
      ghost var bs, m0 := blocks, mem;
      ghost var i := IndexOf(bs, p);
      AllCellsAt(m0, bs, i);
      var freeSliverStart := p + PrefixSize + SuffixSize + asize;
      var freeSliverEnd := NextPrefixAddr(mem, p);
      ghost var b0, e0 := arenaBegin, arenaEnd;
      var right := MakeFreeBlock(freeSliverStart, freeSliverEnd - freeSliverStart);
      var left := MakeFreeBlock(p, freeSliverStart - p);
      SplitWrite(m0, mem, b0, e0, bs, i, asize, p, freeSliverStart, freeSliverEnd);
      blocks := SplitAt(bs, i, asize);
    }

    /** Lines shared by the three *AllocRegion functions once a block p was found: split
        off the excess when there is room for another block, mark allocated, and return
        the region. */
    method PlaceBlock(p: int, s: nat) returns (r: int)
      requires Valid() && IsBlockStart(blocks, p)
      modifies this`mem, this`blocks
      ensures Valid() && r == PrefixToRegion(p)
      ensures blocks == Placed(old(blocks), IndexOf(old(blocks), p), Align8(s))
    {
      var asize := Align8(s);
      ghost var i := IndexOf(blocks, p);
      Navigation(mem, arenaBegin, arenaEnd, blocks, i);
      var availSize := UsableSpace(mem, p);
      if availSize >= asize + PrefixSize + SuffixSize + SplitSlack {
        SplitBlock(p, asize);
        IndexOfStart(blocks, arenaBegin, arenaEnd, i);
      }
      SetAllocated(p, true);
      r := PrefixToRegion(p);
    }

    /** PlaceBlock on block i, with what it means for the caller: the block keeps its
        header, is allocated, holds s bytes when it fitted, and a free block that fitted
        leaves a fully coalesced arena so. */
    method PlaceAt(p: int, s: nat, ghost i: nat) returns (r: int)
      requires Valid() && i < |blocks| && p == blocks[i].start
      modifies this`mem, this`blocks
      ensures Valid() && r == PrefixToRegion(p) && blocks == Placed(old(blocks), i, Align8(s))
      ensures r != 0 && IsBlockStart(blocks, RegionToPrefix(r)) && IndexOf(blocks, RegionToPrefix(r)) == i
      ensures blocks[i].isAllocated
      ensures old(blocks[i].Usable()) >= s ==> blocks[i].Usable() >= s
      ensures old(FullyCoalesced(blocks) && Fits(blocks[i], s)) ==> FullyCoalesced(blocks)
    {
      ghost var bs1 := blocks;
      IndexOfStart(bs1, arenaBegin, arenaEnd, i);
      TilesBounds(bs1, arenaBegin, arenaEnd, i);
      r := PlaceBlock(p, s);
      RegionRoundTrip(p, r);
      PlacedShape(bs1, i, Align8(s));
      if bs1[i].Usable() >= s {
        PlacedAllocates(bs1, i, s);
      }
      IndexOfStart(blocks, arenaBegin, arenaEnd, i);
      if FullyCoalesced(bs1) && Fits(bs1[i], s) {
        PlacedKeepsCoalesced(bs1, i, Align8(s));
      }
    }

    /** The tail shared by the *AllocRegion functions: place the block p their search
        returned (the block f of the list bs1), or return 0 when p is 0. */
    method PlaceFound(p: int, s: nat, ghost bs1: seq<Block>, ghost f: Option<nat>) returns (r: int)
      requires Valid() && blocks == bs1
      requires f.Some? ==> f.value < |bs1| && Fits(bs1[f.value], s) && p == bs1[f.value].start
      requires f.None? <==> p == 0
      modifies this`mem, this`blocks
      ensures Valid()
      ensures if f.Some? then r == PrefixToRegion(p) && blocks == Placed(bs1, f.value, Align8(s))
        else r == 0 && blocks == bs1
      ensures r != 0 ==>
        && IsBlockStart(blocks, RegionToPrefix(r))
        && blocks[IndexOf(blocks, RegionToPrefix(r))].isAllocated
        && blocks[IndexOf(blocks, RegionToPrefix(r))].Usable() >= s
      ensures FullyCoalesced(bs1) ==> FullyCoalesced(blocks)
    {
      if p != 0 {
        r := PlaceAt(p, s, f.value);
      } else {
        r := 0;
      }
    }

    /** coalescePrev: merges the block at p into its predecessor when both are free, and
        returns the header of the block that now holds p. */
    method CoalescePrev(p: int) returns (q: int)
      requires Valid() && IsBlockStart(blocks, p)
      modifies this`mem, this`blocks
      ensures Valid()
      ensures var (r, j) := MergedWithPrev(old(blocks), IndexOf(old(blocks), p));
        blocks == r && j < |r| && q == r[j].start
    {
      ghost var bs, m0 := blocks, mem;
      ghost var i := IndexOf(bs, p);
      Navigation(m0, arenaBegin, arenaEnd, bs, i);
      if i > 0 {
        Navigation(m0, arenaBegin, arenaEnd, bs, i - 1);
      }
      var prev := GetPrevPrefix(mem, arenaBegin, p);
      if p != 0 && prev != 0 && IsFree(mem, p) && IsFree(mem, prev) {
        var size := NextPrefixAddr(mem, p) - prev;
        FuseWrite(m0, arenaBegin, arenaEnd, bs, i - 1, i, false, prev, size);
        var merged := MakeFreeBlock(prev, size);
        blocks := Fused(bs, i - 1, i, false);
        q := prev;
      } else {
        q := p;
      }
    }

    /** coalesce: the block at p with its predecessor, then the result with its successor. */
    method Coalesce(p: int)
      requires Valid() && (p == 0 || IsBlockStart(blocks, p))
      modifies this`mem, this`blocks
      ensures Valid()
      ensures blocks == if p == 0 then old(blocks) else Coalesced(old(blocks), IndexOf(old(blocks), p))
    {
      if p != 0 {
        ghost var i := IndexOf(blocks, p);
        ghost var bs0 := blocks;
        var q := CoalescePrev(p);
        ghost var j := MergedWithPrev(bs0, i).1;
        IndexOfStart(blocks, arenaBegin, arenaEnd, j);
        Navigation(mem, arenaBegin, arenaEnd, blocks, j);
        var next := GetNextPrefix(mem, arenaEnd, q);
        if next != 0 {
          IndexOfStart(blocks, arenaBegin, arenaEnd, j + 1);
          var r := CoalescePrev(next);
        }
      }
    }

    /** freeRegion: the block of region r is marked free and coalesced with its neighbours;
        r == 0 is ignored. */
    method FreeRegion(r: int)
      requires Valid() && (r == 0 || IsBlockStart(blocks, RegionToPrefix(r)))
      modifies this`mem, this`blocks
      ensures Valid()
      ensures blocks == if r == 0 then old(blocks) else Released(old(blocks), IndexOf(old(blocks), RegionToPrefix(r)))
      ensures old(FullyCoalesced(blocks)) ==> FullyCoalesced(blocks)
    {
      if r != 0 {
        var p := RegionToPrefix(r);
        ghost var i := IndexOf(blocks, p);
        ghost var bs0 := blocks;
        SetAllocated(p, false);
        ghost var bs1 := blocks;
        assert bs1[i].start == p;
        IndexOfStart(bs1, arenaBegin, arenaEnd, i);
        TilesBounds(bs1, arenaBegin, arenaEnd, i);
        Coalesce(p);
        assert blocks == Coalesced(bs1, i);
        if FullyCoalesced(bs0) {
          ReleasedKeepsCoalesced(bs0, i);
        }
      }
    }

    /** combine: the block at left absorbs its successor at right and is marked allocated. */
    method Combine(left: int, right: int) returns (p: int)
      requires Valid() && IsBlockStart(blocks, left)
      requires IndexOf(blocks, left) + 1 < |blocks| && blocks[IndexOf(blocks, left) + 1].start == right
      modifies this`mem, this`blocks
      ensures Valid() && p == left
      ensures var i := IndexOf(old(blocks), left); blocks == Fused(old(blocks), i, i + 1, true)
    {
      ghost var bs, m0 := blocks, mem;
      ghost var i := IndexOf(bs, left);
      AllCellsAt(m0, bs, i + 1);
      p := left;
      var limitAddr := left + (NextPrefixAddr(mem, right) - left);
      FuseWrite(m0, arenaBegin, arenaEnd, bs, i, i + 1, true, left, limitAddr - left);
      var s := limitAddr - SuffixSize;
      mem := mem[p := s];
      mem := mem[s := p];
      mem := mem[p + FlagOffset := 1];
      assert mem == WithBlock(m0, left, limitAddr - left, true);
      blocks := Fused(bs, i, i + 1, true);
    }

    /** resizeRegion: a region already holding newSize bytes is returned as is; otherwise
        the block absorbs a free successor when the two together (counted with the source's
        literal 16) reach newSize, and is split to exactly align8(newSize) usable bytes when
        the excess allows, or 0 is returned. The region never moves. */
    method ResizeRegion(r: int, newSize: nat) returns (q: int)
      requires Valid()
      requires r == 0 ==> newSize == 0
      requires r != 0 ==> IsBlockStart(blocks, RegionToPrefix(r))
      modifies this`mem, this`blocks
      ensures Valid()
      ensures r == 0 ==> q == 0 && blocks == old(blocks)
      ensures r != 0 ==>
        var (bs1, ok) := Resized(old(blocks), IndexOf(old(blocks), RegionToPrefix(r)), newSize);
        blocks == bs1 && q == (if ok then r else 0)
      ensures q != 0 ==>
        && IsBlockStart(blocks, RegionToPrefix(q))
        && blocks[IndexOf(blocks, RegionToPrefix(q))].Usable() >= newSize
      ensures old(FullyCoalesced(blocks)) ==> FullyCoalesced(blocks)
    {
      var asize := Align8(newSize);
      if r == 0 {
        return r;
      }
      ghost var bs0 := blocks;
      var current := RegionToPrefix(r);
      ghost var i := IndexOf(bs0, current);
      Navigation(mem, arenaBegin, arenaEnd, bs0, i);
      RegionRoundTrip(current, r);
      var oldSize := UsableSpace(mem, current);
      if oldSize >= newSize {
        return r;
      }
      current := AbsorbNext(current, oldSize, newSize);
      ghost var bs1 := blocks;
      Navigation(mem, arenaBegin, arenaEnd, bs1, i);
      var foundSize := UsableSpace(mem, current);
      if foundSize >= asize + PrefixSize + SuffixSize + 8 {
        SplitBlock(current, asize);
        IndexOfStart(blocks, arenaBegin, arenaEnd, i);
        SetAllocated(current, true);
        q := PrefixToRegion(current);
        IndexOfStart(blocks, arenaBegin, arenaEnd, i);
      } else {
        q := 0;
      }
      ResizedShape(bs0, arenaBegin, arenaEnd, i, newSize);
      if FullyCoalesced(bs0) {
        ResizedKeepsCoalesced(bs0, arenaBegin, arenaEnd, i, newSize);
      }
    }

    /** Lines of resizeRegion: the block at current, of oldSize usable bytes, absorbs its
        successor when that is free and the two together (counted with the literal 16)
        reach newSize. */
    method AbsorbNext(current: int, oldSize: int, newSize: nat) returns (p: int)
      requires Valid() && IsBlockStart(blocks, current)
      requires oldSize == blocks[IndexOf(blocks, current)].Usable()
      modifies this`mem, this`blocks
      ensures Valid() && p == current
      ensures var i := IndexOf(old(blocks), current);
        && blocks == (if AbsorbsNext(old(blocks), i, newSize) then Fused(old(blocks), i, i + 1, true) else old(blocks))
        && IsBlockStart(blocks, current) && IndexOf(blocks, current) == i
    {
      ghost var bs0 := blocks;
      ghost var i := IndexOf(bs0, current);
      p := current;
      Navigation(mem, arenaBegin, arenaEnd, bs0, i);
      var next := GetNextPrefix(mem, arenaEnd, current);
      if next != 0 {
        Navigation(mem, arenaBegin, arenaEnd, bs0, i + 1);
        var combinedSizes := UsableSpace(mem, next) + oldSize + 16;
        if IsFree(mem, next) && combinedSizes >= newSize {
          p := Combine(current, next);
          FusedTiles(bs0, arenaBegin, arenaEnd, i, i + 1, true);
        }
      }
      IndexOfStart(blocks, arenaBegin, arenaEnd, i);
    }

    /** growArena: asks sbrk (which returns brk) for max(s + overhead, DEFAULT_BRKSIZE)
        bytes and turns them into a free block at the end of the arena. */
    method GrowArena(s: nat, brk: int) returns (p: int)
      requires Valid() && brk + GrowthRequest(s) < AddressTop
      modifies this`mem, this`blocks, this`arenaEnd
      ensures Valid()
      ensures var g := Growth(old(blocks), old(arenaEnd), s, !growingDisabled, brk);
        blocks == g.blocks && arenaEnd == g.end && p == Chosen(g) && (g.found.None? ==> mem == old(mem))
    {
      if growingDisabled {
        return 0;
      }
      var size := s + PrefixSize + SuffixSize;
      if size < DefaultBrkSize {
        size := DefaultBrkSize;
      }
      var n := brk;
      if n == 0 || n != arenaEnd {
        return 0;
      }
      ghost var bs0 := blocks;
      assert GrowthRequest(s) == size;
      GrowWrite(mem, arenaBegin, n, bs0, size);
      GrowthAppends(bs0, arenaBegin, n, s, !growingDisabled);
      ghost var g := Growth(bs0, n, s, !growingDisabled, brk);
      arenaEnd := n + size;
      p := MakeFreeBlock(n, size);
      blocks := bs0 + [Block(n, n + size, false)];
      p := CoalescePrev(p);
      assert blocks == g.blocks && arenaEnd == g.end && p == Chosen(g);
    }

    /** arenaCheck: walks the arena from the first header, checking that every header and
        footer lies in the arena and that each footer points back to its header, and sums
        the usable space of free and allocated blocks. */
    method ArenaCheck() returns (amtFree: int, amtAllocated: int, numBlocks: int)
      requires Valid()
      ensures amtFree == FreeSpace(blocks) && amtAllocated == AllocatedSpace(blocks)
      ensures numBlocks == |blocks|
      ensures amtFree + amtAllocated + numBlocks * Overhead == arenaEnd - arenaBegin
    {
      var p := arenaBegin;
      amtFree, amtAllocated, numBlocks := 0, 0, 0;
      ghost var k := 0;
      while p != 0
        invariant 0 <= k <= |blocks| && numBlocks == k
        invariant p != 0 ==> k < |blocks| && p == blocks[k].start
        invariant p == 0 ==> k == |blocks|
        invariant amtFree == FreeSpace(blocks[..k]) && amtAllocated == AllocatedSpace(blocks[..k])
        decreases |blocks| - k
      {
        Navigation(mem, arenaBegin, arenaEnd, blocks, k);
        assert PCheck(arenaBegin, arenaEnd, p);
        assert PCheck(arenaBegin, arenaEnd, mem[p]);
        assert mem[mem[p]] == p;
        assert blocks[..k + 1][..k] == blocks[..k];
        if !IsFree(mem, p) {
          amtAllocated := amtAllocated + UsableSpace(mem, p);
        } else {
          amtFree := amtFree + UsableSpace(mem, p);
        }
        numBlocks := numBlocks + 1;
        p := NextPrefixAddr(mem, p);
        k := k + 1;
        if k < |blocks| {
          TilesBounds(blocks, arenaBegin, arenaEnd, k);
        }
        if p == arenaEnd {
          break;
        } else {
          assert PCheck(arenaBegin, arenaEnd, p);
        }
      }
      assert blocks[..k] == blocks;
      if arenaBegin != 0 {
        Accounting(blocks, arenaBegin, arenaEnd);
      }
    }

    /** findFirstFit: the lowest-address free block with at least s usable bytes; when
        there is none, the result of growArena. */
    method FindFirstFit(s: nat, brk: int) returns (p: int)
      requires Valid() && brk + GrowthRequest(s) < AddressTop
      modifies this`mem, this`blocks, this`arenaEnd
      ensures Valid()
      ensures var ob := Obtained(FirstFit(old(blocks), s), old(blocks), old(arenaEnd), s, !growingDisabled, brk);
        blocks == ob.blocks && arenaEnd == ob.end && p == Chosen(ob)
      ensures FirstFit(old(blocks), s).Some? ==> mem == old(mem)
    {
      p := arenaBegin;
      ghost var k := 0;
      while p != 0
        invariant 0 <= k <= |blocks|
        invariant p != 0 ==> k < |blocks| && p == blocks[k].start
        invariant p == 0 ==> k == |blocks|
        invariant FitFrom(blocks, s, k) == FirstFit(blocks, s)
        modifies {}
        decreases |blocks| - k
      {
        Navigation(mem, arenaBegin, arenaEnd, blocks, k);
        if IsFree(mem, p) && UsableSpace(mem, p) >= s {
          return p;
        }
        p := GetNextPrefix(mem, arenaEnd, p);
        k := k + 1;
      }
      p := GrowArena(s, brk);
    }

    /** findBestFit: scans the whole arena for the free block of least excess over s,
        stopping at an exact fit. The "no fit yet" tests compare a size_t with 0 by `< 0`,
        which never holds, so a fit-less scan returns arenaBegin and growArena is never
        called. */
    method FindBestFit(s: nat) returns (p: int)
      requires Valid()
      ensures arenaBegin == 0 ==> p == 0
      ensures arenaBegin != 0 ==> p == blocks[BestFitAsWritten(blocks, s)].start
    {
      p := arenaBegin;
      var currentBestFit := arenaBegin;
      var currentBestSizeDifference: nat := SizeMax;
      ghost var k := 0;
      while p != 0
        invariant 0 <= k <= |blocks|
        invariant p != 0 ==> k < |blocks| && p == blocks[k].start
        invariant p == 0 ==> k == |blocks|
        invariant BestScan(blocks, s, k, currentBestFit, currentBestSizeDifference, arenaBegin, SizeMax)
        decreases |blocks| - k
      {
        Navigation(mem, arenaBegin, arenaEnd, blocks, k);
        ghost var fit0, diff0 := currentBestFit, currentBestSizeDifference;
        var iteratedUsableSpace := UsableSpace(mem, p);
        if IsFree(mem, p) && iteratedUsableSpace >= s {
          var justFoundSizeDifference: nat := iteratedUsableSpace - s;
          if justFoundSizeDifference == 0 {
            ExactFitIsBest(blocks, s, k, |blocks|);
            return p;
          } else if currentBestSizeDifference < 0 {
            currentBestSizeDifference := justFoundSizeDifference;
            currentBestFit := p;
          } else if justFoundSizeDifference < currentBestSizeDifference {
            currentBestSizeDifference := justFoundSizeDifference;
            currentBestFit := p;
          }
        }
        BestScanStep(blocks, s, k, fit0, diff0, arenaBegin, SizeMax, currentBestFit, currentBestSizeDifference);
        p := GetNextPrefix(mem, arenaEnd, p);
        k := k + 1;
      }
      if currentBestSizeDifference < 0 {
        // the call to growArena: unreachable
        assert false;
      }
      p := currentBestFit;
    }

    /** findBestFit as evidently intended: the scan above, and growArena when no block
        fits. The scan returns a block that does not fit exactly when none fits, so testing
        the block it returned stands for the sentinel test the source meant to write. */
    method FindBestFitOrGrow(s: nat, brk: int) returns (p: int)
      requires Valid() && arenaBegin != 0 && brk + GrowthRequest(s) < AddressTop
      modifies this`mem, this`blocks, this`arenaEnd
      ensures Valid()
      ensures var ob := Obtained(BestFit(old(blocks), s), old(blocks), old(arenaEnd), s, !growingDisabled, brk);
        blocks == ob.blocks && arenaEnd == ob.end && p == Chosen(ob)
      ensures BestFit(old(blocks), s).Some? ==> mem == old(mem)
    {
      ghost var bs := blocks;
      BestFitUpToSpec(bs, s, |bs|);
      p := FindBestFit(s);
      Navigation(mem, arenaBegin, arenaEnd, bs, BestFitAsWritten(bs, s));
      if !(IsFree(mem, p) && UsableSpace(mem, p) >= s) {
        p := GrowArena(s, brk);
      }
    }

    /** findNextFit: scans forward from nextFitTracker for a free block with at least s
        usable bytes and moves the tracker there. The wrap-around branch tests a flag that
        is still false, so the scan never returns to arenaBegin: it is defined only when
        such a block lies at or after the tracker. */
    method FindNextFit(s: nat) returns (p: int)
      requires Valid() && IsBlockStart(blocks, nextFitTracker)
      requires FitFrom(blocks, s, IndexOf(blocks, nextFitTracker)).Some?
      modifies this`nextFitTracker
      ensures var i := FitFrom(blocks, s, IndexOf(blocks, old(nextFitTracker))).value;
        p == blocks[i].start && nextFitTracker == p
    {
      var hasMadeCycle := false;
      p := nextFitTracker;
      ghost var k0 := IndexOf(blocks, p);
      ghost var k := k0;
      while !hasMadeCycle
        invariant !hasMadeCycle && nextFitTracker == old(nextFitTracker)
        invariant k0 <= k < |blocks| && p == blocks[k].start
        invariant FitFrom(blocks, s, k) == FitFrom(blocks, s, k0)
        decreases |blocks| - k
      {
        Navigation(mem, arenaBegin, arenaEnd, blocks, k);
        if IsFree(mem, p) && UsableSpace(mem, p) >= s {
          nextFitTracker := p;
          return p;
        }
        if hasMadeCycle && p == nextFitTracker {
          p := arenaBegin;
          hasMadeCycle := true;
        }
        p := GetNextPrefix(mem, arenaEnd, p);
        k := k + 1;
      }
      // the call to growArena after the loop: unreachable
      assert false;
    }

    /** findNextFit as evidently intended: scan from nextFitTracker to the end of the arena,
        wrap around to arenaBegin and scan up to the tracker, and call growArena when the
        scan is back at the tracker. A fitting block becomes the new tracker. */
    method FindNextFitWrapping(s: nat, brk: int) returns (p: int)
      requires Valid() && IsBlockStart(blocks, nextFitTracker) && brk + GrowthRequest(s) < AddressTop
      modifies this`mem, this`blocks, this`arenaEnd, this`nextFitTracker
      ensures Valid()
      ensures var f := NextFit(old(blocks), s, IndexOf(old(blocks), old(nextFitTracker)));
        var ob := Obtained(f, old(blocks), old(arenaEnd), s, !growingDisabled, brk);
        && blocks == ob.blocks && arenaEnd == ob.end && p == Chosen(ob)
        && nextFitTracker == (if f.Some? then p else old(nextFitTracker))
    {
      var hasMadeCycle := false;
      p := nextFitTracker;
      ghost var k0 := IndexOf(blocks, p);
      ghost var k := k0;
      ghost var wrapped := false;
      NextFitSpec(blocks, s, k0);
      while !hasMadeCycle
        invariant nextFitTracker == old(nextFitTracker) == blocks[k0].start
        invariant !hasMadeCycle ==> 0 <= k < |blocks| && p == blocks[k].start
        invariant !hasMadeCycle && !wrapped ==> k0 <= k && forall j :: k0 <= j < k ==> !Fits(blocks[j], s)
        invariant !hasMadeCycle && wrapped ==>
          && k < k0 && (forall j :: k0 <= j < |blocks| ==> !Fits(blocks[j], s))
          && forall j :: 0 <= j < k ==> !Fits(blocks[j], s)
        invariant hasMadeCycle ==> forall j :: 0 <= j < |blocks| ==> !Fits(blocks[j], s)
        modifies this`nextFitTracker
        decreases if hasMadeCycle then 0 else if wrapped then k0 - k + 1 else |blocks| - k + k0 + 2
      {
        Navigation(mem, arenaBegin, arenaEnd, blocks, k);
        if IsFree(mem, p) && UsableSpace(mem, p) >= s {
          nextFitTracker := p;
          return p;
        }
        p := GetNextPrefix(mem, arenaEnd, p);
        if p == 0 {
          p, k, wrapped := arenaBegin, 0, true;
        } else {
          k := k + 1;
        }
        if p == nextFitTracker {
          StartsDistinct(blocks, arenaBegin, arenaEnd, k, k0);
          hasMadeCycle := true;
        }
      }
      p := GrowArena(s, brk);
    }

    /** The block list an *AllocRegion function searches, its arena end and the next-fit
        tracker: the current ones, or those initializeArena sets up at brk. */
    ghost function Searched(brk: int): seq<Block>
      reads this
    {
      if arenaBegin == 0 then FreshArena(brk) else blocks
    }

    ghost function SearchedEnd(brk: int): int
      reads this
    {
      if arenaBegin == 0 then brk + DefaultBrkSize else arenaEnd
    }

    ghost function SearchedTracker(brk: int): int
      reads this
    {
      if arenaBegin == 0 then brk else nextFitTracker
    }

    /** firstFitAllocRegion: initialises the arena if need be, takes the first fit (growing
        the arena when nothing fits), splits and marks it; 0 when no block was obtained. */
    method FirstFitAllocRegion(s: nat, initBrk: int, growBrk: int) returns (r: int)
      requires Valid()
      requires arenaBegin == 0 ==> 0 < initBrk && initBrk + DefaultBrkSize < AddressTop
      requires growBrk + GrowthRequest(s) < AddressTop
      modifies this`mem, this`arenaBegin, this`arenaEnd, this`nextFitTracker, this`blocks
      ensures Valid()
      ensures nextFitTracker == old(SearchedTracker(initBrk))
      ensures old(arenaBegin == 0 || IsBlockStart(blocks, nextFitTracker)) ==> IsBlockStart(blocks, nextFitTracker)
      ensures var bs0 := old(Searched(initBrk));
        var ob := Obtained(FirstFit(bs0, s), bs0, old(SearchedEnd(initBrk)), s, !growingDisabled, growBrk);
        && arenaEnd == ob.end
        && if ob.found.Some? then r == PrefixToRegion(Chosen(ob)) && blocks == Placed(ob.blocks, ob.found.value, Align8(s))
           else r == 0 && blocks == ob.blocks
      ensures r != 0 ==>
        && IsBlockStart(blocks, RegionToPrefix(r))
        && blocks[IndexOf(blocks, RegionToPrefix(r))].isAllocated
        && blocks[IndexOf(blocks, RegionToPrefix(r))].Usable() >= s
      ensures old(FullyCoalesced(blocks)) ==> FullyCoalesced(blocks)
    {
      if arenaBegin == 0 {
        InitializeArena(initBrk);
        assert blocks[0].start == nextFitTracker;
      }
      ghost var bs0, end0 := blocks, arenaEnd;
      assert bs0 == old(Searched(initBrk)) && end0 == old(SearchedEnd(initBrk));
      ghost var choice := FirstFit(bs0, s);
      ghost var ob := Obtained(choice, bs0, end0, s, !growingDisabled, growBrk);
      ObtainedFits(choice, bs0, arenaBegin, end0, s, !growingDisabled, growBrk);
      if IsBlockStart(bs0, nextFitTracker) {
        ObtainedKeepsStarts(choice, bs0, arenaBegin, end0, s, !growingDisabled, growBrk, nextFitTracker);
      }
      var p := FindFirstFit(s, growBrk);
      r := PlaceFound(p, s, ob.blocks, ob.found);
    }

    /** bestFitAllocRegion as written: places whatever findBestFit returns. The arena never
        grows, and when nothing fits the block at arenaBegin is split and marked allocated
        whether or not it was free or large enough. */
    method BestFitAllocRegion(s: nat, initBrk: int) returns (r: int)
      requires Valid()
      requires arenaBegin == 0 ==> 0 < initBrk && initBrk + DefaultBrkSize < AddressTop
      modifies this`mem, this`arenaBegin, this`arenaEnd, this`nextFitTracker, this`blocks
      ensures Valid()
      ensures nextFitTracker == old(SearchedTracker(initBrk))
      ensures old(arenaBegin == 0 || IsBlockStart(blocks, nextFitTracker)) ==> IsBlockStart(blocks, nextFitTracker)
      ensures var bs0 := old(Searched(initBrk));
        var i := BestFitAsWritten(bs0, s);
        && arenaEnd == old(SearchedEnd(initBrk))
        && r == PrefixToRegion(bs0[i].start) && blocks == Placed(bs0, i, Align8(s))
      ensures r != 0 && IsBlockStart(blocks, RegionToPrefix(r))
      ensures blocks[IndexOf(blocks, RegionToPrefix(r))].isAllocated
      ensures BestFit(old(Searched(initBrk)), s).Some? ==>
        && blocks[IndexOf(blocks, RegionToPrefix(r))].Usable() >= s
        && (old(FullyCoalesced(blocks)) ==> FullyCoalesced(blocks))
    {
      if arenaBegin == 0 {
        InitializeArena(initBrk);
        assert blocks[0].start == nextFitTracker;
      }
      ghost var bs0 := blocks;
      assert bs0 == old(Searched(initBrk)) && arenaEnd == old(SearchedEnd(initBrk));
      ghost var i := BestFitAsWritten(bs0, s);
      BestFitAsWrittenFits(bs0, s);
      TilesBounds(bs0, arenaBegin, arenaEnd, i);
      if IsBlockStart(bs0, nextFitTracker) {
        PlacedKeepsStarts(bs0, i, Align8(s), nextFitTracker);
      }
      var p := FindBestFit(s);
      if p != 0 {
        r := PlaceAt(p, s, i);
      } else {
        assert false;
      }
    }

    /** bestFitAllocRegion with the search of FindBestFitOrGrow: like FirstFitAllocRegion
        but taking the fitting block of least excess. */
    method BestFitOrGrowAllocRegion(s: nat, initBrk: int, growBrk: int) returns (r: int)
      requires Valid()
      requires arenaBegin == 0 ==> 0 < initBrk && initBrk + DefaultBrkSize < AddressTop
      requires growBrk + GrowthRequest(s) < AddressTop
      modifies this`mem, this`arenaBegin, this`arenaEnd, this`nextFitTracker, this`blocks
      ensures Valid()
      ensures nextFitTracker == old(SearchedTracker(initBrk))
      ensures old(arenaBegin == 0 || IsBlockStart(blocks, nextFitTracker)) ==> IsBlockStart(blocks, nextFitTracker)
      ensures var bs0 := old(Searched(initBrk));
        var ob := Obtained(BestFit(bs0, s), bs0, old(SearchedEnd(initBrk)), s, !growingDisabled, growBrk);
        && arenaEnd == ob.end
        && if ob.found.Some? then r == PrefixToRegion(Chosen(ob)) && blocks == Placed(ob.blocks, ob.found.value, Align8(s))
           else r == 0 && blocks == ob.blocks
      ensures r != 0 ==>
        && IsBlockStart(blocks, RegionToPrefix(r))
        && blocks[IndexOf(blocks, RegionToPrefix(r))].isAllocated
        && blocks[IndexOf(blocks, RegionToPrefix(r))].Usable() >= s
      ensures old(FullyCoalesced(blocks)) ==> FullyCoalesced(blocks)
    {
      if arenaBegin == 0 {
        InitializeArena(initBrk);
        assert blocks[0].start == nextFitTracker;
      }
      ghost var bs0, end0 := blocks, arenaEnd;
      assert bs0 == old(Searched(initBrk)) && end0 == old(SearchedEnd(initBrk));
      ghost var choice := BestFit(bs0, s);
      ghost var ob := Obtained(choice, bs0, end0, s, !growingDisabled, growBrk);
      ObtainedFits(choice, bs0, arenaBegin, end0, s, !growingDisabled, growBrk);
      if IsBlockStart(bs0, nextFitTracker) {
        ObtainedKeepsStarts(choice, bs0, arenaBegin, end0, s, !growingDisabled, growBrk, nextFitTracker);
      }
      var p := FindBestFitOrGrow(s, growBrk);
      r := PlaceFound(p, s, ob.blocks, ob.found);
    }

    /** nextFitAllocRegion as written: takes the block findNextFit returns, which exists
        only when a block at or after the tracker fits (see FindNextFit). */
    method NextFitAllocRegion(s: nat, initBrk: int) returns (r: int)
      requires Valid()
      requires arenaBegin == 0 ==> 0 < initBrk && initBrk + DefaultBrkSize < AddressTop && s <= DefaultBrkSize - Overhead
      requires arenaBegin != 0 ==>
        IsBlockStart(blocks, nextFitTracker) && FitFrom(blocks, s, IndexOf(blocks, nextFitTracker)).Some?
      modifies this`mem, this`arenaBegin, this`arenaEnd, this`nextFitTracker, this`blocks
      ensures Valid()
      ensures var bs0 := old(Searched(initBrk));
        var i := FitFrom(bs0, s, IndexOf(bs0, old(SearchedTracker(initBrk)))).value;
        && arenaEnd == old(SearchedEnd(initBrk)) && nextFitTracker == bs0[i].start
        && r == PrefixToRegion(bs0[i].start) && blocks == Placed(bs0, i, Align8(s))
      ensures r != 0 && IsBlockStart(blocks, RegionToPrefix(r)) && RegionToPrefix(r) == nextFitTracker
      ensures blocks[IndexOf(blocks, nextFitTracker)].isAllocated
      ensures blocks[IndexOf(blocks, nextFitTracker)].Usable() >= s
      ensures old(FullyCoalesced(blocks)) ==> FullyCoalesced(blocks)
    {
      if arenaBegin == 0 {
        InitializeArena(initBrk);
        IndexOfStart(blocks, arenaBegin, arenaEnd, 0);
      }
      ghost var bs0 := blocks;
      assert bs0 == old(Searched(initBrk)) && arenaEnd == old(SearchedEnd(initBrk));
      assert nextFitTracker == old(SearchedTracker(initBrk));
      ghost var i := FitFrom(bs0, s, IndexOf(bs0, nextFitTracker)).value;
      TilesBounds(bs0, arenaBegin, arenaEnd, i);
      var p := FindNextFit(s);
      if p != 0 {
        r := PlaceAt(p, s, i);
      } else {
        assert false;
      }
    }

    /** nextFitAllocRegion with the search of FindNextFitWrapping: like FirstFitAllocRegion
        but scanning cyclically from nextFitTracker, which moves to the block found.
        Allocation keeps the tracker at a block header. */
    method WrappingNextFitAllocRegion(s: nat, initBrk: int, growBrk: int) returns (r: int)
      requires Valid()
      requires arenaBegin == 0 ==> 0 < initBrk && initBrk + DefaultBrkSize < AddressTop
      requires arenaBegin != 0 ==> IsBlockStart(blocks, nextFitTracker)
      requires growBrk + GrowthRequest(s) < AddressTop
      modifies this`mem, this`arenaBegin, this`arenaEnd, this`nextFitTracker, this`blocks
      ensures Valid()
      ensures var bs0 := old(Searched(initBrk));
        var t0 := old(SearchedTracker(initBrk));
        var f := NextFit(bs0, s, IndexOf(bs0, t0));
        var ob := Obtained(f, bs0, old(SearchedEnd(initBrk)), s, !growingDisabled, growBrk);
        && arenaEnd == ob.end
        && nextFitTracker == (if f.Some? then Chosen(ob) else t0)
        && if ob.found.Some? then r == PrefixToRegion(Chosen(ob)) && blocks == Placed(ob.blocks, ob.found.value, Align8(s))
           else r == 0 && blocks == ob.blocks
      ensures IsBlockStart(blocks, nextFitTracker)
      ensures r != 0 ==>
        && IsBlockStart(blocks, RegionToPrefix(r))
        && blocks[IndexOf(blocks, RegionToPrefix(r))].isAllocated
        && blocks[IndexOf(blocks, RegionToPrefix(r))].Usable() >= s
      ensures old(FullyCoalesced(blocks)) ==> FullyCoalesced(blocks)
    {
      if arenaBegin == 0 {
        InitializeArena(initBrk);
        assert blocks[0].start == nextFitTracker;
      }
      ghost var bs0, end0, t0 := blocks, arenaEnd, nextFitTracker;
      assert bs0 == old(Searched(initBrk)) && end0 == old(SearchedEnd(initBrk));
      assert t0 == old(SearchedTracker(initBrk));
      ghost var choice := NextFit(bs0, s, IndexOf(bs0, t0));
      ghost var ob := Obtained(choice, bs0, end0, s, !growingDisabled, growBrk);
      ObtainedFits(choice, bs0, arenaBegin, end0, s, !growingDisabled, growBrk);
      ObtainedKeepsStarts(choice, bs0, arenaBegin, end0, s, !growingDisabled, growBrk, t0);
      var p := FindNextFitWrapping(s, growBrk);
      r := PlaceFound(p, s, ob.blocks, ob.found);
    }
  }
}
