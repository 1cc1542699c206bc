/** The block rewrites of myAllocator.c, stated over the block list of the arena:
    marking, splitting on allocation, coalescing on release, growth, and the
    in-place growth of resizeRegion. The methods of MyAllocator.Allocator are
    proved to rewrite the arena exactly as these functions say. */
module BlockOps {
  import opened BlockModel

  /** p->allocated = a on block i. */
  function Marked(bs: seq<Block>, i: nat, a: bool): seq<Block>
    requires i < |bs|
  {
    bs[i := bs[i].(isAllocated := a)]
  }

  /** Blocks lo..hi become one block with flag a (makeFreeBlock or combine over their span). */
  function Fused(bs: seq<Block>, lo: nat, hi: nat, a: bool): seq<Block>
    requires lo <= hi < |bs|
  {
    bs[..lo] + [Block(bs[lo].start, bs[hi].end, a)] + bs[hi + 1..]
  }

  /** The split test of the three *AllocRegion functions and of resizeRegion. */
  predicate CanSplit(b: Block, asize: nat)
  {
    b.Usable() >= asize + PrefixSize + SuffixSize + SplitSlack
  }

  /** The two makeFreeBlock calls of a split: a front block of exactly asize usable
      bytes and a free remainder, both left free. */
  function SplitAt(bs: seq<Block>, i: nat, asize: nat): seq<Block>
    requires i < |bs| && CanSplit(bs[i], asize)
  {
    var cut := bs[i].start + PrefixSize + SuffixSize + asize;
    bs[..i] + [Block(bs[i].start, cut, false), Block(cut, bs[i].end, false)] + bs[i + 1..]
  }

  /** What an *AllocRegion function does to the block it found: split when the excess
      allows, then mark the front allocated. */
  function Placed(bs: seq<Block>, i: nat, asize: nat): seq<Block>
    requires i < |bs|
  {
    if CanSplit(bs[i], asize) then Marked(SplitAt(bs, i, asize), i, true) else Marked(bs, i, true)
  }

  /** coalescePrev on block i: the new list and the index of the block now holding bs[i]. */
  function MergedWithPrev(bs: seq<Block>, i: nat): (seq<Block>, nat)
    requires i < |bs|
  {
    if i > 0 && !bs[i].isAllocated && !bs[i - 1].isAllocated then (Fused(bs, i - 1, i, false), i - 1)
    else (bs, i)
  }

  /** coalesce: with the predecessor first, then the successor of the result. */
  function Coalesced(bs: seq<Block>, i: nat): seq<Block>
    requires i < |bs|
  {
    var (bs1, j) := MergedWithPrev(bs, i);
    if j + 1 < |bs1| then MergedWithPrev(bs1, j + 1).0 else bs1
  }

  /** freeRegion on block i. */
  function Released(bs: seq<Block>, i: nat): seq<Block>
    requires i < |bs|
  {
    Coalesced(Marked(bs, i, false), i)
  }

  /** The number of bytes growArena asks sbrk for. */
  function GrowthRequest(s: nat): (n: nat)
    ensures n >= s + Overhead && n >= DefaultBrkSize
    ensures n == s + Overhead || n == DefaultBrkSize
  {
    if s + Overhead < DefaultBrkSize then DefaultBrkSize else s + Overhead
  }

  /** growArena after sbrk succeeded at `at`: a free block appended, coalesced with its predecessor. */
  function Grown(bs: seq<Block>, at: int, size: int): (seq<Block>, nat)
  {
    MergedWithPrev(bs + [Block(at, at + size, false)], |bs|)
  }

  /** resizeRegion's test for merging block i with its successor, literal 16 included. */
  predicate AbsorbsNext(bs: seq<Block>, i: nat, n: nat)
    requires i < |bs|
  {
    i + 1 < |bs| && !bs[i + 1].isAllocated && bs[i + 1].Usable() + bs[i].Usable() + 16 >= n
  }

  /** resizeRegion on block i: the new list, and whether the region is handed back (true)
      or 0 is returned (false). */
  function Resized(bs: seq<Block>, i: nat, n: nat): (seq<Block>, bool)
    requires i < |bs|
  {
    if bs[i].Usable() >= n then (bs, true)
    else
      var bs1 := if AbsorbsNext(bs, i, n) then Fused(bs, i, i + 1, true) else bs;
      if CanSplit(bs1[i], Align8(n)) then (Marked(SplitAt(bs1, i, Align8(n)), i, true), true)
      else (bs1, false)
  }

  /** No free block has a free neighbour. */
  ghost predicate FullyCoalesced(bs: seq<Block>)
  {
    forall k :: 0 < k < |bs| ==> bs[k - 1].isAllocated || bs[k].isAllocated
  }

  // ---------------------------------------------------------------- tiling

  lemma MarkedTiles(bs: seq<Block>, begin: int, end: int, i: nat, a: bool)
    requires Tiles(bs, begin, end) && i < |bs|
    ensures Tiles(Marked(bs, i, a), begin, end)
  {
    TilesBounds(bs, begin, end, i);
    assert Marked(bs, i, a) == bs[..i] + [bs[i].(isAllocated := a)] + bs[i + 1..];
    TilesReplace(bs, begin, end, i, i, [bs[i].(isAllocated := a)]);
  }

  lemma FusedTiles(bs: seq<Block>, begin: int, end: int, lo: nat, hi: nat, a: bool)
    requires Tiles(bs, begin, end) && lo <= hi < |bs|
    ensures Tiles(Fused(bs, lo, hi, a), begin, end)
  {
    if lo < hi { TilesOrdered(bs, begin, end, lo, hi); }
    TilesBounds(bs, begin, end, lo);
    TilesBounds(bs, begin, end, hi);
    TilesReplace(bs, begin, end, lo, hi, [Block(bs[lo].start, bs[hi].end, a)]);
  }

  lemma SplitAtTiles(bs: seq<Block>, begin: int, end: int, i: nat, asize: nat)
    requires Tiles(bs, begin, end) && i < |bs| && CanSplit(bs[i], asize)
    ensures Tiles(SplitAt(bs, i, asize), begin, end)
  {
    var cut := bs[i].start + PrefixSize + SuffixSize + asize;
    var nw := [Block(bs[i].start, cut, false), Block(cut, bs[i].end, false)];
    assert nw[1..] == [Block(cut, bs[i].end, false)];
    TilesReplace(bs, begin, end, i, i, nw);
  }

  // ---------------------------------------------------------------- coalescing

  /** coalescePrev merges only when both blocks are free; the merged block spans from the
      predecessor's start to p's end, gains the absorbed tags as usable space, and is
      returned; otherwise nothing changes and p is returned. */
  lemma MergedWithPrevSpec(bs: seq<Block>, begin: int, end: int, i: nat)
    requires Tiles(bs, begin, end) && i < |bs|
    ensures var (r, j) := MergedWithPrev(bs, i);
      && Tiles(r, begin, end)
      && if i > 0 && !bs[i].isAllocated && !bs[i - 1].isAllocated then
           && j == i - 1 && |r| == |bs| - 1
           && r[j] == Block(bs[i - 1].start, bs[i].end, false)
           && r[j].Usable() == bs[i - 1].Usable() + bs[i].Usable() + PrefixSize + SuffixSize
           && r[..j] == bs[..j] && r[j + 1..] == bs[i + 1..]
         else r == bs && j == i
  {
    if i > 0 && !bs[i].isAllocated && !bs[i - 1].isAllocated {
      TilesBounds(bs, begin, end, i - 1);
      FusedTiles(bs, begin, end, i - 1, i, false);
      var r := Fused(bs, i - 1, i, false);
      assert r[..i - 1] == bs[..i - 1];
      assert r[i..] == bs[i + 1..];
    }
  }

  /** Which neighbours freeRegion absorbs into block i. */
  function ReleaseLow(bs: seq<Block>, i: nat): nat
    requires i < |bs|
  {
    if i > 0 && !bs[i - 1].isAllocated then i - 1 else i
  }

  function ReleaseHigh(bs: seq<Block>, i: nat): nat
    requires i < |bs|
  {
    if i + 1 < |bs| && !bs[i + 1].isAllocated then i + 1 else i
  }

  /** freeRegion replaces block i and its free neighbours by one free block. */
  lemma ReleasedShape(bs: seq<Block>, i: nat)
    requires i < |bs|
    ensures Released(bs, i) == Fused(bs, ReleaseLow(bs, i), ReleaseHigh(bs, i), false)
  {
    var m := Marked(bs, i, false);
    var (bs1, j) := MergedWithPrev(m, i);
    var lo, hi := ReleaseLow(bs, i), ReleaseHigh(bs, i);
    assert bs1 == Fused(bs, lo, i, false) && j == lo;
    if j + 1 < |bs1| {
      if hi == i + 1 {
        var bs2 := Fused(bs1, j, j + 1, false);
        assert MergedWithPrev(bs1, j + 1).0 == bs2;
        assert bs2 == Fused(bs, lo, hi, false);
      }
    }
  }

  /** After freeRegion, no free block has a free neighbour, provided that held before. */
  lemma ReleasedKeepsCoalesced(bs: seq<Block>, i: nat)
    requires i < |bs| && FullyCoalesced(bs)
    ensures FullyCoalesced(Released(bs, i))
  {
    ReleasedShape(bs, i);
    var lo, hi := ReleaseLow(bs, i), ReleaseHigh(bs, i);
    var r := Fused(bs, lo, hi, false);
    forall k | 0 < k < |r|
      ensures r[k - 1].isAllocated || r[k].isAllocated
    {
      if k == lo {
        assert r[k - 1] == bs[lo - 1];
      } else if k == lo + 1 {
        assert r[k] == bs[hi + 1];
      } else if k < lo {
        assert r[k - 1] == bs[k - 1] && r[k] == bs[k];
      } else {
        assert r[k - 1] == bs[k - 1 + hi - lo] && r[k] == bs[k + hi - lo];
      }
    }
  }

  /** freeRegion touches no allocated block but the one released. */
  lemma ReleasedKeepsAllocated(bs: seq<Block>, i: nat, k: nat)
    requires i < |bs| && k < |bs| && k != i && bs[k].isAllocated
    ensures bs[k] in Released(bs, i)
  {
    ReleasedShape(bs, i);
    var lo, hi := ReleaseLow(bs, i), ReleaseHigh(bs, i);
    var r := Fused(bs, lo, hi, false);
    if k < lo {
      assert r[k] == bs[k];
    } else {
      assert r[k - (hi - lo)] == bs[k];
    }
  }

  /** The released block ends up free, inside a free block at least as large. */
  lemma ReleasedFreesBlock(bs: seq<Block>, begin: int, end: int, i: nat)
    requires Tiles(bs, begin, end) && i < |bs|
    ensures var r := Released(bs, i);
      exists k :: 0 <= k < |r| && !r[k].isAllocated && r[k].start <= bs[i].start && bs[i].end <= r[k].end
               && r[k].Usable() >= bs[i].Usable()
  {
    ReleasedShape(bs, i);
    var lo, hi := ReleaseLow(bs, i), ReleaseHigh(bs, i);
    var r := Fused(bs, lo, hi, false);
    if lo < i { TilesOrdered(bs, begin, end, lo, i); }
    if i < hi { TilesOrdered(bs, begin, end, i, hi); }
    TilesBounds(bs, begin, end, lo);
    TilesBounds(bs, begin, end, hi);
    assert r[lo] == Block(bs[lo].start, bs[hi].end, false);
  }

  // ---------------------------------------------------------------- placement

  /** The split of an *AllocRegion function: the allocated front keeps the header address
      and has exactly asize usable bytes; the free remainder has the rest less one pair of
      tags, at least 8 bytes; together they span exactly the original block. Without a
      split the whole block is handed out. */
  lemma PlacedShape(bs: seq<Block>, i: nat, asize: nat)
    requires i < |bs|
    ensures var r := Placed(bs, i, asize);
      && r[..i] == bs[..i]
      && r[i].start == bs[i].start && r[i].isAllocated
      && if CanSplit(bs[i], asize) then
           && |r| == |bs| + 1
           && r[i].Usable() == asize && !r[i + 1].isAllocated
           && r[i].end == r[i + 1].start && r[i + 1].end == bs[i].end
           && r[i + 1].Usable() == bs[i].Usable() - asize - PrefixSize - SuffixSize >= SplitSlack
           && r[i + 2..] == bs[i + 1..]
         else
           && |r| == |bs| && r[i].end == bs[i].end && r[i + 1..] == bs[i + 1..]
  {
    if CanSplit(bs[i], asize) {
      var r := Placed(bs, i, asize);
      assert r[i + 2..] == bs[i + 1..];
    }
  }

  /** An *AllocRegion function hands out a block of at least the requested size. */
  lemma PlacedAllocates(bs: seq<Block>, i: nat, s: nat)
    requires i < |bs| && bs[i].Usable() >= s
    ensures var r := Placed(bs, i, Align8(s));
      i < |r| && r[i].start == bs[i].start && r[i].isAllocated && r[i].Usable() >= s
  {
    PlacedShape(bs, i, Align8(s));
  }

  lemma PlacedTiles(bs: seq<Block>, begin: int, end: int, i: nat, asize: nat)
    requires Tiles(bs, begin, end) && i < |bs|
    ensures Tiles(Placed(bs, i, asize), begin, end)
  {
    if CanSplit(bs[i], asize) {
      SplitAtTiles(bs, begin, end, i, asize);
      MarkedTiles(SplitAt(bs, i, asize), begin, end, i, true);
    } else {
      MarkedTiles(bs, begin, end, i, true);
    }
  }

  /** Allocating from a free block keeps every free block between allocated ones. */
  lemma PlacedKeepsCoalesced(bs: seq<Block>, i: nat, asize: nat)
    requires i < |bs| && FullyCoalesced(bs) && !bs[i].isAllocated
    ensures FullyCoalesced(Placed(bs, i, asize))
  {
    var r := Placed(bs, i, asize);
    PlacedShape(bs, i, asize);
    if CanSplit(bs[i], asize) {
      forall k | 0 < k < |r|
        ensures r[k - 1].isAllocated || r[k].isAllocated
      {
        if k < i {
          assert r[k - 1] == bs[k - 1] && r[k] == bs[k];
        } else if k == i + 2 {
          assert r[k] == bs[i + 1];
        } else if k > i + 2 {
          assert r[k - 1] == bs[k - 2] && r[k] == bs[k - 1];
        }
      }
    }
  }

  /** Allocation keeps every header a header: the split only adds one. */
  lemma PlacedKeepsStarts(bs: seq<Block>, i: nat, asize: nat, t: int)
    requires i < |bs| && IsBlockStart(bs, t)
    ensures IsBlockStart(Placed(bs, i, asize), t)
  {
    PlacedShape(bs, i, asize);
    var r := Placed(bs, i, asize);
    var k :| 0 <= k < |bs| && bs[k].start == t;
    if k < i {
      assert r[..i][k] == bs[..i][k];
      assert r[k].start == t;
    } else if k == i {
      assert r[i].start == t;
    } else if CanSplit(bs[i], asize) {
      assert r[i + 2..][k - i - 1] == bs[i + 1..][k - i - 1];
      assert r[k + 1].start == t;
    } else {
      assert r[i + 1..][k - i - 1] == bs[i + 1..][k - i - 1];
      assert r[k].start == t;
    }
  }

  // ---------------------------------------------------------------- growth

  /** growArena's new block is free, lies at the old arena end and reaches the new one;
      it has at least size - Overhead usable bytes and absorbed a free last block. */
  lemma GrownShape(bs: seq<Block>, begin: int, end: int, size: int)
    requires Tiles(bs, begin, end) && size >= Overhead
    ensures var (r, j) := Grown(bs, end, size);
      && Tiles(r, begin, end + size) && j == |r| - 1
      && !r[j].isAllocated && r[j].end == end + size && r[j].Usable() >= size - Overhead
      && r[j].start == (if bs[|bs| - 1].isAllocated then end else bs[|bs| - 1].start)
      && r[..j] == bs[..j]
  {
    var e := bs + [Block(end, end + size, false)];
    TilesBounds(bs, begin, end, |bs| - 1);
    assert Tiles(e, begin, end + size) by {
      TilesIff(bs, begin, end);
      TilesIff(e, begin, end + size);
    }
    MergedWithPrevSpec(e, begin, end + size, |bs|);
    assert e[..|bs|] == bs;
    assert e[..|bs| - 1] == bs[..|bs| - 1];
  }

  lemma GrownKeepsCoalesced(bs: seq<Block>, begin: int, end: int, size: int)
    requires Tiles(bs, begin, end) && size >= Overhead && FullyCoalesced(bs)
    ensures FullyCoalesced(Grown(bs, end, size).0)
  {
    GrownShape(bs, begin, end, size);
    var (r, j) := Grown(bs, end, size);
    forall k | 0 < k < |r|
      ensures r[k - 1].isAllocated || r[k].isAllocated
    {
      if k < j {
        assert r[..j][k - 1] == bs[..j][k - 1] && r[..j][k] == bs[..j][k];
      } else if bs[|bs| - 1].isAllocated {
        assert r[..j][k - 1] == bs[..j][k - 1];
      } else if k - 1 > 0 {
        assert r[..j][k - 1] == bs[..j][k - 1];
      }
    }
  }

  /** Growth keeps every header a header: the new block either follows the old last
      block or is absorbed by it. */
  lemma GrownKeepsStarts(bs: seq<Block>, begin: int, end: int, size: int, t: int)
    requires Tiles(bs, begin, end) && size >= Overhead && IsBlockStart(bs, t)
    ensures IsBlockStart(Grown(bs, end, size).0, t)
  {
    GrownShape(bs, begin, end, size);
    var (r, j) := Grown(bs, end, size);
    var k :| 0 <= k < |bs| && bs[k].start == t;
    if k < j {
      assert r[..j][k] == bs[..j][k];
      assert r[k].start == t;
    } else {
      assert r[j].start == t;
    }
  }

  // ---------------------------------------------------------------- resize

  /** resizeRegion: a region that is already large enough is returned unchanged; a
      successful growth keeps the header address, merged the free successor, leaves
      exactly align8(n) usable bytes and a free remainder up to the successor's old end,
      and so keeps the number of blocks; a failure returns 0, possibly after merging. */
  lemma ResizedShape(bs: seq<Block>, begin: int, end: int, i: nat, n: nat)
    requires Tiles(bs, begin, end) && i < |bs|
    ensures var (r, ok) := Resized(bs, i, n);
      && Tiles(r, begin, end)
      && (bs[i].Usable() >= n ==> ok && r == bs)
      && (bs[i].Usable() < n && ok ==>
            && AbsorbsNext(bs, i, n) && |r| == |bs|
            && r[i].start == bs[i].start && r[i].isAllocated && r[i].Usable() == Align8(n)
            && !r[i + 1].isAllocated && r[i + 1].Usable() >= SplitSlack && r[i + 1].end == bs[i + 1].end
            && r[..i] == bs[..i] && r[i + 2..] == bs[i + 2..])
      && (!ok ==> r == if AbsorbsNext(bs, i, n) then Fused(bs, i, i + 1, true) else bs)
  {
    if bs[i].Usable() < n {
      var asize := Align8(n);
      if AbsorbsNext(bs, i, n) {
        FusedTiles(bs, begin, end, i, i + 1, true);
        var bs1 := Fused(bs, i, i + 1, true);
        if CanSplit(bs1[i], asize) {
          SplitAtTiles(bs1, begin, end, i, asize);
          PlacedShape(bs1, i, asize);
          assert Placed(bs1, i, asize) == Marked(SplitAt(bs1, i, asize), i, true);
          MarkedTiles(SplitAt(bs1, i, asize), begin, end, i, true);
          assert bs1[..i] == bs[..i];
          assert bs1[i + 1..] == bs[i + 2..];
        }
      } else {
        assert !CanSplit(bs[i], asize);
      }
    }
  }

  /** resizeRegion keeps every free block between allocated ones. */
  lemma ResizedKeepsCoalesced(bs: seq<Block>, begin: int, end: int, i: nat, n: nat)
    requires Tiles(bs, begin, end) && i < |bs| && FullyCoalesced(bs)
    ensures FullyCoalesced(Resized(bs, i, n).0)
  {
    ResizedShape(bs, begin, end, i, n);
    var (r, ok) := Resized(bs, i, n);
    if bs[i].Usable() < n && AbsorbsNext(bs, i, n) {
      forall k | 0 < k < |r|
        ensures r[k - 1].isAllocated || r[k].isAllocated
      {
        if ok {
          if k < i {
            assert r[..i][k - 1] == bs[..i][k - 1] && r[..i][k] == bs[..i][k];
          } else if k == i + 2 {
            assert r[i + 2..][0] == bs[i + 2..][0];
            assert bs[i + 1].isAllocated == false;
          } else if k > i + 2 {
            assert r[i + 2..][k - 1 - (i + 2)] == bs[i + 2..][k - 1 - (i + 2)];
            assert r[i + 2..][k - (i + 2)] == bs[i + 2..][k - (i + 2)];
          }
        } else {
          if k < i {
            assert r[k - 1] == bs[k - 1] && r[k] == bs[k];
          } else if k > i + 1 {
            assert r[k - 1] == bs[k] && r[k] == bs[k + 1];
          }
        }
      }
    }
  }
}
