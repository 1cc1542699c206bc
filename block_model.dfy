/** The boundary-tag layout of myAllocator.c.

    Memory is a map from byte address to one 8-byte cell (LP64).  A block
    occupying [start, end) keeps three cells:
      - at start:               the address of its footer (BlockPrefix_t.suffix)
      - at start + FlagOffset:  its `allocated` flag, 0 or 1
      - at end - SuffixSize:    the address of its header (BlockSuffix_t.prefix)
    The blocks of the arena tile [arenaBegin, arenaEnd) in address order. */
module BlockModel {

  /** align8: the least multiple of 8 that is at least x. */
  function Align8(x: nat): (r: nat)
    ensures r % 8 == 0 && x <= r < x + 8
  {
    (x + 7) / 8 * 8
  }

  /** align8(sizeof(BlockPrefix_t)): a suffix pointer and an int flag, padded to 16 on LP64. */
  const PrefixSize := 16
  /** align8(sizeof(BlockSuffix_t)): one prefix pointer. */
  const SuffixSize := 8
  /** Offset of the `allocated` field inside BlockPrefix_t. */
  const FlagOffset := 8
  const Overhead := PrefixSize + SuffixSize
  /** The smallest usable space a split may leave in the free remainder. */
  const SplitSlack := 8
  const DefaultBrkSize := 0x100000
  /** One past the highest address of a 64-bit address space. */
  const AddressTop := 0x1_0000_0000_0000_0000

  type Memory = map<int, int>

  datatype Block = Block(start: int, end: int, isAllocated: bool) {
    /** The bytes between header and footer. */
    function Usable(): int { end - start - Overhead }
  }

  /** The value the source stores in `allocated`. */
  function Flag(isAllocated: bool): int { if isAllocated then 1 else 0 }

  /** computeUsableSpace: from the header at p to its footer. */
  function UsableSpace(mem: Memory, p: int): int
    requires p in mem
  {
    mem[p] - (p + PrefixSize)
  }

  /** computeNextPrefixAddr: the address just past p's footer. */
  function NextPrefixAddr(mem: Memory, p: int): int
    requires p in mem
  {
    mem[p] + SuffixSize
  }

  /** computePrevSuffixAddr: where the footer of p's predecessor would be. */
  function PrevSuffixAddr(p: int): int
  {
    p - SuffixSize
  }

  /** getNextPrefix: the next header, or 0 when p's block ends the arena. */
  function GetNextPrefix(mem: Memory, arenaEnd: int, p: int): int
    requires p in mem
  {
    var np := NextPrefixAddr(mem, p);
    if np < arenaEnd then np else 0
  }

  /** getPrevPrefix: the previous header read from its footer, or 0 when p is first. */
  function GetPrevPrefix(mem: Memory, arenaBegin: int, p: int): int
    requires PrevSuffixAddr(p) > arenaBegin ==> PrevSuffixAddr(p) in mem
  {
    var ps := PrevSuffixAddr(p);
    if ps > arenaBegin then mem[ps] else 0
  }

  /** `!p->allocated` */
  function IsFree(mem: Memory, p: int): bool
    requires p + FlagOffset in mem
  {
    mem[p + FlagOffset] == 0
  }

  /** pcheck: the address lies within the arena. */
  function PCheck(arenaBegin: int, arenaEnd: int, p: int): bool
  {
    arenaBegin <= p < arenaEnd
  }

  /** prefixToRegion: the first usable byte of the block at p; 0 stays 0. */
  function PrefixToRegion(p: int): int
  {
    if p != 0 then p + PrefixSize else 0
  }

  /** regionToPrefix: the header of the block whose usable space starts at r; 0 stays 0. */
  function RegionToPrefix(r: int): int
  {
    if r != 0 then r - PrefixSize else 0
  }

  /** The two conversions are inverse on arena addresses, offset by PrefixSize, and keep 0. */
  lemma RegionRoundTrip(p: int, r: int)
    ensures PrefixToRegion(0) == 0 && RegionToPrefix(0) == 0
    ensures p > 0 ==> PrefixToRegion(p) == p + PrefixSize && RegionToPrefix(PrefixToRegion(p)) == p
    ensures r > PrefixSize ==> RegionToPrefix(r) > 0 && PrefixToRegion(RegionToPrefix(r)) == r
  {
  }

  /** The memory left by writing the tags of a block of size bytes at addr: the header's
      suffix pointer and flag, and the footer's back pointer. makeFreeBlock writes them
      with flag 0, combine with flag 1. */
  function WithBlock(mem: Memory, addr: int, size: int, a: bool): (m: Memory)
    requires size >= Overhead
    ensures HasCells(m, Block(addr, addr + size, a))
    ensures UsableSpace(m, addr) == size - Overhead && NextPrefixAddr(m, addr) == addr + size
  {
    mem[addr := addr + size - SuffixSize][addr + size - SuffixSize := addr][addr + FlagOffset := Flag(a)]
  }

  /** The three cells of b say what b is. */
  ghost predicate HasCells(mem: Memory, b: Block)
  {
    && b.start in mem && mem[b.start] == b.end - SuffixSize
    && b.start + FlagOffset in mem && mem[b.start + FlagOffset] == Flag(b.isAllocated)
    && b.end - SuffixSize in mem && mem[b.end - SuffixSize] == b.start
  }

  /** The blocks tile [begin, end): no gap, no overlap, none smaller than its tags
      (stated block by block from the front; Tiled is the indexed form). */
  ghost predicate Tiles(bs: seq<Block>, begin: int, end: int)
    decreases |bs|
  {
    && |bs| > 0 && bs[0].start == begin && bs[0].end - bs[0].start >= Overhead
    && if |bs| == 1 then bs[0].end == end else Tiles(bs[1..], bs[0].end, end)
  }

  ghost predicate Tiled(bs: seq<Block>, begin: int, end: int)
  {
    && |bs| > 0 && bs[0].start == begin && bs[|bs| - 1].end == end
    && (forall i :: 0 <= i < |bs| ==> bs[i].end - bs[i].start >= Overhead)
    && (forall i :: 0 < i < |bs| ==> bs[i - 1].end == bs[i].start)
  }

  lemma {:induction false} TilesIff(bs: seq<Block>, begin: int, end: int)
    ensures Tiles(bs, begin, end) <==> Tiled(bs, begin, end)
    decreases |bs|
  {
    if |bs| > 1 {
      var t := bs[1..];
      TilesIff(t, bs[0].end, end);
      assert forall k :: 0 <= k < |t| ==> t[k] == bs[k + 1];
      if Tiled(bs, begin, end) {
        assert Tiled(t, bs[0].end, end) by {
          forall k | 0 < k < |t| ensures t[k - 1].end == t[k].start {
            assert bs[k].end == bs[k + 1].start;
          }
        }
      }
      if Tiles(bs, begin, end) {
        forall k | 0 < k < |bs| ensures bs[k - 1].end == bs[k].start {
          if k > 1 {
            assert t[k - 2].end == t[k - 1].start;
          }
        }
      }
    }
  }

  /** Every block's cells say what the block is (stated block by block from the front,
      see AllCellsAt and AllCellsIntro for the indexed form). */
  ghost predicate AllCells(mem: Memory, bs: seq<Block>)
    decreases |bs|
  {
    |bs| == 0 || (HasCells(mem, bs[0]) && AllCells(mem, bs[1..]))
  }

  lemma {:induction false} AllCellsAt(mem: Memory, bs: seq<Block>, i: int)
    requires AllCells(mem, bs) && 0 <= i < |bs|
    ensures HasCells(mem, bs[i])
    decreases i
  {
    if i > 0 {
      AllCellsAt(mem, bs[1..], i - 1);
      assert bs[1..][i - 1] == bs[i];
    }
  }

  lemma {:induction false} AllCellsIntro(mem: Memory, bs: seq<Block>)
    requires forall i :: 0 <= i < |bs| ==> HasCells(mem, bs[i])
    ensures AllCells(mem, bs)
    decreases |bs|
  {
    if |bs| > 0 {
      forall i | 0 <= i < |bs| - 1 ensures HasCells(mem, bs[1..][i]) {
        assert bs[1..][i] == bs[i + 1];
      }
      AllCellsIntro(mem, bs[1..]);
    }
  }

  /** What arenaCheck asserts of an initialised arena. */
  ghost predicate WellFormed(mem: Memory, begin: int, end: int, bs: seq<Block>)
  {
    0 < begin && end < AddressTop && Tiles(bs, begin, end) && AllCells(mem, bs)
  }

  ghost predicate IsBlockStart(bs: seq<Block>, p: int)
  {
    exists i :: 0 <= i < |bs| && bs[i].start == p
  }

  /** The index of the block whose header is at p (unique once the blocks tile, see StartsDistinct). */
  ghost function IndexOf(bs: seq<Block>, p: int): (i: nat)
    requires IsBlockStart(bs, p)
    ensures i < |bs| && bs[i].start == p
  {
    var i :| 0 <= i < |bs| && bs[i].start == p; i
  }

  /** Blocks lie in address order. */
  lemma {:induction false} TilesOrdered(bs: seq<Block>, begin: int, end: int, i: int, j: int)
    requires Tiles(bs, begin, end) && 0 <= i < j < |bs|
    ensures bs[i].end <= bs[j].start
  {
    TilesIff(bs, begin, end);
    if i + 1 < j {
      TilesOrdered(bs, begin, end, i, j - 1);
    }
  }

  /** Every block lies within the arena, holds its tags and ends where the next begins. */
  lemma TilesBounds(bs: seq<Block>, begin: int, end: int, i: int)
    requires Tiles(bs, begin, end) && 0 <= i < |bs|
    ensures begin <= bs[i].start && bs[i].start + Overhead <= bs[i].end <= end
    ensures i + 1 < |bs| ==> bs[i].end == bs[i + 1].start
    ensures i == |bs| - 1 ==> bs[i].end == end
  {
    TilesIff(bs, begin, end);
    if 0 < i { TilesOrdered(bs, begin, end, 0, i); }
    if i < |bs| - 1 { TilesOrdered(bs, begin, end, i, |bs| - 1); }
  }

  /** Some block of bs holds the address p. */
  ghost predicate Covered(bs: seq<Block>, p: int)
  {
    exists i :: 0 <= i < |bs| && bs[i].start <= p < bs[i].end
  }

  /** pcheck on a tiled arena: an address passes exactly when some block holds it, so
      it fails for every address outside the blocks and holds for every header and
      footer (see Navigation). */
  lemma {:induction false} PCheckCovered(bs: seq<Block>, begin: int, end: int, p: int)
    requires Tiles(bs, begin, end)
    ensures PCheck(begin, end, p) <==> Covered(bs, p)
    decreases |bs|
  {
    if bs[0].start <= p < bs[0].end {
      assert Covered(bs, p);
    }
    if Covered(bs, p) {
      var i :| 0 <= i < |bs| && bs[i].start <= p < bs[i].end;
      TilesBounds(bs, begin, end, i);
    }
    if |bs| > 1 {
      var t := bs[1..];
      PCheckCovered(t, bs[0].end, end, p);
      if bs[0].end <= p && Covered(t, p) {
        var i :| 0 <= i < |t| && t[i].start <= p < t[i].end;
        assert bs[i + 1] == t[i];
      }
    }
  }

  /** A header address names one block only. */
  lemma StartsDistinct(bs: seq<Block>, begin: int, end: int, i: int, j: int)
    requires Tiles(bs, begin, end) && 0 <= i < |bs| && 0 <= j < |bs|
    requires bs[i].start == bs[j].start
    ensures i == j
  {
    TilesIff(bs, begin, end);
    if i < j { TilesOrdered(bs, begin, end, i, j); }
    if j < i { TilesOrdered(bs, begin, end, j, i); }
  }

  lemma IndexOfStart(bs: seq<Block>, begin: int, end: int, i: int)
    requires Tiles(bs, begin, end) && 0 <= i < |bs|
    ensures IsBlockStart(bs, bs[i].start) && IndexOf(bs, bs[i].start) == i
  {
    StartsDistinct(bs, begin, end, i, IndexOf(bs, bs[i].start));
  }

  /** Reading the cells of block i: its usable space, its flag, and the two
      navigation functions, which return 0 exactly at the ends of the arena. */
  lemma Navigation(mem: Memory, begin: int, end: int, bs: seq<Block>, i: int)
    requires WellFormed(mem, begin, end, bs) && 0 <= i < |bs|
    ensures var p := bs[i].start;
      && begin <= p && bs[i].end <= end
      && p in mem && p + FlagOffset in mem
      && UsableSpace(mem, p) == bs[i].Usable()
      && NextPrefixAddr(mem, p) == bs[i].end
      && IsFree(mem, p) == !bs[i].isAllocated
      && PCheck(begin, end, p) && PCheck(begin, end, mem[p]) && mem[p] in mem && mem[mem[p]] == p
      && GetNextPrefix(mem, end, p) == (if i == |bs| - 1 then 0 else bs[i + 1].start)
      && (i + 1 < |bs| ==> 0 < bs[i + 1].start)
      && (PrevSuffixAddr(p) > begin ==> PrevSuffixAddr(p) in mem)
      && GetPrevPrefix(mem, begin, p) == (if i == 0 then 0 else bs[i - 1].start)
  {
    TilesIff(bs, begin, end);
    TilesBounds(bs, begin, end, i);
    AllCellsAt(mem, bs, i);
    if i < |bs| - 1 {
      TilesBounds(bs, begin, end, i + 1);
    }
    if 0 < i {
      TilesBounds(bs, begin, end, i - 1);
      AllCellsAt(mem, bs, i - 1);
    }
  }

  /** Two tilings that meet make one. */
  lemma {:induction false} TilesConcat(a: seq<Block>, c: seq<Block>, begin: int, mid: int, end: int)
    requires Tiles(a, begin, mid) && Tiles(c, mid, end)
    ensures Tiles(a + c, begin, end)
    decreases |a|
  {
    if |a| == 1 {
      assert (a + c)[1..] == c;
    } else {
      TilesConcat(a[1..], c, a[0].end, mid, end);
      assert (a + c)[1..] == a[1..] + c;
    }
  }

  /** A tiling cut before block k: the blocks before k tile up to its start, the rest
      from there. */
  lemma {:induction false} TilesSplit(bs: seq<Block>, begin: int, end: int, k: int)
    requires Tiles(bs, begin, end) && 0 < k < |bs|
    ensures Tiles(bs[..k], begin, bs[k].start) && Tiles(bs[k..], bs[k].start, end)
    decreases k
  {
    if k == 1 {
      assert bs[1..][0] == bs[1];
    } else {
      TilesSplit(bs[1..], bs[0].end, end, k - 1);
      assert bs[1..][..k - 1] == bs[..k][1..];
      assert bs[1..][k - 1..] == bs[k..];
      assert bs[1..][k - 1] == bs[k];
    }
  }

  /** Replacing blocks i..j by blocks that tile the same span keeps the arena tiled. */
  lemma TilesReplace(bs: seq<Block>, begin: int, end: int, i: int, j: int, nw: seq<Block>)
    requires Tiles(bs, begin, end) && 0 <= i <= j < |bs|
    requires Tiles(nw, bs[i].start, bs[j].end)
    ensures Tiles(bs[..i] + nw + bs[j + 1..], begin, end)
  {
    var tail := nw + bs[j + 1..];
    TilesBounds(bs, begin, end, j);
    if j + 1 < |bs| {
      TilesSplit(bs, begin, end, j + 1);
      TilesConcat(nw, bs[j + 1..], bs[i].start, bs[j].end, end);
    } else {
      assert tail == nw;
    }
    assert bs[..i] + nw + bs[j + 1..] == bs[..i] + tail;
    if i > 0 {
      TilesSplit(bs, begin, end, i);
      TilesConcat(bs[..i], tail, begin, bs[i].start, end);
    } else {
      assert bs[..i] + tail == tail;
    }
  }



  /** Cells that no write touched still describe their blocks. */
  lemma CellsFramed(mem: Memory, mem': Memory, bs: seq<Block>, lo: int, hi: int)
    requires AllCells(mem, bs)
    requires forall k :: 0 <= k < |bs| ==> bs[k].end <= lo || hi <= bs[k].start
    requires forall k :: 0 <= k < |bs| ==> bs[k].end - bs[k].start >= Overhead
    requires forall a :: a in mem && !(lo <= a < hi) ==> a in mem' && mem'[a] == mem[a]
    ensures AllCells(mem', bs)
  {
    forall k | 0 <= k < |bs|
      ensures HasCells(mem', bs[k])
    {
      AllCellsAt(mem, bs, k);
    }
    AllCellsIntro(mem', bs);
  }

  /** The blocks outside the span of blocks i..j lie outside it. */
  lemma OutsideDisjoint(bs: seq<Block>, begin: int, end: int, i: int, j: int)
    requires Tiles(bs, begin, end) && 0 <= i <= j < |bs|
    ensures var outside := bs[..i] + bs[j + 1..];
      && (forall k :: 0 <= k < |outside| ==> outside[k].end <= bs[i].start || bs[j].end <= outside[k].start)
      && (forall k :: 0 <= k < |outside| ==> outside[k].end - outside[k].start >= Overhead)
  {
    TilesIff(bs, begin, end);
    var outside := bs[..i] + bs[j + 1..];
    forall k | 0 <= k < |outside|
      ensures outside[k].end <= bs[i].start || bs[j].end <= outside[k].start
      ensures outside[k].end - outside[k].start >= Overhead
    {
      if k < i {
        assert outside[k] == bs[k];
        TilesOrdered(bs, begin, end, k, i);
      } else {
        assert outside[k] == bs[k - i + j + 1];
        TilesOrdered(bs, begin, end, j, k - i + j + 1);
      }
    }
  }

  /** Dropping blocks i..j keeps the cells of the others. */
  lemma OutsideHasCells(mem: Memory, bs: seq<Block>, i: int, j: int)
    requires AllCells(mem, bs) && 0 <= i <= j < |bs|
    ensures AllCells(mem, bs[..i] + bs[j + 1..])
  {
    var outside := bs[..i] + bs[j + 1..];
    forall k | 0 <= k < |outside| ensures HasCells(mem, outside[k]) {
      if k < i {
        assert outside[k] == bs[k];
        AllCellsAt(mem, bs, k);
      } else {
        assert outside[k] == bs[k - i + j + 1];
        AllCellsAt(mem, bs, k - i + j + 1);
      }
    }
    AllCellsIntro(mem, outside);
  }

  /** The blocks outside the span of blocks i..j keep their cells when only memory inside
      the span changes. */
  lemma OutsideCells(mem: Memory, mem': Memory, begin: int, end: int, bs: seq<Block>, i: int, j: int)
    requires WellFormed(mem, begin, end, bs) && 0 <= i <= j < |bs|
    requires forall a :: a in mem && !(bs[i].start <= a < bs[j].end) ==> a in mem' && mem'[a] == mem[a]
    ensures AllCells(mem', bs[..i] + bs[j + 1..])
  {
    OutsideDisjoint(bs, begin, end, i, j);
    OutsideHasCells(mem, bs, i, j);
    CellsFramed(mem, mem', bs[..i] + bs[j + 1..], bs[i].start, bs[j].end);
  }

  /** The frame rule of every block rewrite: blocks i..j are replaced by nw, which tiles
      the same span and whose cells the new memory holds; memory outside the span is as
      before. The result is again what arenaCheck asserts. */
  lemma ReplaceRange(mem: Memory, mem': Memory, begin: int, end: int, bs: seq<Block>,
                     i: int, j: int, nw: seq<Block>)
    requires WellFormed(mem, begin, end, bs) && 0 <= i <= j < |bs|
    requires Tiles(nw, bs[i].start, bs[j].end) && AllCells(mem', nw)
    requires forall a :: a in mem && !(bs[i].start <= a < bs[j].end) ==> a in mem' && mem'[a] == mem[a]
    ensures WellFormed(mem', begin, end, bs[..i] + nw + bs[j + 1..])
  {
    TilesReplace(bs, begin, end, i, j, nw);
    OutsideCells(mem, mem', begin, end, bs, i, j);
    var outside := bs[..i] + bs[j + 1..];
    var r := bs[..i] + nw + bs[j + 1..];
    forall k | 0 <= k < |r|
      ensures HasCells(mem', r[k])
    {
      if k < i {
        assert r[k] == outside[k];
        AllCellsAt(mem', outside, k);
      } else if k < i + |nw| {
        assert r[k] == nw[k - i];
        AllCellsAt(mem', nw, k - i);
      } else {
        assert r[k] == outside[k - |nw|];
        AllCellsAt(mem', outside, k - |nw|);
      }
    }
    AllCellsIntro(mem', r);
  }

  /** The arena after growth: a fresh free block appended at the old end. */
  lemma AppendBlock(mem: Memory, mem': Memory, begin: int, end: int, bs: seq<Block>, size: int)
    requires WellFormed(mem, begin, end, bs) && size >= Overhead && end + size < AddressTop
    requires HasCells(mem', Block(end, end + size, false))
    requires forall a :: a in mem && !(end <= a < end + size) ==> a in mem' && mem'[a] == mem[a]
    ensures WellFormed(mem', begin, end + size, bs + [Block(end, end + size, false)])
  {
    TilesIff(bs, begin, end);
    forall k | 0 <= k < |bs| ensures bs[k].end <= end {
      TilesBounds(bs, begin, end, k);
    }
    CellsFramed(mem, mem', bs, end, end + size);
    var r := bs + [Block(end, end + size, false)];
    forall k | 0 <= k < |r| ensures HasCells(mem', r[k]) {
      if k < |bs| {
        assert r[k] == bs[k];
        AllCellsAt(mem', bs, k);
      }
    }
    AllCellsIntro(mem', r);
    TilesIff(r, begin, end + size);
  }

  /** Total usable space of the free blocks, and of the allocated blocks. */
  function FreeSpace(bs: seq<Block>): int
  {
    if bs == [] then 0
    else FreeSpace(bs[..|bs| - 1]) + (if bs[|bs| - 1].isAllocated then 0 else bs[|bs| - 1].Usable())
  }

  function AllocatedSpace(bs: seq<Block>): int
  {
    if bs == [] then 0
    else AllocatedSpace(bs[..|bs| - 1]) + (if bs[|bs| - 1].isAllocated then bs[|bs| - 1].Usable() else 0)
  }

  /** The first k blocks account for every byte from begin to the end of block k-1. */
  lemma {:induction false} AccountingPrefix(bs: seq<Block>, begin: int, end: int, k: int)
    requires Tiles(bs, begin, end) && 0 < k <= |bs|
    ensures FreeSpace(bs[..k]) + AllocatedSpace(bs[..k]) + k * Overhead == bs[k - 1].end - begin
  {
    TilesIff(bs, begin, end);
    assert bs[..k][..k - 1] == bs[..k - 1];
    if k > 1 {
      AccountingPrefix(bs, begin, end, k - 1);
    }
  }

  /** The identity arenaCheck reports: free + allocated + tags == arena size. */
  lemma Accounting(bs: seq<Block>, begin: int, end: int)
    requires Tiles(bs, begin, end)
    ensures FreeSpace(bs) + AllocatedSpace(bs) + |bs| * Overhead == end - begin
  {
    TilesIff(bs, begin, end);
    AccountingPrefix(bs, begin, end, |bs|);
    assert bs[..|bs|] == bs;
  }
}
