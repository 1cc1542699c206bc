/** The tag writes behind each block rewrite of BlockOps: the memory that the
    rewrite's writes leave still describes the rewritten block list. */
module TagWrites {
  import opened BlockModel
  import opened BlockOps

  /** Writing the flag of block i, whose header is at p: the arena is the list with
      block i marked. */
  lemma MarkWrite(mem: Memory, begin: int, end: int, bs: seq<Block>, i: nat, a: bool, p: int)
    requires WellFormed(mem, begin, end, bs) && i < |bs| && p == bs[i].start
    ensures WellFormed(mem[p + FlagOffset := Flag(a)], begin, end, Marked(bs, i, a))
  {
    var m := mem[p + FlagOffset := Flag(a)];
    var b := bs[i].(isAllocated := a);
    assert bs[..i] + [b] + bs[i + 1..] == Marked(bs, i, a);
    AllCellsAt(mem, bs, i);
    TilesBounds(bs, begin, end, i);
    assert HasCells(m, b);
    assert Tiles([b], bs[i].start, bs[i].end);
    ReplaceRange(mem, m, begin, end, bs, i, i, [b]);
  }

  /** Writing the tags of one block at p over the span of blocks lo..hi (coalescePrev with
      a = false, combine with a = true): the arena is the list with those blocks fused. */
  lemma FuseWrite(mem: Memory, begin: int, end: int, bs: seq<Block>, lo: nat, hi: nat, a: bool,
                  p: int, size: int)
    requires WellFormed(mem, begin, end, bs) && lo <= hi < |bs|
    requires p == bs[lo].start && size == bs[hi].end - bs[lo].start
    ensures size >= Overhead && WellFormed(WithBlock(mem, p, size, a), begin, end, Fused(bs, lo, hi, a))
  {
    if lo < hi {
      TilesOrdered(bs, begin, end, lo, hi);
    }
    TilesBounds(bs, begin, end, lo);
    TilesBounds(bs, begin, end, hi);
    var m := WithBlock(mem, p, size, a);
    var b := Block(bs[lo].start, bs[hi].end, a);
    assert bs[..lo] + [b] + bs[hi + 1..] == Fused(bs, lo, hi, a);
    assert Tiles([b], bs[lo].start, bs[hi].end);
    ReplaceRange(mem, m, begin, end, bs, lo, hi, [b]);
  }

  /** The cells of the two makeFreeBlock calls of a split of [s, e) at cut: both blocks
      are described, and nothing outside [s, e) changed. */
  lemma SplitCells(mem: Memory, s: int, cut: int, e: int)
    requires s + Overhead <= cut && cut + Overhead <= e
    ensures var m := WithBlock(WithBlock(mem, cut, e - cut, false), s, cut - s, false);
      && HasCells(m, Block(s, cut, false)) && HasCells(m, Block(cut, e, false))
      && forall x :: x in mem && !(s <= x < e) ==> x in m && m[x] == mem[x]
  {
    var m1 := WithBlock(mem, cut, e - cut, false);
    var m2 := WithBlock(m1, s, cut - s, false);
    assert HasCells(m1, Block(cut, e, false));
    forall x | x in mem && !(s <= x < e)
      ensures x in m2 && m2[x] == mem[x]
    {
      assert x in m1 && m1[x] == mem[x];
    }
  }

  /** The split of block i, header at s, at cut: the remainder's tags are written first,
      then the front's. The arena is the list with block i split. */
  lemma SplitWrite(mem: Memory, m: Memory, begin: int, end: int, bs: seq<Block>, i: nat, asize: nat,
                   s: int, cut: int, e: int)
    requires WellFormed(mem, begin, end, bs) && i < |bs| && CanSplit(bs[i], asize)
    requires s == bs[i].start && cut == s + PrefixSize + SuffixSize + asize && e == bs[i].end
    requires m == WithBlock(WithBlock(mem, cut, e - cut, false), s, cut - s, false)
    ensures WellFormed(m, begin, end, SplitAt(bs, i, asize))
  {
    var nw := [Block(s, cut, false), Block(cut, e, false)];
    assert bs[..i] + nw + bs[i + 1..] == SplitAt(bs, i, asize);
    SplitCells(mem, s, cut, e);
    assert AllCells(m, nw);
    ReplaceRange(mem, m, begin, end, bs, i, i, nw);
  }

  /** initializeArena's one free block of size bytes at begin, over any previous memory. */
  lemma InitWrite(mem: Memory, begin: int, size: int)
    requires 0 < begin && size >= Overhead && begin + size < AddressTop
    ensures WellFormed(WithBlock(mem, begin, size, false), begin, begin + size, [Block(begin, begin + size, false)])
  {
    var bs := [Block(begin, begin + size, false)];
    assert bs[1..] == [];
  }

  /** growArena's new free block of size bytes at the old arena end. */
  lemma GrowWrite(mem: Memory, begin: int, end: int, bs: seq<Block>, size: int)
    requires WellFormed(mem, begin, end, bs) && size >= Overhead && end + size < AddressTop
    ensures WellFormed(WithBlock(mem, end, size, false), begin, end + size, bs + [Block(end, end + size, false)])
  {
    AppendBlock(mem, WithBlock(mem, end, size, false), begin, end, bs, size);
  }
}
