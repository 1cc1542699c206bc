/** What the three placement searches of myAllocator.c look for, stated over the
    block list of the arena. The scanning loops themselves are methods of
    MyAllocator.Allocator and are proved against these definitions. */
module Placement {
  import opened BlockModel

  datatype Option<T> = None | Some(value: T)

  /** A block a request for s bytes may take: free, with at least s usable bytes. */
  predicate Fits(b: Block, s: nat)
  {
    !b.isAllocated && b.Usable() >= s
  }

  /** The lowest index at or after k whose block fits, if any. */
  function FitFrom(bs: seq<Block>, s: nat, k: nat): (r: Option<nat>)
    requires k <= |bs|
    decreases |bs| - k
    ensures r.Some? ==> k <= r.value < |bs| && Fits(bs[r.value], s)
  {
    if k == |bs| then None
    else if Fits(bs[k], s) then Some(k)
    else FitFrom(bs, s, k + 1)
  }

  /** FitFrom skips only blocks that do not fit, and finds nothing only when no block at
      or after k fits. */
  lemma {:induction false} FitFromSpec(bs: seq<Block>, s: nat, k: nat)
    requires k <= |bs|
    decreases |bs| - k
    ensures var r := FitFrom(bs, s, k);
      && (r.Some? ==> forall j :: k <= j < r.value ==> !Fits(bs[j], s))
      && (r.None? <==> forall j :: k <= j < |bs| ==> !Fits(bs[j], s))
  {
    if k < |bs| {
      FitFromSpec(bs, s, k + 1);
    }
  }

  /** findFirstFit's choice: the lowest-address fitting block. */
  function FirstFit(bs: seq<Block>, s: nat): Option<nat>
  {
    FitFrom(bs, s, 0)
  }

  /** The block findNextFit means to return when its scan starts at block k: the first
      fit at or after k, else, once the scan has wrapped around to arenaBegin, the first
      fit before k. */
  function NextFit(bs: seq<Block>, s: nat, k: nat): (r: Option<nat>)
    requires k <= |bs|
    ensures r.Some? ==> r.value < |bs| && Fits(bs[r.value], s)
  {
    var right := FitFrom(bs, s, k);
    if right.Some? then right else FitFrom(bs, s, 0)
  }

  /** NextFit is the first fit in the cyclic order k, k + 1, ..., |bs| - 1, 0, ..., k - 1,
      and finds nothing only when no block fits at all. */
  lemma NextFitSpec(bs: seq<Block>, s: nat, k: nat)
    requires k <= |bs|
    ensures var r := NextFit(bs, s, k);
      && (r.None? <==> forall j :: 0 <= j < |bs| ==> !Fits(bs[j], s))
      && (r.Some? && k <= r.value ==> forall j :: k <= j < r.value ==> !Fits(bs[j], s))
      && (r.Some? && r.value < k ==>
            && (forall j :: k <= j < |bs| ==> !Fits(bs[j], s))
            && (forall j :: 0 <= j < r.value ==> !Fits(bs[j], s)))
  {
    FitFromSpec(bs, s, k);
    FitFromSpec(bs, s, 0);
  }

  /** Bytes a fitting block has to spare. */
  function Slack(b: Block, s: nat): int
  {
    b.Usable() - s
  }

  /** The best fit among the first n blocks: a fitting block of least slack, the
      earliest among equals; None when none of them fits. */
  function BestFitUpTo(bs: seq<Block>, s: nat, n: nat): (r: Option<nat>)
    requires n <= |bs|
    ensures r.Some? ==> r.value < n && Fits(bs[r.value], s)
  {
    if n == 0 then None
    else
      var r := BestFitUpTo(bs, s, n - 1);
      if Fits(bs[n - 1], s) && (r.None? || Slack(bs[n - 1], s) < Slack(bs[r.value], s)) then Some(n - 1)
      else r
  }

  /** BestFitUpTo finds a fit whenever one exists among the first n blocks, none has
      less excess, and every earlier fit has strictly more. */
  lemma {:induction false} BestFitUpToSpec(bs: seq<Block>, s: nat, n: nat)
    requires n <= |bs|
    ensures var r := BestFitUpTo(bs, s, n);
      && (r.None? <==> forall j :: 0 <= j < n ==> !Fits(bs[j], s))
      && (r.Some? ==> forall j :: 0 <= j < n && Fits(bs[j], s) ==> Slack(bs[r.value], s) <= Slack(bs[j], s))
      && (r.Some? ==> forall j :: 0 <= j < r.value && Fits(bs[j], s) ==> Slack(bs[r.value], s) < Slack(bs[j], s))
  {
    if n > 0 {
      BestFitUpToSpec(bs, s, n - 1);
    }
  }

  /** The block findBestFit means to return. */
  function BestFit(bs: seq<Block>, s: nat): Option<nat>
  {
    BestFitUpTo(bs, s, |bs|)
  }

  /** The block findBestFit as written returns: the best fit, or the first block (the one
      at arenaBegin, where its scan starts) when no block fits. */
  function BestFitAsWritten(bs: seq<Block>, s: nat): (i: nat)
    requires |bs| > 0
    ensures i < |bs|
  {
    var b := BestFit(bs, s);
    if b.Some? then b.value else 0
  }

  /** findBestFit as written returns a fitting block exactly when some block fits. */
  lemma BestFitAsWrittenFits(bs: seq<Block>, s: nat)
    requires |bs| > 0
    ensures Fits(bs[BestFitAsWritten(bs, s)], s) <==> exists j :: 0 <= j < |bs| && Fits(bs[j], s)
  {
    BestFitUpToSpec(bs, s, |bs|);
  }

  /** An exact fit (slack 0) with no exact fit before it is the best fit: findBestFit
      may stop scanning there. */
  lemma {:induction false} ExactFitIsBest(bs: seq<Block>, s: nat, k: nat, n: nat)
    requires k < n <= |bs| && Fits(bs[k], s) && Slack(bs[k], s) == 0
    requires forall j :: 0 <= j < k && Fits(bs[j], s) ==> Slack(bs[j], s) != 0
    ensures BestFitUpTo(bs, s, n) == Some(k)
  {
    if n > k + 1 {
      ExactFitIsBest(bs, s, k, n - 1);
    }
  }
}
