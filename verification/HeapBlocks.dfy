/** Allocation and release on the list of blocks alone: what coalesces, what is restored, what is kept. */
module HeapBlocks {
  import opened HeapLayout
  import opened HeapOps
  import opened HeapInvariant

  /** heap_alloc takes the lowest block that fits, and splits it when there is enough room left. */
  function AllocBlocks(bs: seq<Block>, n: int): seq<Block> {
    var k := FirstFit(bs, n, 0);
    if k == |bs| then bs else if Splits(bs[k], n) then SplitBlocks(bs, k, n) else bs[k := bs[k].(used := true)]
  }

  /** heap_free marks block i free, then tries the neighbour above, then the neighbour below. */
  function FreeBlocks(bs: seq<Block>, i: int): seq<Block>
    requires 0 <= i < |bs|
  {
    var bs1 := bs[i := bs[i].(used := false)];
    var bs2 := if i + 1 < |bs1| && MutualFree(bs1, i) then MergeBlocks(bs1, i) else bs1;
    if i > 0 && MutualFree(bs2, i - 1) then MergeBlocks(bs2, i - 1) else bs2
  }

  /** The blocks after heap_init. */
  function InitBlocks(bottom: int, top: int): seq<Block> {
    [Block(bottom, top - bottom - HEADER, false, 0, 0)]
  }

  // ----- Coalescing

  /** Block i, about to be freed, will absorb the block above it. */
  predicate MergesUp(bs: seq<Block>, i: int)
    requires 0 <= i < |bs|
  {
    i + 1 < |bs| && !bs[i + 1].used && bs[i + 1].prev == bs[i].addr
  }

  /** Block i, about to be freed, will be absorbed by the block below it. */
  predicate MergesDown(bs: seq<Block>, i: int)
    requires 0 <= i < |bs|
  {
    i > 0 && !bs[i - 1].used && bs[i].prev == bs[i - 1].addr
  }

  function Low(bs: seq<Block>, i: int): int requires 0 <= i < |bs| { if MergesDown(bs, i) then i - 1 else i }
  function High(bs: seq<Block>, i: int): int requires 0 <= i < |bs| { if MergesUp(bs, i) then i + 1 else i }

  /** The total size of blocks lo..hi once they are one block: their data plus a header for each one absorbed. */
  function RunSize(bs: seq<Block>, lo: int, hi: int): int
    requires 0 <= lo <= hi < |bs|
    decreases hi
  {
    if lo == hi then bs[lo].size else RunSize(bs, lo, hi - 1) + HEADER + bs[hi].size
  }

  /** Blocks lo..hi of bs have become one free block, the block above is relinked to it, and the rest is as it was. */
  ghost predicate Coalesced(bs: seq<Block>, rs: seq<Block>, lo: int, hi: int)
    requires 0 <= lo <= hi < |bs|
  {
    |rs| == |bs| - (hi - lo) &&
    rs[lo] == Block(bs[lo].addr, RunSize(bs, lo, hi), false, bs[hi].next, bs[lo].prev) &&
    (forall j :: 0 <= j < lo ==> rs[j] == bs[j]) &&
    (hi + 1 < |bs| ==> rs[lo + 1] == bs[hi + 1].(prev := if lo < hi then bs[lo].addr else bs[hi + 1].prev)) &&
    (forall j :: lo + 2 <= j < |rs| ==> rs[j] == bs[j + (hi - lo)])
  }

  lemma FreeAlone(bs: seq<Block>, i: int)
    requires 0 <= i < |bs| && !MergesUp(bs, i) && !MergesDown(bs, i)
    ensures Coalesced(bs, FreeBlocks(bs, i), i, i)
  {
    assert FreeBlocks(bs, i) == bs[i := bs[i].(used := false)];
  }

  lemma FreeUp(bs: seq<Block>, i: int)
    requires 0 <= i < |bs| && MergesUp(bs, i) && !MergesDown(bs, i)
    ensures Coalesced(bs, FreeBlocks(bs, i), i, i + 1)
  {
    hide MergeBlocks;
    var bs1 := bs[i := bs[i].(used := false)];
    MergeIndex(bs1, i);
    assert RunSize(bs, i, i + 1) == bs[i].size + HEADER + bs[i + 1].size;
    assert FreeBlocks(bs, i) == MergeBlocks(bs1, i);
  }

  lemma FreeDown(bs: seq<Block>, i: int)
    requires 0 <= i < |bs| && !MergesUp(bs, i) && MergesDown(bs, i)
    ensures Coalesced(bs, FreeBlocks(bs, i), i - 1, i)
  {
    hide MergeBlocks;
    var bs1 := bs[i := bs[i].(used := false)];
    MergeIndex(bs1, i - 1);
    assert RunSize(bs, i - 1, i) == bs[i - 1].size + HEADER + bs[i].size;
    assert FreeBlocks(bs, i) == MergeBlocks(bs1, i - 1);
  }

  lemma FreeBoth(bs: seq<Block>, i: int)
    requires 0 <= i < |bs| && MergesUp(bs, i) && MergesDown(bs, i)
    ensures Coalesced(bs, FreeBlocks(bs, i), i - 1, i + 1)
  {
    hide MergeBlocks;
    var bs1 := bs[i := bs[i].(used := false)];
    MergeIndex(bs1, i);
    var bs2 := MergeBlocks(bs1, i);
    MergeIndex(bs2, i - 1);
    assert RunSize(bs, i - 1, i) == bs[i - 1].size + HEADER + bs[i].size;
    assert RunSize(bs, i - 1, i + 1) == RunSize(bs, i - 1, i) + HEADER + bs[i + 1].size;
    assert FreeBlocks(bs, i) == MergeBlocks(bs2, i - 1);
  }

  /** heap_free turns the run Low..High into one free block, relinks the block above it, and keeps the rest. */
  lemma FreeShape(bs: seq<Block>, i: int)
    requires 0 <= i < |bs| && bs[i].used
    ensures Coalesced(bs, FreeBlocks(bs, i), Low(bs, i), High(bs, i))
  {
    hide FreeBlocks, Coalesced;
    if MergesUp(bs, i) {
      if MergesDown(bs, i) {
        FreeBoth(bs, i);
      } else {
        FreeUp(bs, i);
      }
    } else if MergesDown(bs, i) {
      FreeDown(bs, i);
    } else {
      FreeAlone(bs, i);
    }
  }

  predicate FreePair(bs: seq<Block>, i: int)
    requires 0 <= i < |bs| - 1
  {
    !bs[i].used && !bs[i + 1].used
  }

  ghost predicate NoFreePair(bs: seq<Block>) {
    forall i :: 0 <= i < |bs| - 1 ==> !FreePair(bs, i)
  }

  ghost predicate ExactLinks(bs: seq<Block>) {
    forall i :: 1 <= i < |bs| ==> ExactLink(bs, i)
  }

  predicate ExactLink(bs: seq<Block>, i: int)
    requires 1 <= i < |bs|
  {
    bs[i].prev == bs[i - 1].addr
  }

  /** The back links around block i are exact where a free neighbour makes them matter. */
  predicate FreshAround(bs: seq<Block>, i: int)
    requires 0 <= i < |bs|
  {
    (i + 1 < |bs| && !bs[i + 1].used ==> ExactLink(bs, i + 1)) &&
    (i > 0 && !bs[i - 1].used ==> ExactLink(bs, i))
  }

  /** Freeing a block leaves no two neighbours free exactly when the back links around it are not stale. */
  lemma CoalescesIffFresh(bs: seq<Block>, i: int)
    requires 0 <= i < |bs| && bs[i].used && NoFreePair(bs)
    ensures NoFreePair(FreeBlocks(bs, i)) <==> FreshAround(bs, i)
  {
    hide FreeBlocks;
    var rs, lo, hi := FreeBlocks(bs, i), Low(bs, i), High(bs, i);
    FreeShape(bs, i);
    if FreshAround(bs, i) {
      forall j | 0 <= j < |rs| - 1 ensures !FreePair(rs, j) {
        if j < lo - 1 {
          assert !FreePair(bs, j);
        } else if j == lo - 1 {
          assert lo < i ==> !FreePair(bs, j);
        } else if j == lo {
          assert hi > i ==> !FreePair(bs, hi);
        } else {
          assert !FreePair(bs, j + (hi - lo));
        }
      }
    } else if i + 1 < |bs| && !bs[i + 1].used && !ExactLink(bs, i + 1) {
      assert FreePair(rs, lo);
    } else {
      assert FreePair(rs, i - 1);
    }
  }

  /** With exact back links everywhere, heap_free coalesces completely and keeps the back links exact. */
  lemma ExactLinksKept(bs: seq<Block>, i: int)
    requires 0 <= i < |bs| && bs[i].used && NoFreePair(bs) && ExactLinks(bs)
    ensures NoFreePair(FreeBlocks(bs, i)) && ExactLinks(FreeBlocks(bs, i))
  {
    hide FreeBlocks;
    var rs, lo, hi := FreeBlocks(bs, i), Low(bs, i), High(bs, i);
    FreeShape(bs, i);
    assert (i + 1 < |bs| ==> ExactLink(bs, i + 1)) && (i > 0 ==> ExactLink(bs, i));
    CoalescesIffFresh(bs, i);
    forall j | 1 <= j < |rs| ensures ExactLink(rs, j) {
      if j <= lo {
        assert ExactLink(bs, j);
      } else {
        assert ExactLink(bs, j + (hi - lo));
      }
    }
  }

  /** Full coalescing is not kept by every run: two neighbours end up free after five calls. */
  lemma CoalescingFails(bottom: int, top: int)
    requires 0 < bottom && bottom + 1000 <= top
    ensures var b1 := AllocBlocks(InitBlocks(bottom, top), 100);
      var b2 := AllocBlocks(b1, 10);
      var b3 := FreeBlocks(b2, 0);
      var b4 := AllocBlocks(b3, 10);
      |b2| == 3 && |b4| == 4 && NoFreePair(b4) && !NoFreePair(FreeBlocks(b4, 2))
  {
    var b0 := InitBlocks(bottom, top);
    var b1 := AllocBlocks(b0, 100);
    assert FirstFit(b0, 100, 0) == 0;
    assert b1 == [b0[0].(used := true, size := 100, next := bottom + 120), Remainder(b0[0], 100)];
    var b2 := AllocBlocks(b1, 10);
    assert FirstFit(b1, 10, 0) == 1;
    assert b2 == [b1[0], b1[1].(used := true, size := 10, next := bottom + 150), Remainder(b1[1], 10)];
    var b3 := FreeBlocks(b2, 0);
    assert b3 == [b2[0].(used := false), b2[1], b2[2]];
    var b4 := AllocBlocks(b3, 10);
    assert FirstFit(b3, 10, 0) == 0;
    assert b4 == [b3[0].(used := true, size := 10, next := bottom + 30), Remainder(b3[0], 10), b3[1], b3[2]];
    assert !FreePair(b4, 0) && !FreePair(b4, 1) && !FreePair(b4, 2);
    assert !ExactLink(b4, 2);
    CoalescesIffFresh(b4, 2);
  }

  // ----- Allocating and freeing again

  /** Same addresses, sizes and statuses; next and prev fields are not compared. */
  ghost predicate SameLayout(bs: seq<Block>, rs: seq<Block>) {
    |bs| == |rs| &&
    forall i :: 0 <= i < |bs| ==> rs[i].addr == bs[i].addr && rs[i].size == bs[i].size && rs[i].used == bs[i].used
  }

  /** Block k is free and not mutually linked with a free neighbour that freeing it again would swallow. */
  predicate Settled(bs: seq<Block>, k: int, n: int)
    requires 0 <= k < |bs|
  {
    !(k > 0 && MutualFree(bs, k - 1)) && (Splits(bs[k], n) || !(k + 1 < |bs| && MutualFree(bs, k)))
  }

  /** heap_free undoes heap_alloc exactly when the chosen block was settled. */
  lemma FreeUndoesAlloc(bs: seq<Block>, n: int)
    requires FirstFit(bs, n, 0) < |bs|
    ensures var k := FirstFit(bs, n, 0);
      k < |AllocBlocks(bs, n)| && (SameLayout(bs, FreeBlocks(AllocBlocks(bs, n), k)) <==> Settled(bs, k, n))
  {
    hide FreeBlocks, SplitBlocks, SameLayout;
    var k := FirstFit(bs, n, 0);
    if Splits(bs[k], n) {
      FreeUndoesSplit(bs, k, n);
    } else {
      FreeUndoesTake(bs, k);
    }
  }

  lemma FreeUndoesSplit(bs: seq<Block>, k: int, n: int)
    requires 0 <= k < |bs| && Fits(bs[k], n) && Splits(bs[k], n)
    ensures k < |SplitBlocks(bs, k, n)|
    ensures SameLayout(bs, FreeBlocks(SplitBlocks(bs, k, n), k)) <==> !(k > 0 && MutualFree(bs, k - 1))
  {
    hide FreeBlocks, SplitBlocks;
    var after := SplitBlocks(bs, k, n);
    SplitIndex(bs, k, n);
    FreeShape(after, k);
    assert High(after, k) == k + 1;
    assert RunSize(after, k, k + 1) == n + HEADER + (bs[k].size - n - HEADER);
  }

  lemma FreeUndoesTake(bs: seq<Block>, k: int)
    requires 0 <= k < |bs| && !bs[k].used
    ensures SameLayout(bs, FreeBlocks(bs[k := bs[k].(used := true)], k)) <==>
            !(k > 0 && MutualFree(bs, k - 1)) && !(k + 1 < |bs| && MutualFree(bs, k))
  {
    hide FreeBlocks;
    FreeShape(bs[k := bs[k].(used := true)], k);
  }
}
