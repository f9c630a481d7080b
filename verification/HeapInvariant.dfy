/** Every allocator operation keeps the heap invariant. */
module HeapInvariant {
  import opened Bytes
  import opened HeapLayout
  import opened HeapModel
  import opened HeapOps

  // ----- The list of blocks

  /** Neighbours i and i + 1 are free and linked both ways. */
  predicate MutualFree(bs: seq<Block>, i: int)
    requires 0 <= i < |bs| - 1
  {
    !bs[i].used && !bs[i + 1].used && bs[i + 1].prev == bs[i].addr
  }

  /** Block i absorbs block i + 1, and the block after that is relinked to block i. */
  function MergeBlocks(bs: seq<Block>, i: int): seq<Block>
    requires 0 <= i < |bs| - 1
  {
    bs[..i] + [bs[i].(size := bs[i].size + HEADER + bs[i + 1].size, next := bs[i + 1].next)] +
    (if i + 2 < |bs| then [bs[i + 2].(prev := bs[i].addr)] + bs[i + 3..] else [])
  }

  lemma StatusTiled(bs: seq<Block>, top: int, i: int, used: bool)
    requires Tiled(bs, top) && BackLinked(bs) && 0 <= i < |bs|
    ensures var rs := bs[i := bs[i].(used := used)];
      Tiled(rs, top) && BackLinked(rs) && BackLinksKept(bs, rs) && KeepsUsed(bs, rs)
  {
    var rs := bs[i := bs[i].(used := used)];
    forall j | 0 <= j < |rs| ensures Joined(rs, j, top) {
      assert Joined(bs, j, top);
    }
    forall j | 1 <= j < |rs| ensures BackLinkKept(bs, rs, j) && BackLink(rs, j) {
      assert BackLink(bs, j);
      assert rs[j].addr == bs[j].addr && rs[j].prev == bs[j].prev && rs[j - 1].addr == bs[j - 1].addr;
    }
    forall j | 0 <= j < |bs| ensures IsLive(rs, bs[j].addr) {
      assert rs[j].addr == bs[j].addr;
    }
  }

  lemma SplitIndex(bs: seq<Block>, k: int, n: int)
    requires 0 <= k < |bs|
    ensures var rs := SplitBlocks(bs, k, n);
      && |rs| == |bs| + 1
      && rs[k] == bs[k].(used := true, size := n, next := bs[k].addr + HEADER + n) && rs[k + 1] == Remainder(bs[k], n)
      && (forall j :: 0 <= j < k ==> rs[j] == bs[j])
      && (forall j :: k + 2 <= j < |rs| ==> rs[j] == bs[j - 1])
  {
  }

  lemma SplitTiled(bs: seq<Block>, top: int, k: int, n: int)
    requires Tiled(bs, top) && BackLinked(bs) && 0 <= k < |bs| && 0 <= n && Splits(bs[k], n)
    ensures var rs := SplitBlocks(bs, k, n);
      Tiled(rs, top) && BackLinked(rs) && BackLinksKept(bs, rs) && KeepsUsed(bs, rs)
  {
    hide SplitBlocks;
    var rs := SplitBlocks(bs, k, n);
    SplitIndex(bs, k, n);
    forall j | 0 <= j < |rs| ensures Joined(rs, j, top) {
      assert Joined(bs, k, top) && Joined(bs, if j <= k then j else j - 1, top);
    }
    forall j | 1 <= j < |rs|
      ensures BackLinkKept(bs, rs, j) && BackLink(rs, j)
    {
      WithinTop(bs, top, k);
      if j <= k {
        assert BackLink(bs, j);
        assert rs[j].addr == bs[j].addr && rs[j].prev == bs[j].prev && rs[j - 1].addr == bs[j - 1].addr;
      } else if j > k + 1 {
        assert BackLink(bs, j - 1);
        assert rs[j] == bs[j - 1] && bs[j - 2].addr == rs[if j - 2 <= k then j - 2 else j - 1].addr;
      }
    }
    forall j | 0 <= j < |bs| ensures IsLive(rs, bs[j].addr) {
      assert rs[if j <= k then j else j + 1].addr == bs[j].addr;
    }
  }

  lemma MergeIndex(bs: seq<Block>, i: int)
    requires 0 <= i < |bs| - 1
    ensures var rs := MergeBlocks(bs, i);
      && |rs| == |bs| - 1
      && rs[i] == bs[i].(size := bs[i].size + HEADER + bs[i + 1].size, next := bs[i + 1].next)
      && (i + 2 < |bs| ==> rs[i + 1] == bs[i + 2].(prev := bs[i].addr))
      && (forall j :: 0 <= j < i ==> rs[j] == bs[j])
      && (forall j :: i + 2 <= j < |rs| ==> rs[j] == bs[j + 1])
  {
  }

  lemma MergeTiled(bs: seq<Block>, top: int, i: int)
    requires Tiled(bs, top) && BackLinked(bs) && 0 <= i < |bs| - 1 && !bs[i + 1].used
    ensures var rs := MergeBlocks(bs, i);
      Tiled(rs, top) && BackLinked(rs) && BackLinksKept(bs, rs) && KeepsUsed(bs, rs)
  {
    hide MergeBlocks;
    var rs := MergeBlocks(bs, i);
    MergeIndex(bs, i);
    forall j | 0 <= j < |rs| ensures Joined(rs, j, top) {
      assert Joined(bs, i, top) && Joined(bs, i + 1, top) && Joined(bs, if j <= i then j else j + 1, top);
    }
    forall j | 1 <= j < |rs|
      ensures BackLinkKept(bs, rs, j) && BackLink(rs, j)
    {
      WithinTop(bs, top, i);
      if j <= i {
        assert BackLink(bs, j);
        assert rs[j].addr == bs[j].addr && rs[j].prev == bs[j].prev && rs[j - 1].addr == bs[j - 1].addr;
      } else if j > i + 1 {
        assert BackLink(bs, j + 1);
        assert rs[j] == bs[j + 1] && rs[j - 1].addr == bs[j].addr;
      }
    }
    forall j | 0 <= j < |bs| && j != i + 1 ensures IsLive(rs, bs[j].addr) {
      assert rs[if j <= i then j else j - 1].addr == bs[j].addr;
    }
  }

  // ----- The bytes

  function StatusHeap(h: Heap, i: int, used: bool): (r: Heap)
    requires 0 <= i < |h.blocks| && InRange(h.mem, h.blocks[i].addr)
  {
    Heap(StoreTag(h.mem, h.blocks[i].addr + 4, if used then USED else FREE), h.blocks[i := h.blocks[i].(used := used)])
  }

  lemma StatusInv(h: Heap, i: int, used: bool)
    requires Inv(h) && 0 <= i < |h.blocks|
    ensures Inv(StatusHeap(h, i, used)) && SameOutside(h.mem, StatusHeap(h, i, used).mem, StatusHeap(h, i, used).blocks)
  {
    hide Bytes.Word, Bytes.StoreTag, BackLinksKept, KeepsUsed;
    var r := StatusHeap(h, i, used);
    StatusTiled(h.blocks, |h.mem|, i, used);
    StoreStatus(h.mem, h.blocks[i], used);
    forall j | 0 <= j < |r.blocks| && j != i ensures Holds(r.mem, r.blocks[j]) {
      Apart(h.blocks, |h.mem|, i, j);
      HoldsFrame(h.mem, r.mem, h.blocks[j]);
    }
    assert r.blocks[i].addr == h.blocks[i].addr;
    InvStep(h, r);
  }

  ghost function SplitHeap(h: Heap, k: int, n: int): (r: Heap)
    requires Inv(h) && 0 <= k < |h.blocks| && 0 <= n && Splits(h.blocks[k], n)
  {
    WithinTop(h.blocks, |h.mem|, k);
    Heap(SplitMem(h.mem, h.blocks[k], n), SplitBlocks(h.blocks, k, n))
  }

  lemma SplitInv(h: Heap, k: int, n: int)
    requires Inv(h) && 0 <= k < |h.blocks| && 0 <= n && Splits(h.blocks[k], n)
    ensures Inv(SplitHeap(h, k, n)) && SameOutside(h.mem, SplitHeap(h, k, n).mem, SplitHeap(h, k, n).blocks)
  {
    hide Bytes.Word, SplitMem, SplitBlocks, BackLinksKept, KeepsUsed;
    var r := SplitHeap(h, k, n);
    WithinTop(h.blocks, |h.mem|, k);
    SplitTiled(h.blocks, |h.mem|, k, n);
    SplitStored(h.mem, h.blocks[k], n);
    SplitIndex(h.blocks, k, n);
    forall j | 0 <= j < |h.blocks| && j != k ensures Holds(r.mem, h.blocks[j]) {
      Apart(h.blocks, |h.mem|, k, j);
      HoldsFrame(h.mem, r.mem, h.blocks[j]);
    }
    assert r.blocks[k].addr == h.blocks[k].addr;
    InvStep(h, r);
  }

  lemma LiveMergeable(h: Heap, i: int)
    requires Inv(h) && 0 <= i < |h.blocks| - 1
    ensures Mergeable(h.mem, h.blocks[i].addr, h.blocks[i + 1].addr)
    ensures MergeGuards(h.mem, h.blocks[i].addr, h.blocks[i + 1].addr) <==> MutualFree(h.blocks, i)
  {
    hide Bytes.Word;
    WithinTop(h.blocks, |h.mem|, i);
    WithinTop(h.blocks, |h.mem|, i + 1);
    assert Joined(h.blocks, i, |h.mem|) && Joined(h.blocks, i + 1, |h.mem|);
    assert Holds(h.mem, h.blocks[i]) && Holds(h.mem, h.blocks[i + 1]);
  }

  ghost function MergeHeap(h: Heap, i: int): (r: Heap)
    requires Inv(h) && 0 <= i < |h.blocks| - 1 && MutualFree(h.blocks, i)
  {
    LiveMergeable(h, i);
    Heap(MergeMem(h.mem, h.blocks[i].addr, h.blocks[i + 1].addr), MergeBlocks(h.blocks, i))
  }

  /** What heap_merge leaves in memory: the widened block, the relinked one above it, and all others as they were. */
  lemma MergeKeeps(h: Heap, i: int)
    requires Inv(h) && 0 <= i < |h.blocks| - 1 && MutualFree(h.blocks, i)
    ensures var r, b, t := MergeHeap(h, i).mem, h.blocks[i], h.blocks[i + 1];
      && |r| == |h.mem|
      && (forall x :: 0 <= x < |r| && r[x] != h.mem[x] ==>
            b.addr <= x < b.addr + HEADER || (t.next != 0 && t.next <= x < t.next + HEADER))
      && Holds(r, b.(next := t.next, size := b.size + HEADER + t.size))
      && (i + 2 < |h.blocks| ==> t.next == h.blocks[i + 2].addr != 0 && Holds(r, h.blocks[i + 2].(prev := b.addr)))
      && (i + 2 == |h.blocks| ==> t.next == 0)
  {
    hide Bytes.Word, MergeMem, MergeBlocks;
    WithinTop(h.blocks, |h.mem|, i + 1);
    LiveMergeable(h, i);
    assert Joined(h.blocks, i, |h.mem|) && Joined(h.blocks, i + 1, |h.mem|);
    MergeStored(h.mem, h.blocks[i], h.blocks[i + 1]);
    assert i + 2 < |h.blocks| ==> Holds(h.mem, h.blocks[i + 2]);
  }

  lemma MergeOther(h: Heap, i: int, j: int)
    requires Inv(h) && 0 <= i < |h.blocks| - 1 && MutualFree(h.blocks, i)
    requires 0 <= j < |h.blocks| && (j < i || j > i + 2)
    ensures Holds(MergeHeap(h, i).mem, h.blocks[j])
  {
    hide Bytes.Word, MergeHeap, MutualFree;
    MergeKeeps(h, i);
    Apart(h.blocks, |h.mem|, i, j);
    if i + 2 < |h.blocks| {
      Apart(h.blocks, |h.mem|, i + 2, j);
    }
    assert Holds(h.mem, h.blocks[j]);
    HoldsFrame(h.mem, MergeHeap(h, i).mem, h.blocks[j]);
  }

  lemma MergeInv(h: Heap, i: int)
    requires Inv(h) && 0 <= i < |h.blocks| - 1 && MutualFree(h.blocks, i)
    ensures Inv(MergeHeap(h, i)) && SameOutside(h.mem, MergeHeap(h, i).mem, MergeHeap(h, i).blocks)
  {
    hide Bytes.Word, MergeMem, MergeBlocks, BackLinksKept, KeepsUsed, Holds;
    var r := MergeHeap(h, i);
    MergeKeeps(h, i);
    MergeTiled(h.blocks, |h.mem|, i);
    MergeIndex(h.blocks, i);
    forall j | 0 <= j < |r.blocks| ensures Holds(r.mem, r.blocks[j]) {
      if j < i {
        MergeOther(h, i, j);
      } else if j > i + 1 {
        MergeOther(h, i, j + 1);
      }
    }
    assert r.blocks[i].addr == h.blocks[i].addr;
    InvStep(h, r);
  }
}
