/** The kernel heap as a list of control blocks laid end to end in a byte memory. */
module HeapModel {
  import opened Bytes
  import opened HeapLayout

  /** The heap region's bytes, and the control blocks reached from heap_root by `next`. */
  datatype Heap = Heap(mem: seq<byte>, blocks: seq<Block>)

  /** The address of the block after entry i, or last when i is the last entry. */
  function After(bs: seq<Block>, i: int, last: int): int
    requires 0 <= i < |bs|
  {
    if i + 1 < |bs| then bs[i + 1].addr else last
  }

  /** Block i ends where the next one starts, and its next field says so. */
  predicate Joined(bs: seq<Block>, i: int, top: int)
    requires 0 <= i < |bs|
  {
    0 <= bs[i].size && bs[i].addr + HEADER + bs[i].size == After(bs, i, top) && bs[i].next == After(bs, i, 0)
  }

  /** The blocks tile the region from the first one up to top. */
  ghost predicate Tiled(bs: seq<Block>, top: int) {
    |bs| > 0 && 0 < bs[0].addr && top <= ADDRESS_LIMIT && forall i :: 0 <= i < |bs| ==> Joined(bs, i, top)
  }

  /** A back link may be out of date, but it never points past the true predecessor. */
  predicate BackLink(bs: seq<Block>, i: int)
    requires 1 <= i < |bs|
  {
    bs[0].addr <= bs[i].prev <= bs[i - 1].addr
  }

  ghost predicate BackLinked(bs: seq<Block>) {
    |bs| > 0 && bs[0].prev == 0 && forall i :: 1 <= i < |bs| ==> BackLink(bs, i)
  }

  ghost predicate Stored(m: seq<byte>, bs: seq<Block>) {
    forall i :: 0 <= i < |bs| ==> Holds(m, bs[i])
  }

  predicate IsLive(bs: seq<Block>, a: int) {
    exists i :: 0 <= i < |bs| && bs[i].addr == a
  }

  /** Every place in the region that looks like an allocated header is one. */
  ghost predicate NoForged(m: seq<byte>, bs: seq<Block>) {
    forall a :: |bs| > 0 && bs[0].addr <= a && Marked(m, a) && IsUsed(m, a) ==> IsLive(bs, a)
  }

  predicate PointsTo(m: seq<byte>, p: int, a: int) {
    Marked(m, p) && Next(m, p) == a
  }

  /** A header found through a back link that points forward again is the true predecessor. */
  predicate NotStale(m: seq<byte>, bs: seq<Block>, i: int)
    requires 1 <= i < |bs|
  {
    PointsTo(m, bs[i].prev, bs[i].addr) ==> bs[i].prev == bs[i - 1].addr
  }

  ghost predicate NoStale(m: seq<byte>, bs: seq<Block>) {
    forall i :: 1 <= i < |bs| ==> NotStale(m, bs, i)
  }

  ghost predicate Inv(h: Heap) {
    Tiled(h.blocks, |h.mem|) && BackLinked(h.blocks) &&
    Stored(h.mem, h.blocks) && NoForged(h.mem, h.blocks) && NoStale(h.mem, h.blocks)
  }

  lemma TiledOf(h: Heap)
    requires Inv(h)
    ensures Tiled(h.blocks, |h.mem|)
  {
  }

  lemma {:induction false} Ascending(bs: seq<Block>, top: int, i: int, j: int)
    requires Tiled(bs, top) && 0 <= i < j < |bs|
    ensures bs[i].addr + HEADER + bs[i].size <= bs[j].addr
    decreases j
  {
    assert Joined(bs, i, top) && Joined(bs, j - 1, top);
    if i + 1 < j {
      Ascending(bs, top, i, j - 1);
    }
  }

  lemma WithinTop(bs: seq<Block>, top: int, i: int)
    requires Tiled(bs, top) && 0 <= i < |bs|
    ensures 0 <= bs[i].size && bs[0].addr <= bs[i].addr && bs[i].addr + HEADER + bs[i].size <= top
  {
    assert Joined(bs, i, top) && Joined(bs, 0, top) && Joined(bs, |bs| - 1, top);
    if 0 < i {
      Ascending(bs, top, 0, i);
    }
    if i < |bs| - 1 {
      Ascending(bs, top, i, |bs| - 1);
    }
  }

  lemma AllAscending(bs: seq<Block>, top: int)
    requires Tiled(bs, top)
    ensures forall i, j :: 0 <= i < j < |bs| ==> bs[i].addr + HEADER + bs[i].size <= bs[j].addr
    ensures forall i :: 0 <= i < |bs| ==>
      0 <= bs[i].size && bs[0].addr <= bs[i].addr && bs[i].addr + HEADER + bs[i].size <= top
  {
    forall i, j | 0 <= i < j < |bs|
      ensures bs[i].addr + HEADER + bs[i].size <= bs[j].addr
    {
      Ascending(bs, top, i, j);
    }
    forall i | 0 <= i < |bs|
      ensures 0 <= bs[i].size && bs[0].addr <= bs[i].addr && bs[i].addr + HEADER + bs[i].size <= top
    {
      WithinTop(bs, top, i);
    }
  }

  /** Two blocks never overlap. */
  lemma Apart(bs: seq<Block>, top: int, i: int, j: int)
    requires Tiled(bs, top) && 0 <= i < |bs| && 0 <= j < |bs| && i != j
    ensures i < j ==> bs[i].addr + HEADER + bs[i].size <= bs[j].addr
    ensures j < i ==> bs[j].addr + HEADER + bs[j].size <= bs[i].addr
    ensures 0 <= bs[i].size && 0 <= bs[j].size
  {
    WithinTop(bs, top, i);
    WithinTop(bs, top, j);
    if i < j {
      Ascending(bs, top, i, j);
    } else {
      Ascending(bs, top, j, i);
    }
  }

  /** m and r agree outside the header windows of the blocks. */
  ghost predicate SameOutside(m: seq<byte>, r: seq<byte>, bs: seq<Block>) {
    |m| == |r| &&
    forall x :: 0 <= x < |m| && m[x] != r[x] ==> exists i :: 0 <= i < |bs| && bs[i].addr <= x < bs[i].addr + HEADER
  }

  /** A live block is a header that keeps every other mark at a distance. */
  lemma LiveHeader(m: seq<byte>, bs: seq<Block>, i: int)
    requires Tiled(bs, |m|) && Stored(m, bs) && 0 <= i < |bs|
    ensures Header(m, bs[i].addr)
  {
    AllAscending(bs, |m|);
    assert Joined(bs, i, |m|);
  }

  lemma MarkBytesFrame(m: seq<byte>, r: seq<byte>, bs: seq<Block>, a: int, x: int)
    requires SameOutside(m, r, bs) && Tiled(bs, |r|) && Stored(r, bs)
    requires Marked(r, a) && !IsLive(bs, a) && a <= x < a + 8
    ensures m[x] == r[x]
  {
    if m[x] != r[x] {
      var i :| 0 <= i < |bs| && bs[i].addr <= x < bs[i].addr + HEADER;
      LiveHeader(r, bs, i);
      MarksApart(r, bs[i].addr, a);
      assert false;
    }
  }

  /** Writing live headers plants no mark anywhere else, and re-aims no dead header at a block. */
  lemma MarkFrame(m: seq<byte>, r: seq<byte>, bs: seq<Block>, a: int)
    requires SameOutside(m, r, bs) && Tiled(bs, |r|) && Stored(r, bs)
    requires Marked(r, a) && !IsLive(bs, a)
    ensures Marked(m, a) && (IsUsed(m, a) <==> IsUsed(r, a))
    ensures Next(r, a) == Next(m, a) || Next(r, a) >= ADDRESS_LIMIT
  {
    hide Bytes.Word, Bytes.Store, Bytes.StoreTag, Bytes.Wrap;
    forall x | a <= x < a + 8 ensures m[x] == r[x] {
      MarkBytesFrame(m, r, bs, a, x);
    }
    if exists x :: a + 8 <= x < a + 12 && m[x] != r[x] {
      var x :| a + 8 <= x < a + 12 && m[x] != r[x];
      var i :| 0 <= i < |bs| && bs[i].addr <= x < bs[i].addr + HEADER;
      LiveHeader(r, bs, i);
      MarksApart(r, bs[i].addr, a);
      NextAcross(r, bs[i].addr, a);
    } else {
      WordFrame(m, r, a + 8);
    }
  }

  /** Block i's back link is exact, or it is the one it had before and its predecessor is still there. */
  predicate BackLinkKept(bs: seq<Block>, rs: seq<Block>, i: int)
    requires 1 <= i < |rs|
  {
    rs[i].prev == rs[i - 1].addr ||
    exists j :: 1 <= j < |bs| && bs[j].addr == rs[i].addr && bs[j].prev == rs[i].prev && IsLive(rs, bs[j - 1].addr)
  }

  ghost predicate BackLinksKept(bs: seq<Block>, rs: seq<Block>) {
    forall i :: 1 <= i < |rs| ==> BackLinkKept(bs, rs, i)
  }

  /** Every allocated block is still there. */
  ghost predicate KeepsUsed(bs: seq<Block>, rs: seq<Block>) {
    forall j :: 0 <= j < |bs| && bs[j].used ==> IsLive(rs, bs[j].addr)
  }

  lemma LiveSuccessor(m: seq<byte>, bs: seq<Block>, p: int, i: int)
    requires Tiled(bs, |m|) && Stored(m, bs) && 1 <= i < |bs| && IsLive(bs, p) && PointsTo(m, p, bs[i].addr)
    ensures p == bs[i - 1].addr
  {
    hide Bytes.Word, Bytes.Store, Bytes.StoreTag, Bytes.Wrap;
    AllAscending(bs, |m|);
    var k :| 0 <= k < |bs| && bs[k].addr == p;
    assert Joined(bs, k, |m|);
  }

  /** A dead header at an out-of-date back link does not point forward to the block. */
  lemma DeadBackLink(h: Heap, r: Heap, i: int)
    requires Inv(h) && Tiled(r.blocks, |r.mem|) && Stored(r.mem, r.blocks) && SameOutside(h.mem, r.mem, r.blocks)
    requires 1 <= i < |r.blocks| && BackLinkKept(h.blocks, r.blocks, i)
    ensures IsLive(r.blocks, r.blocks[i].prev) || !PointsTo(r.mem, r.blocks[i].prev, r.blocks[i].addr)
  {
    hide Bytes.Word, Bytes.Store, Bytes.StoreTag, Bytes.Wrap;
    var p := r.blocks[i].prev;
    if !IsLive(r.blocks, p) && Marked(r.mem, p) {
      MarkFrame(h.mem, r.mem, r.blocks, p);
      WithinTop(r.blocks, |r.mem|, i);
      var j :| 1 <= j < |h.blocks| && h.blocks[j].addr == r.blocks[i].addr && h.blocks[j].prev == p &&
               IsLive(r.blocks, h.blocks[j - 1].addr);
      assert NotStale(h.mem, h.blocks, j);
    }
  }

  /** The one induction step behind every allocator operation. */
  lemma InvStep(h: Heap, r: Heap)
    requires Inv(h) && Tiled(r.blocks, |r.mem|) && BackLinked(r.blocks) && Stored(r.mem, r.blocks)
    requires SameOutside(h.mem, r.mem, r.blocks) && r.blocks[0].addr == h.blocks[0].addr
    requires BackLinksKept(h.blocks, r.blocks) && KeepsUsed(h.blocks, r.blocks)
    ensures Inv(r)
  {
    forall a | r.blocks[0].addr <= a && Marked(r.mem, a) && !IsLive(r.blocks, a)
      ensures !IsUsed(r.mem, a)
    {
      MarkFrame(h.mem, r.mem, r.blocks, a);
      if IsLive(h.blocks, a) {
        var j :| 0 <= j < |h.blocks| && h.blocks[j].addr == a;
        assert Holds(h.mem, h.blocks[j]);
      }
    }
    forall i | 1 <= i < |r.blocks| ensures NotStale(r.mem, r.blocks, i) {
      DeadBackLink(h, r, i);
      if PointsTo(r.mem, r.blocks[i].prev, r.blocks[i].addr) {
        LiveSuccessor(r.mem, r.blocks, r.blocks[i].prev, i);
      }
    }
  }
}
