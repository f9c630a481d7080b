/** Histories of calls, taken apart and put together, and the buffers that are outstanding in them. */
module HeapHistories {
  import opened Bytes
  import opened HeapLayout
  import opened HeapModel
  import opened HeapOps
  import opened HeapInvariant
  import opened HeapBlocks
  import opened HeapRuns

  lemma {:induction false} RunExtend(h: Heap, ops: seq<Op>, op: Op)
    requires Inv(h) && LegalRun(h, ops) && Inv(Run(h, ops)) && Legal(Run(h, ops), op)
    ensures LegalRun(h, ops + [op]) && Run(h, ops + [op]) == Apply(Run(h, ops), op)
    decreases |ops|
  {
    hide Inv, Legal, Apply;
    if |ops| == 0 {
      assert ops + [op] == [op] && [op][1..] == [];
      ApplyInv(h, op);
    } else {
      ApplyInv(h, ops[0]);
      assert (ops + [op])[1..] == ops[1..] + [op];
      RunExtend(Apply(h, ops[0]), ops[1..], op);
    }
  }

  /** A run is its first k calls followed by the others. */
  lemma {:induction false} RunSplit(h: Heap, ops: seq<Op>, k: int)
    requires Inv(h) && LegalRun(h, ops) && 0 <= k <= |ops|
    ensures LegalRun(h, ops[..k]) && Inv(Run(h, ops[..k]))
    ensures LegalRun(Run(h, ops[..k]), ops[k..]) && Run(h, ops) == Run(Run(h, ops[..k]), ops[k..])
    decreases k
  {
    hide Inv, Legal, Apply;
    if k == 0 {
      assert ops[..0] == [] && ops[0..] == ops;
    } else {
      ApplyInv(h, ops[0]);
      assert ops[..k][0] == ops[0] && ops[..k][1..] == ops[1..][..k - 1] && ops[1..][k - 1..] == ops[k..];
      RunSplit(Apply(h, ops[0]), ops[1..], k - 1);
    }
  }

  /** One call of a run: it is legal where it happens, and it leads to where the run goes on. */
  lemma RunStep(h: Heap, ops: seq<Op>, k: int)
    requires Inv(h) && LegalRun(h, ops) && 0 <= k < |ops|
    ensures LegalRun(h, ops[..k]) && Inv(Run(h, ops[..k])) && LegalRun(h, ops[..k + 1]) && Inv(Run(h, ops[..k + 1]))
    ensures Legal(Run(h, ops[..k]), ops[k]) && Run(h, ops[..k + 1]) == Apply(Run(h, ops[..k]), ops[k])
  {
    hide Inv, Legal, Apply, Run;
    RunSplit(h, ops, k);
    RunSplit(h, ops, k + 1);
    assert ops[k..][0] == ops[k] && ops[..k + 1] == ops[..k] + [ops[k]];
    RunExtend(h, ops[..k], ops[k]);
  }

  // ----- Histories of the block list

  /** What an operation does to the list of blocks. */
  function OpBlocks(bs: seq<Block>, op: Op): seq<Block> {
    match op
    case Alloc(size) => AllocBlocks(bs, size)
    case Free(ptr) =>
      var i := OwnerOf(bs, ptr - HEADER, 0);
      if i < |bs| then FreeBlocks(bs, i) else bs
    case Write(_, _) => bs
  }

  function OpsBlocks(bs: seq<Block>, ops: seq<Op>): seq<Block>
    decreases |ops|
  {
    if |ops| == 0 then bs else OpsBlocks(OpBlocks(bs, ops[0]), ops[1..])
  }

  lemma {:induction false} OpsConcat(bs: seq<Block>, xs: seq<Op>, ys: seq<Op>)
    ensures OpsBlocks(bs, xs + ys) == OpsBlocks(OpsBlocks(bs, xs), ys)
    decreases |xs|
  {
    hide OpBlocks;
    if |xs| == 0 {
      assert xs + ys == ys;
    } else {
      assert (xs + ys)[0] == xs[0] && (xs + ys)[1..] == xs[1..] + ys;
      OpsConcat(OpBlocks(bs, xs[0]), xs[1..], ys);
    }
  }

  lemma {:induction false} ThreeOps(bs: seq<Block>, x: Op, y: Op, z: Op)
    ensures OpsBlocks(bs, [x, y, z]) == OpBlocks(OpBlocks(OpBlocks(bs, x), y), z)
  {
    hide OpBlocks;
    assert [x, y, z][1..] == [y, z] && [y, z][1..] == [z] && [z][1..] == [];
    var b1 := OpBlocks(bs, x);
    var b2 := OpBlocks(b1, y);
    assert OpsBlocks(OpBlocks(b2, z), []) == OpBlocks(b2, z);
    assert OpsBlocks(b2, [z]) == OpBlocks(b2, z);
    assert OpsBlocks(b1, [y, z]) == OpsBlocks(b2, [z]);
  }

  lemma ApplyBlocks(h: Heap, op: Op)
    requires Inv(h) && Legal(h, op)
    ensures Apply(h, op).blocks == OpBlocks(h.blocks, op)
  {
    hide Inv, AllocHeap, AllocBlocks, FreeHeapAt, FreeBlocks, LooksAllocated, SameOutside;
    match op
    case Alloc(size) => AllocInv(h, size);
    case Free(ptr) =>
      FreeAcceptsExactly(h, ptr);
      if LooksAllocated(h.mem, ptr) {
        FreeAtBlocks(h, OwnerOf(h.blocks, ptr - HEADER, 0));
      }
    case Write(_, _) =>
  }

  /** The bytes follow the list of blocks through every history. */
  lemma {:induction false} RunBlocks(h: Heap, ops: seq<Op>)
    requires Inv(h) && LegalRun(h, ops)
    ensures Run(h, ops).blocks == OpsBlocks(h.blocks, ops)
    decreases |ops|
  {
    hide Inv, Legal, Apply, OpBlocks;
    if |ops| > 0 {
      ApplyInv(h, ops[0]);
      ApplyBlocks(h, ops[0]);
      RunBlocks(Apply(h, ops[0]), ops[1..]);
    }
  }

  /** heap_free of what heap_alloc has just returned: every address, size and status is restored if and only if the
      chosen block had no mutually linked free neighbour to be swallowed. */
  lemma FreeUndoesAllocOnHeap(h: Heap, n: word)
    requires Inv(h) && AllocResult(h.blocks, n) != 0
    ensures var ptr := AllocResult(h.blocks, n);
      && Inv(AllocHeap(h, n)) && Releasable(AllocHeap(h, n), ptr)
      && (SameLayout(h.blocks, FreeHeap(AllocHeap(h, n), ptr).blocks) <==>
          Settled(h.blocks, FirstFit(h.blocks, n, 0), n))
  {
    hide Inv, Tiled, Releasable, AllocHeap, FreeHeap, AllocBlocks, FreeBlocks, SameLayout, Settled, SameOutside;
    var k, ptr := FirstFit(h.blocks, n, 0), AllocResult(h.blocks, n);
    AllocInv(h, n);
    AllocKeepsRegion(h, n);
    var r := AllocHeap(h, n);
    TiledOf(h);
    TiledOf(r);
    TakenIndex(h.blocks, |h.mem|, n);
    TakenInHeap(r, k);
    FreeUndoesAlloc(h.blocks, n);
    ApplyBlocks(r, Free(ptr));
  }

  /** The block that heap_alloc takes keeps its position. */
  lemma TakenIndex(bs: seq<Block>, top: int, n: word)
    requires Tiled(bs, top) && FirstFit(bs, n, 0) < |bs| && Tiled(AllocBlocks(bs, n), top)
    ensures var k, rs := FirstFit(bs, n, 0), AllocBlocks(bs, n);
      k < |rs| && rs[k].addr == bs[k].addr && OwnerOf(rs, bs[k].addr, 0) == k
  {
    var k, rs := FirstFit(bs, n, 0), AllocBlocks(bs, n);
    if Splits(bs[k], n) {
      SplitIndex(bs, k, n);
    }
    hide AllocBlocks;
    AllAscending(rs, top);
  }

  lemma TakenInHeap(h: Heap, k: int)
    requires Inv(h) && 0 <= k < |h.blocks|
    ensures Releasable(h, h.blocks[k].addr + HEADER)
  {
    WithinTop(h.blocks, |h.mem|, k);
  }

  // ----- Outstanding buffers

  lemma StepKeepsBlock(h: Heap, op: Op, a: int, size: int)
    requires Inv(h) && Legal(h, op) && HasBuffer(h.blocks, a, size) && op != Free(a + HEADER)
    ensures HasBuffer(Apply(h, op).blocks, a, size)
  {
    hide Inv, AllocHeap, FreeHeap, HasBuffer, ForgesNothing, SameData;
    match op
    case Alloc(n) => AllocKeepsBuffer(h, n, a, size);
    case Free(ptr) => FreeKeepsBuffer(h, ptr, a, size);
    case Write(_, _) =>
  }

  /** A buffer stays in use until it is freed, whatever else is called and whoever writes. */
  lemma {:induction false} RunKeepsBlock(h: Heap, ops: seq<Op>, a: int, size: int)
    requires Inv(h) && LegalRun(h, ops) && HasBuffer(h.blocks, a, size)
    requires forall i :: 0 <= i < |ops| ==> ops[i] != Free(a + HEADER)
    ensures HasBuffer(Run(h, ops).blocks, a, size)
    decreases |ops|
  {
    hide Inv, Apply, Legal, HasBuffer;
    if |ops| > 0 {
      ApplyInv(h, ops[0]);
      StepKeepsBlock(h, ops[0], a, size);
      RunKeepsBlock(Apply(h, ops[0]), ops[1..], a, size);
    }
  }

  /** What heap_alloc returns is large enough. */
  lemma FreshBuffer(bs: seq<Block>, n: word) returns (size: int)
    requires AllocResult(bs, n) != 0
    ensures n <= size && HasBuffer(AllocBlocks(bs, n), AllocResult(bs, n) - HEADER, size)
  {
    var k := FirstFit(bs, n, 0);
    if Splits(bs[k], n) {
      SplitIndex(bs, k, n);
    }
    size := AllocBlocks(bs, n)[k].size;
    assert IsBuffer(AllocBlocks(bs, n)[k], bs[k].addr, size);
  }

  /** And it was not in use before. */
  lemma NotInUse(bs: seq<Block>, top: int, n: word, a: int, size: int)
    requires Tiled(bs, top) && HasBuffer(bs, a, size) && AllocResult(bs, n) != 0
    ensures AllocResult(bs, n) != a + HEADER
  {
    var k := FirstFit(bs, n, 0);
    var i :| 0 <= i < |bs| && IsBuffer(bs[i], a, size);
    Apart(bs, top, i, k);
  }

  lemma BuffersApart(bs: seq<Block>, top: int, a: int, size: int, b: int, length: int)
    requires Tiled(bs, top) && HasBuffer(bs, a, size) && HasBuffer(bs, b, length) && a != b
    ensures a + HEADER + size <= b || b + HEADER + length <= a
  {
    var i :| 0 <= i < |bs| && IsBuffer(bs[i], a, size);
    var j :| 0 <= j < |bs| && IsBuffer(bs[j], b, length);
    BuffersDisjoint(bs, top, i, j);
  }

  /** What the k-th call of a run returns. */
  ghost function ResultAt(h: Heap, ops: seq<Op>, k: int): int
    requires Inv(h) && LegalRun(h, ops) && 0 <= k < |ops|
  {
    RunSplit(h, ops, k);
    CallResult(Run(h, ops[..k]), ops[k])
  }

  /** Two buffers handed out in a run share no byte, unless the first was freed before the second was given. */
  lemma OutstandingDisjoint(h: Heap, ops: seq<Op>, j: int, k: int)
    requires Inv(h) && LegalRun(h, ops) && 0 <= j < k < |ops| && ops[j].Alloc? && ops[k].Alloc?
    requires ResultAt(h, ops, j) != 0 && ResultAt(h, ops, k) != 0
    requires forall i :: j < i < k ==> ops[i] != Free(ResultAt(h, ops, j))
    ensures var p, q := ResultAt(h, ops, j), ResultAt(h, ops, k); p + ops[j].size <= q || q + ops[k].size <= p
  {
    hide Inv, Legal, LegalRun, Run, AllocResult, AllocHeap, AllocBlocks, HasBuffer, SameOutside, Tiled;
    var p, q := ResultAt(h, ops, j), ResultAt(h, ops, k);
    RunStep(h, ops, j);
    RunStep(h, ops, k);
    var f, g := Run(h, ops[..j]), Run(h, ops[..k]);
    AllocInv(f, ops[j].size);
    var size := FreshBuffer(f.blocks, ops[j].size);
    RunSplit(h, ops[..k], j + 1);
    assert ops[..k][..j + 1] == ops[..j + 1];
    RunKeepsBlock(Run(h, ops[..j + 1]), ops[..k][j + 1..], p - HEADER, size);
    SecondAlloc(g, ops[k].size, p - HEADER, size);
  }

  lemma SecondAlloc(g: Heap, n: word, a: int, size: int)
    requires Inv(g) && HasBuffer(g.blocks, a, size) && AllocResult(g.blocks, n) != 0
    ensures a + HEADER + size <= AllocResult(g.blocks, n) || AllocResult(g.blocks, n) + n <= a + HEADER
  {
    AllocInv(g, n);
    var r := AllocHeap(g, n);
    assert Tiled(g.blocks, |g.mem|) && Tiled(r.blocks, |r.mem|);
    hide Inv, AllocResult, AllocHeap, AllocBlocks, HasBuffer, SameOutside, Tiled;
    var length := FreshBuffer(g.blocks, n);
    NotInUse(g.blocks, |g.mem|, n, a, size);
    AllocKeepsBuffer(g, n, a, size);
    BuffersApart(r.blocks, |r.mem|, a, size, AllocResult(g.blocks, n) - HEADER, length);
  }
}
