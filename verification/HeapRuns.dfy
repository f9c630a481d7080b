/** Whole runs of the kernel heap: allocations, releases and client writes in any order. */
module HeapRuns {
  import opened Bytes
  import opened Sequences
  import opened HeapLayout
  import opened HeapModel
  import opened HeapOps
  import opened HeapInvariant
  import opened HeapBlocks

  // ----- heap_alloc

  ghost function AllocHeap(h: Heap, n: int): (r: Heap)
    requires Inv(h) && 0 <= n
  {
    var k := FirstFit(h.blocks, n, 0);
    if k == |h.blocks| then h else if Splits(h.blocks[k], n) then SplitHeap(h, k, n) else StatusHeap(h, k, true)
  }

  /** The pointer heap_alloc returns: past the control block of the first fit, or NULL. */
  function AllocResult(bs: seq<Block>, n: int): int {
    var k := FirstFit(bs, n, 0);
    if k == |bs| then 0 else bs[k].addr + HEADER
  }

  lemma AllocInv(h: Heap, n: int)
    requires Inv(h) && 0 <= n
    ensures Inv(AllocHeap(h, n)) && AllocHeap(h, n).blocks == AllocBlocks(h.blocks, n)
    ensures SameOutside(h.mem, AllocHeap(h, n).mem, AllocHeap(h, n).blocks)
  {
    var k := FirstFit(h.blocks, n, 0);
    if k < |h.blocks| {
      if Splits(h.blocks[k], n) {
        SplitInv(h, k, n);
      } else {
        StatusInv(h, k, true);
      }
    }
  }

  /** heap_alloc fails exactly when no free block is large enough; otherwise it takes the lowest one. */
  lemma AllocExact(bs: seq<Block>, top: int, n: int)
    requires Tiled(bs, top) && 0 <= n
    ensures AllocResult(bs, n) == 0 <==> forall j :: 0 <= j < |bs| ==> !Fits(bs[j], n)
    ensures AllocResult(bs, n) != 0 ==>
      exists i, k :: 0 <= i < |bs| && 0 <= k < |AllocBlocks(bs, n)| && Fits(bs[i], n) &&
        AllocResult(bs, n) == bs[i].addr + HEADER && Owns(AllocBlocks(bs, n)[k], bs[i].addr) &&
        n <= AllocBlocks(bs, n)[k].size <= n + SPLIT_SLACK &&
        forall j :: 0 <= j < |bs| && Fits(bs[j], n) ==> bs[i].addr <= bs[j].addr
  {
    var k := FirstFit(bs, n, 0);
    AllAscending(bs, top);
    if k < |bs| {
      if Splits(bs[k], n) {
        SplitIndex(bs, k, n);
      }
      assert Fits(bs[k], n) && Owns(AllocBlocks(bs, n)[k], bs[k].addr);
    }
  }

  /** Block i is the lowest one that is free and has at least n bytes. */
  ghost predicate LowestFit(bs: seq<Block>, n: int, i: int) {
    0 <= i < |bs| && !bs[i].used && bs[i].size >= n && forall j :: 0 <= j < i ==> bs[j].used || bs[j].size < n
  }

  /** What heap_alloc makes of the lowest block that fits. With 22 bytes or more to spare the block is cut: it keeps n
      bytes, and the rest, less the twenty of a control block, is a free block behind it. Else it is taken whole. */
  lemma AllocByNumbers(bs: seq<Block>, n: word, i: int)
    requires LowestFit(bs, n, i)
    ensures AllocResult(bs, n) == bs[i].addr + 20
    ensures var rs, size := AllocBlocks(bs, n), bs[i].size;
      if size >= n + 22 then
        && |rs| == |bs| + 1 && (forall j :: 0 <= j < i ==> rs[j] == bs[j])
        && rs[i] == Block(bs[i].addr, n, true, bs[i].addr + 20 + n, bs[i].prev)
        && rs[i + 1] == Block(bs[i].addr + 20 + n, size - n - 20, false, bs[i].next, bs[i].addr)
        && (forall j :: i + 2 <= j < |rs| ==> rs[j] == bs[j - 1])
      else
        rs == bs[i := Block(bs[i].addr, size, true, bs[i].next, bs[i].prev)]
  {
    assert Fits(bs[i], n) && forall j :: 0 <= j < i ==> !Fits(bs[j], n);
    assert FirstFit(bs, n, 0) == i;
    if Splits(bs[i], n) {
      SplitIndex(bs, i, n);
    }
  }

  /** heap_alloc returns NULL exactly when every block is in use or too small. */
  lemma AllocNull(bs: seq<Block>, top: int, n: word)
    requires Tiled(bs, top)
    ensures AllocResult(bs, n) == 0 <==> forall j :: 0 <= j < |bs| ==> bs[j].used || bs[j].size < n
  {
    AllocExact(bs, top, n);
    assert forall j :: 0 <= j < |bs| ==> (Fits(bs[j], n) <==> !(bs[j].used || bs[j].size < n));
  }

  /** Block b is the allocated block at address a. */
  predicate Owns(b: Block, a: int) {
    b.used && b.addr == a
  }

  // ----- heap_free

  /** heap_merge on neighbours i and i + 1, when there is a block i + 1. */
  ghost function MergeUp(h: Heap, i: int): (r: Heap)
    requires Inv(h) && 0 <= i
  {
    if i + 1 < |h.blocks| && MutualFree(h.blocks, i) then MergeHeap(h, i) else h
  }

  lemma MergeUpInv(h: Heap, i: int)
    requires Inv(h) && 0 <= i
    ensures Inv(MergeUp(h, i)) && SameOutside(h.mem, MergeUp(h, i).mem, MergeUp(h, i).blocks)
    ensures |MergeUp(h, i).mem| == |h.mem| && |MergeUp(h, i).blocks| > 0 &&
      MergeUp(h, i).blocks[0].addr == h.blocks[0].addr
    ensures MergeUp(h, i).blocks ==
      if i + 1 < |h.blocks| && MutualFree(h.blocks, i) then MergeBlocks(h.blocks, i) else h.blocks
  {
    if i + 1 < |h.blocks| && MutualFree(h.blocks, i) {
      MergeInv(h, i);
    }
  }

  /** The two merges of heap_free, once block i is marked free. */
  ghost function Coalesce(h: Heap, i: int): (r: Heap)
    requires Inv(h) && 0 <= i
  {
    MergeUpInv(h, i);
    if i > 0 then MergeUp(MergeUp(h, i), i - 1) else MergeUp(h, i)
  }

  lemma CoalesceInv(h: Heap, i: int)
    requires Inv(h) && 0 <= i < |h.blocks|
    ensures Inv(Coalesce(h, i)) && |Coalesce(h, i).mem| == |h.mem|
    ensures |Coalesce(h, i).blocks| > 0 && Coalesce(h, i).blocks[0].addr == h.blocks[0].addr
  {
    hide Inv, MergeBlocks, MergeHeap, MergeUp, SameOutside;
    MergeUpInv(h, i);
    if i > 0 {
      MergeUpInv(MergeUp(h, i), i - 1);
    }
  }

  lemma CoalesceBlocks(h: Heap, i: int)
    requires Inv(h) && 0 <= i < |h.blocks|
    ensures var bs2 := if i + 1 < |h.blocks| && MutualFree(h.blocks, i) then MergeBlocks(h.blocks, i) else h.blocks;
      && i < |bs2|
      && Coalesce(h, i).blocks == if i > 0 && MutualFree(bs2, i - 1) then MergeBlocks(bs2, i - 1) else bs2
  {
    hide Inv, MergeBlocks, MergeHeap, MergeUp, SameOutside;
    MergeUpInv(h, i);
    if i + 1 < |h.blocks| {
      MergeIndex(h.blocks, i);
    }
    if i > 0 {
      MergeUpInv(MergeUp(h, i), i - 1);
    }
  }

  ghost function FreeHeapAt(h: Heap, i: int): (r: Heap)
    requires Inv(h) && 0 <= i < |h.blocks|
  {
    StatusInv(h, i, false);
    Coalesce(StatusHeap(h, i, false), i)
  }

  lemma FreeAtBlocks(h: Heap, i: int)
    requires Inv(h) && 0 <= i < |h.blocks|
    ensures FreeHeapAt(h, i).blocks == FreeBlocks(h.blocks, i)
  {
    assert InRange(h.mem, h.blocks[i].addr) by { assert Holds(h.mem, h.blocks[i]); }
    hide Inv, MergeBlocks, Coalesce, Bytes.StoreTag;
    StatusInv(h, i, false);
    CoalesceBlocks(StatusHeap(h, i, false), i);
  }

  lemma FreeAtInv(h: Heap, i: int)
    requires Inv(h) && 0 <= i < |h.blocks|
    ensures Inv(FreeHeapAt(h, i)) && |FreeHeapAt(h, i).mem| == |h.mem|
    ensures |FreeHeapAt(h, i).blocks| > 0 && FreeHeapAt(h, i).blocks[0].addr == h.blocks[0].addr
  {
    assert InRange(h.mem, h.blocks[i].addr) by { assert Holds(h.mem, h.blocks[i]); }
    hide Inv, Coalesce, Bytes.StoreTag;
    StatusInv(h, i, false);
    CoalesceInv(StatusHeap(h, i, false), i);
  }

  /** The test heap_free makes on the twenty bytes in front of the pointer. */
  predicate LooksAllocated(m: seq<byte>, ptr: int) {
    InRange(m, ptr - HEADER) && HasMagic(m, ptr - HEADER) && IsUsed(m, ptr - HEADER)
  }

  /** There are twenty bytes in front of the pointer, and they look allocated only if they lie in the heap. */
  predicate Releasable(h: Heap, ptr: int) {
    |h.blocks| > 0 && HEADER <= ptr <= |h.mem| && (LooksAllocated(h.mem, ptr) ==> h.blocks[0].addr + HEADER <= ptr)
  }

  /** heap_free's test succeeds on the buffers in use and on nothing else, whatever pointer it is given. */
  lemma FreeAcceptsExactly(h: Heap, ptr: int)
    requires Inv(h) && Releasable(h, ptr)
    ensures LooksAllocated(h.mem, ptr) <==> exists i :: 0 <= i < |h.blocks| && Owns(h.blocks[i], ptr - HEADER)
  {
    hide Bytes.Word;
    forall i | 0 <= i < |h.blocks| && Owns(h.blocks[i], ptr - HEADER) ensures LooksAllocated(h.mem, ptr) {
      assert Holds(h.mem, h.blocks[i]);
    }
    if LooksAllocated(h.mem, ptr) {
      assert Marked(h.mem, ptr - HEADER) && IsLive(h.blocks, ptr - HEADER);
      var i :| 0 <= i < |h.blocks| && h.blocks[i].addr == ptr - HEADER;
      assert Holds(h.mem, h.blocks[i]);
      assert Owns(h.blocks[i], ptr - HEADER);
    }
  }

  /** The index at or after i of the allocated block at address a, or the number of blocks. */
  function OwnerOf(bs: seq<Block>, a: int, i: int): (k: int)
    requires 0 <= i <= |bs|
    ensures i <= k <= |bs| && (k < |bs| ==> Owns(bs[k], a))
    ensures k == |bs| ==> forall j :: i <= j < |bs| ==> !Owns(bs[j], a)
    decreases |bs| - i
  {
    if i == |bs| || Owns(bs[i], a) then i else OwnerOf(bs, a, i + 1)
  }

  ghost function FreeHeap(h: Heap, ptr: int): (r: Heap)
    requires Inv(h) && Releasable(h, ptr)
  {
    FreeAcceptsExactly(h, ptr);
    if !LooksAllocated(h.mem, ptr) then h else
    FreeHeapAt(h, OwnerOf(h.blocks, ptr - HEADER, 0))
  }

  lemma FreeInv(h: Heap, ptr: int)
    requires Inv(h) && Releasable(h, ptr)
    ensures Inv(FreeHeap(h, ptr)) && |FreeHeap(h, ptr).mem| == |h.mem| &&
      FreeHeap(h, ptr).blocks[0].addr == h.blocks[0].addr
  {
    hide FreeHeapAt, Bytes.Word;
    FreeAcceptsExactly(h, ptr);
    if LooksAllocated(h.mem, ptr) {
      FreeAtInv(h, OwnerOf(h.blocks, ptr - HEADER, 0));
    }
  }

  /** Whatever a back link points at, heap_merge's tests pass only on the live block right below. */
  lemma StaleLinkNeverMerges(h: Heap, i: int)
    requires Inv(h) && 1 <= i < |h.blocks|
    ensures Mergeable(h.mem, h.blocks[i].prev, h.blocks[i].addr)
    ensures MergeGuards(h.mem, h.blocks[i].prev, h.blocks[i].addr) <==> MutualFree(h.blocks, i - 1)
  {
    hide Bytes.Word;
    LiveMergeable(h, i - 1);
    WithinTop(h.blocks, |h.mem|, i - 1);
    WithinTop(h.blocks, |h.mem|, i);
    assert BackLink(h.blocks, i) && NotStale(h.mem, h.blocks, i) && Holds(h.mem, h.blocks[i]);
  }

  // ----- Client writes

  /** What looks like a control block at a looked the same before. */
  predicate LookedSame(m: seq<byte>, r: seq<byte>, a: int)
    requires InRange(r, a)
  {
    Marked(m, a) && Next(r, a) == Next(m, a) && (IsUsed(r, a) <==> IsUsed(m, a))
  }

  /** The write forges no control block: it plants nothing that looks allocated or leads to a live block. Dead control
      blocks in the buffer may be overwritten in any other way, in part or whole. */
  ghost predicate ForgesNothing(m: seq<byte>, r: seq<byte>, bs: seq<Block>) {
    |m| == |r| && forall a :: Marked(r, a) && (IsUsed(r, a) || IsLive(bs, Next(r, a))) ==> LookedSame(m, r, a)
  }

  /** Bytes at..at + len lie inside the buffer of an allocated block. */
  predicate InsideBuffer(b: Block, at: int, len: int) {
    b.used && b.addr + HEADER <= at && at + len <= b.addr + HEADER + b.size
  }

  lemma WriteInv(h: Heap, i: int, at: int, data: seq<byte>)
    requires Inv(h) && 0 <= i < |h.blocks| && InsideBuffer(h.blocks[i], at, |data|) && 0 <= at && at + |data| <= |h.mem|
    requires ForgesNothing(h.mem, Splice(h.mem, at, data), h.blocks)
    ensures Inv(Heap(Splice(h.mem, at, data), h.blocks))
  {
    hide Bytes.Word, Splice;
    var r := Splice(h.mem, at, data);
    forall j | 0 <= j < |h.blocks| ensures Holds(r, h.blocks[j]) {
      if j != i {
        Apart(h.blocks, |h.mem|, i, j);
      }
      HoldsFrame(h.mem, r, h.blocks[j]);
    }
    forall j | 1 <= j < |h.blocks| ensures NotStale(r, h.blocks, j) {
      assert NotStale(h.mem, h.blocks, j) && IsLive(h.blocks, h.blocks[j].addr);
    }
  }

  // ----- Runs

  datatype Op = Alloc(size: word) | Free(ptr: int) | Write(at: int, data: seq<byte>)

  /** What callers may do: allocate, free any pointer that finds no forged control block below the heap, and write
      inside buffers without forging headers. */
  ghost predicate Legal(h: Heap, op: Op) {
    match op
    case Alloc(_) => true
    case Free(ptr) => Releasable(h, ptr)
    case Write(at, data) =>
      0 <= at && at + |data| <= |h.mem| && ForgesNothing(h.mem, Splice(h.mem, at, data), h.blocks) &&
      exists i :: 0 <= i < |h.blocks| && InsideBuffer(h.blocks[i], at, |data|)
  }

  ghost function Apply(h: Heap, op: Op): (r: Heap)
    requires Inv(h) && Legal(h, op)
  {
    match op
    case Alloc(size) => AllocHeap(h, size)
    case Free(ptr) => FreeHeap(h, ptr)
    case Write(at, data) => Heap(Splice(h.mem, at, data), h.blocks)
  }

  /** What a call returns: the buffer that heap_alloc gives, nothing for the others. */
  function CallResult(h: Heap, op: Op): int {
    if op.Alloc? then AllocResult(h.blocks, op.size) else 0
  }

  lemma ApplyInv(h: Heap, op: Op)
    requires Inv(h) && Legal(h, op)
    ensures Inv(Apply(h, op)) && |Apply(h, op).mem| == |h.mem| && Apply(h, op).blocks[0].addr == h.blocks[0].addr
  {
    hide Inv, AllocHeap, FreeHeap, Splice, ForgesNothing, Releasable;
    match op
    case Alloc(size) => AllocKeepsRegion(h, size);
    case Free(ptr) => FreeInv(h, ptr);
    case Write(at, data) =>
      var i :| 0 <= i < |h.blocks| && InsideBuffer(h.blocks[i], at, |data|);
      WriteInv(h, i, at, data);
      Filled(h);
  }

  lemma Filled(h: Heap)
    requires Inv(h)
    ensures |h.blocks| > 0
  {
  }

  lemma AllocKeepsRegion(h: Heap, n: int)
    requires Inv(h) && 0 <= n
    ensures Inv(AllocHeap(h, n)) && |AllocHeap(h, n).mem| == |h.mem|
    ensures |AllocHeap(h, n).blocks| > 0 && AllocHeap(h, n).blocks[0].addr == h.blocks[0].addr
  {
    AllocInv(h, n);
    Filled(AllocHeap(h, n));
    hide Inv, AllocHeap;
    var k := FirstFit(h.blocks, n, 0);
    if k < |h.blocks| && Splits(h.blocks[k], n) {
      SplitIndex(h.blocks, k, n);
    }
  }

  /** heap_init: one free block over the whole region. */
  function InitHeap(m: seq<byte>, bottom: int): (r: Heap)
    requires 0 < bottom && bottom + HEADER <= |m| <= ADDRESS_LIMIT
  {
    Heap(WriteHeader(m, InitBlocks(bottom, |m|)[0]), InitBlocks(bottom, |m|))
  }

  /** Past the first control block the region holds nothing that looks like an allocated one. */
  ghost predicate Blank(m: seq<byte>, bottom: int) {
    forall a :: bottom + HEADER <= a && Marked(m, a) ==> !IsUsed(m, a)
  }

  /** heap_init establishes the invariant exactly when the region is blank. */
  lemma InitInv(m: seq<byte>, bottom: int)
    requires 0 < bottom && bottom + HEADER <= |m| <= ADDRESS_LIMIT
    ensures Inv(InitHeap(m, bottom)) <==> Blank(m, bottom)
  {
    hide Bytes.Word, WriteHeader;
    var h := InitHeap(m, bottom);
    WriteHeaderStored(m, h.blocks[0]);
    assert Joined(h.blocks, 0, |m|) && h.blocks[0].addr == bottom;
    forall a | bottom <= a && Marked(h.mem, a) && !IsLive(h.blocks, a)
      ensures bottom + HEADER <= a && Marked(m, a) && (IsUsed(m, a) <==> IsUsed(h.mem, a))
    {
      MarkFrame(m, h.mem, h.blocks, a);
      MarksApart(h.mem, bottom, a);
    }
    forall a | bottom + HEADER <= a && Marked(m, a) ensures Marked(h.mem, a) && (IsUsed(m, a) <==> IsUsed(h.mem, a)) {
    }
  }

  /** The twenty bytes that heap_init stores, as numbers. */
  lemma InitByNumbers(m: seq<byte>, bottom: int)
    requires 0 < bottom && bottom + HEADER <= |m| <= ADDRESS_LIMIT
    ensures InitHeap(m, bottom).blocks == [Block(bottom, |m| - bottom - 20, false, 0, 0)]
    ensures var r := InitHeap(m, bottom).mem;
      && |r| == |m| && (forall x :: 0 <= x < |m| && !(bottom <= x < bottom + 20) ==> r[x] == m[x])
      && Word(r, bottom) == 0x5151_4949 && Word(r, bottom + 4) == 0x4040_4040 && Word(r, bottom + 8) == 0
      && Word(r, bottom + 12) == 0 && Word(r, bottom + 16) == |m| - bottom - 20
  {
    hide Bytes.Word, WriteHeader;
    var h := InitHeap(m, bottom);
    WriteHeaderStored(m, h.blocks[0]);
    HeaderWords(h.mem, h.blocks[0]);
  }

  ghost predicate LegalRun(h: Heap, ops: seq<Op>)
    requires Inv(h)
    decreases |ops|
  {
    |ops| == 0 || (Legal(h, ops[0]) && (ApplyInv(h, ops[0]); LegalRun(Apply(h, ops[0]), ops[1..])))
  }

  ghost function Run(h: Heap, ops: seq<Op>): (r: Heap)
    requires Inv(h) && LegalRun(h, ops)
    decreases |ops|
  {
    if |ops| == 0 then h else ApplyInv(h, ops[0]); Run(Apply(h, ops[0]), ops[1..])
  }

  /** Every run keeps the invariant. */
  lemma {:induction false} RunInv(h: Heap, ops: seq<Op>)
    requires Inv(h) && LegalRun(h, ops)
    ensures Inv(Run(h, ops)) && |Run(h, ops).mem| == |h.mem| && Run(h, ops).blocks[0].addr == h.blocks[0].addr
    decreases |ops|
  {
    if |ops| > 0 {
      ApplyInv(h, ops[0]);
      RunInv(Apply(h, ops[0]), ops[1..]);
    }
  }

  function TotalBytes(bs: seq<Block>): int {
    if |bs| == 0 then 0 else HEADER + bs[0].size + TotalBytes(bs[1..])
  }

  lemma {:induction false} TilesExactly(bs: seq<Block>, top: int)
    requires Tiled(bs, top)
    ensures TotalBytes(bs) == top - bs[0].addr
  {
    assert Joined(bs, 0, top);
    if |bs| == 1 {
      assert bs[1..] == [];
    } else {
      forall i | 0 <= i < |bs[1..]| ensures Joined(bs[1..], i, top) {
        assert Joined(bs, i + 1, top);
      }
      TilesExactly(bs[1..], top);
    }
  }

  /** After heap_init and any legal run, the blocks reached by `next` account for every byte of the region. */
  lemma RunConservesRegion(m: seq<byte>, bottom: int, ops: seq<Op>)
    requires 0 < bottom && bottom + HEADER <= |m| <= ADDRESS_LIMIT && Blank(m, bottom)
    requires (InitInv(m, bottom); LegalRun(InitHeap(m, bottom), ops))
    ensures (InitInv(m, bottom);
      var r := Run(InitHeap(m, bottom), ops);
      Inv(r) && r.blocks[0].addr == bottom && |r.mem| == |m| && TotalBytes(r.blocks) == |m| - bottom)
  {
    InitInv(m, bottom);
    RunInv(InitHeap(m, bottom), ops);
    TilesExactly(Run(InitHeap(m, bottom), ops).blocks, |m|);
  }

  // ----- Buffers in use

  predicate IsBuffer(b: Block, a: int, size: int) {
    b.used && b.addr == a && b.size == size
  }

  /** The block at address a is allocated and has this many bytes. */
  predicate HasBuffer(bs: seq<Block>, a: int, size: int) {
    exists i :: 0 <= i < |bs| && IsBuffer(bs[i], a, size)
  }

  predicate SameData(m: seq<byte>, r: seq<byte>, a: int, size: int) {
    |m| == |r| && forall x :: a + HEADER <= x < a + HEADER + size && 0 <= x < |m| ==> r[x] == m[x]
  }

  /** Two buffers in use share no byte, and no control block lies inside a buffer. */
  lemma BuffersDisjoint(bs: seq<Block>, top: int, i: int, j: int)
    requires Tiled(bs, top) && 0 <= i < |bs| && 0 <= j < |bs| && i != j
    ensures bs[i].addr + HEADER + bs[i].size <= bs[j].addr || bs[j].addr + HEADER + bs[j].size <= bs[i].addr
    ensures bs[i].addr + HEADER + bs[i].size <= top
  {
    Apart(bs, top, i, j);
    WithinTop(bs, top, i);
  }

  lemma BufferFrame(m: seq<byte>, r: seq<byte>, rs: seq<Block>, a: int, size: int)
    requires SameOutside(m, r, rs) && Tiled(rs, |r|) && HasBuffer(rs, a, size)
    ensures SameData(m, r, a, size)
  {
    var i :| 0 <= i < |rs| && IsBuffer(rs[i], a, size);
    forall x | a + HEADER <= x < a + HEADER + size && 0 <= x < |m| ensures r[x] == m[x] {
      forall j | 0 <= j < |rs| ensures !(rs[j].addr <= x < rs[j].addr + HEADER) {
        if j != i {
          Apart(rs, |r|, i, j);
        }
      }
    }
  }

  lemma MergeBlocksKeepsBuffer(bs: seq<Block>, i: int, a: int, size: int)
    requires 0 <= i < |bs| - 1 && MutualFree(bs, i) && HasBuffer(bs, a, size)
    ensures HasBuffer(MergeBlocks(bs, i), a, size)
  {
    hide MergeBlocks;
    MergeIndex(bs, i);
    var j :| 0 <= j < |bs| && IsBuffer(bs[j], a, size);
    assert IsBuffer(MergeBlocks(bs, i)[if j < i then j else j - 1], a, size);
  }

  lemma MergeUpKeepsBuffer(h: Heap, i: int, a: int, size: int)
    requires Inv(h) && 0 <= i && HasBuffer(h.blocks, a, size)
    ensures HasBuffer(MergeUp(h, i).blocks, a, size) && SameData(h.mem, MergeUp(h, i).mem, a, size)
  {
    var r := MergeUp(h, i);
    MergeUpInv(h, i);
    assert Tiled(r.blocks, |r.mem|);
    hide Inv, MergeBlocks, MergeHeap, MergeUp, SameOutside, Tiled, HasBuffer, SameData;
    if i + 1 < |h.blocks| && MutualFree(h.blocks, i) {
      MergeBlocksKeepsBuffer(h.blocks, i, a, size);
    }
    BufferFrame(h.mem, r.mem, r.blocks, a, size);
  }

  lemma CoalesceKeepsBuffer(h: Heap, i: int, a: int, size: int)
    requires Inv(h) && 0 <= i && HasBuffer(h.blocks, a, size)
    ensures HasBuffer(Coalesce(h, i).blocks, a, size) && SameData(h.mem, Coalesce(h, i).mem, a, size)
  {
    hide Inv, MergeUp, SameOutside, HasBuffer;
    MergeUpKeepsBuffer(h, i, a, size);
    MergeUpInv(h, i);
    if i > 0 {
      MergeUpKeepsBuffer(MergeUp(h, i), i - 1, a, size);
    }
  }

  lemma FreeKeepsBuffer(h: Heap, ptr: int, a: int, size: int)
    requires Inv(h) && Releasable(h, ptr) && HasBuffer(h.blocks, a, size) && ptr != a + HEADER
    ensures HasBuffer(FreeHeap(h, ptr).blocks, a, size) && SameData(h.mem, FreeHeap(h, ptr).mem, a, size)
  {
    hide Inv, Coalesce, StatusHeap, HasBuffer;
    FreeAcceptsExactly(h, ptr);
    if LooksAllocated(h.mem, ptr) {
      var i := OwnerOf(h.blocks, ptr - HEADER, 0);
      StatusKeepsBuffer(h, i, false, a, size);
      StatusInv(h, i, false);
      CoalesceKeepsBuffer(StatusHeap(h, i, false), i, a, size);
    }
  }

  lemma StatusKeepsBuffer(h: Heap, i: int, used: bool, a: int, size: int)
    requires Inv(h) && 0 <= i < |h.blocks| && HasBuffer(h.blocks, a, size) && h.blocks[i].addr != a
    ensures HasBuffer(StatusHeap(h, i, used).blocks, a, size) && SameData(h.mem, StatusHeap(h, i, used).mem, a, size)
  {
    hide Bytes.Word, Bytes.StoreTag;
    var r := StatusHeap(h, i, used);
    StatusInv(h, i, used);
    var j :| 0 <= j < |h.blocks| && IsBuffer(h.blocks[j], a, size);
    assert IsBuffer(r.blocks[j], a, size);
    BufferFrame(h.mem, r.mem, r.blocks, a, size);
  }

  lemma SplitBlocksKeepsBuffer(bs: seq<Block>, k: int, n: int, a: int, size: int)
    requires 0 <= k < |bs| && !bs[k].used && HasBuffer(bs, a, size)
    ensures HasBuffer(SplitBlocks(bs, k, n), a, size)
  {
    hide SplitBlocks;
    SplitIndex(bs, k, n);
    var j :| 0 <= j < |bs| && IsBuffer(bs[j], a, size);
    assert IsBuffer(SplitBlocks(bs, k, n)[if j < k then j else j + 1], a, size);
  }

  lemma AllocBlocksKeepsBuffer(bs: seq<Block>, n: int, a: int, size: int)
    requires HasBuffer(bs, a, size)
    ensures HasBuffer(AllocBlocks(bs, n), a, size)
  {
    hide SplitBlocks;
    var k := FirstFit(bs, n, 0);
    if k < |bs| {
      if Splits(bs[k], n) {
        SplitBlocksKeepsBuffer(bs, k, n, a, size);
      } else {
        var j :| 0 <= j < |bs| && IsBuffer(bs[j], a, size);
        assert IsBuffer(AllocBlocks(bs, n)[j], a, size);
      }
    }
  }

  lemma AllocKeepsBuffer(h: Heap, n: int, a: int, size: int)
    requires Inv(h) && 0 <= n && HasBuffer(h.blocks, a, size)
    ensures HasBuffer(AllocHeap(h, n).blocks, a, size) && SameData(h.mem, AllocHeap(h, n).mem, a, size)
  {
    var r := AllocHeap(h, n);
    AllocInv(h, n);
    assert Tiled(r.blocks, |r.mem|);
    hide Inv, AllocHeap, AllocBlocks, SameOutside, Tiled, SameData, HasBuffer;
    AllocBlocksKeepsBuffer(h.blocks, n, a, size);
    BufferFrame(h.mem, r.mem, r.blocks, a, size);
  }

  /** The operation neither frees the buffer at a nor writes into it. */
  predicate LeavesAlone(op: Op, a: int, size: int) {
    match op
    case Alloc(_) => true
    case Free(ptr) => ptr != a + HEADER
    case Write(at, data) => at + |data| <= a + HEADER || a + HEADER + size <= at
  }

  lemma StepKeepsBuffer(h: Heap, op: Op, a: int, size: int)
    requires Inv(h) && Legal(h, op) && HasBuffer(h.blocks, a, size) && LeavesAlone(op, a, size)
    ensures HasBuffer(Apply(h, op).blocks, a, size) && SameData(h.mem, Apply(h, op).mem, a, size)
  {
    hide Inv, Bytes.Word, AllocHeap, FreeHeap, HasBuffer, ForgesNothing;
    match op
    case Alloc(n) => AllocKeepsBuffer(h, n, a, size);
    case Free(ptr) => FreeKeepsBuffer(h, ptr, a, size);
    case Write(at, data) =>
  }

  /** A buffer keeps its place, its size and every byte through any run that does not free it or write into it. */
  lemma {:induction false} RunKeepsBuffer(h: Heap, ops: seq<Op>, a: int, size: int)
    requires Inv(h) && LegalRun(h, ops) && HasBuffer(h.blocks, a, size)
    requires forall i :: 0 <= i < |ops| ==> LeavesAlone(ops[i], a, size)
    ensures HasBuffer(Run(h, ops).blocks, a, size) && SameData(h.mem, Run(h, ops).mem, a, size)
    decreases |ops|
  {
    hide Bytes.Word, Apply, Legal;
    if |ops| > 0 {
      ApplyInv(h, ops[0]);
      StepKeepsBuffer(h, ops[0], a, size);
      assert LeavesAlone(ops[0], a, size);
      RunKeepsBuffer(Apply(h, ops[0]), ops[1..], a, size);
    }
  }
}
