/** The critical sections of heap_alloc and heap_free. The search reads one live control block in a move, which no
    client can change meanwhile; the tests read one word of the tested header in a move; and one word is stored in a
    move. */
module HeapSteps {
  import opened Bytes
  import opened HeapLayout
  import opened HeapModel
  import opened HeapOps
  import opened HeapInvariant
  import opened HeapRuns
  import opened HeapTests
  import opened HeapStores

  /** Where a processor is inside its critical section: looking at a block for n bytes; testing the magic number and
      then the status in front of a pointer to be released; going to merge the block at a with the one after or before
      it; at step s of the test of such a merge; storing words and then going on; or about to leave. */
  datatype Phase =
    | Scan(n: word, at: int)
    | Check(ptr: int)
    | CheckStatus(ptr: int)
    | MergeNext(a: int)
    | MergePrev(a: int)
    | Probe(head: int, tail: int, s: int, goal: Phase)
    | Storing(ws: Stores, goal: Phase)
    | Leave(result: int)

  function StartOf(call: Op, bottom: int): Phase
    requires !call.Write?
  {
    if call.Alloc? then Scan(call.size, bottom) else Check(call.ptr)
  }

  /** The control block that the bytes at a spell out. */
  function ReadAt(m: seq<byte>, a: int): Block
    requires InRange(m, a)
  {
    Block(a, Size(m, a), IsUsed(m, a), Next(m, a), Prev(m, a))
  }

  predicate Takeable(b: Block) {
    0 < b.addr && 0 <= b.next < 0x1_0000_0000 && 0 <= b.size && b.addr + HEADER + b.size <= ADDRESS_LIMIT
  }

  predicate Absorbable(b: Block, t: Block) {
    0 < b.addr < ADDRESS_LIMIT && 0 <= t.next < 0x1_0000_0000 && 0 <= b.size + HEADER + t.size < ADDRESS_LIMIT
  }

  /** The next move stays inside memory, and no sum overflows. */
  predicate Runnable(m: seq<byte>, ph: Phase) {
    match ph
    case Scan(_, at) => at == 0 || (InRange(m, at) && Takeable(ReadAt(m, at)))
    case Check(ptr) => HEADER <= ptr <= |m|
    case CheckStatus(ptr) => HEADER <= ptr <= |m|
    case MergeNext(a) => InRange(m, a)
    case MergePrev(a) => InRange(m, a)
    case Probe(head, tail, s, _) =>
      0 <= s < STEPS && InRange(m, head) && InRange(m, tail) &&
      (s == STEPS - 1 && Passes(m, head, tail, s) ==> Absorbable(ReadAt(m, head), ReadAt(m, tail)))
    case Storing(ws, _) => Fit(|m|, ws)
    case Leave(_) => false
  }

  /** Where the next move leads; only a store changes memory. */
  function Move(m: seq<byte>, ph: Phase): Phase
    requires Runnable(m, ph)
  {
    match ph
    case Scan(n, at) =>
      if at == 0 || !HasMagic(m, at) then Leave(0)
      else if IsFree(m, at) && Size(m, at) >= n then Storing(TakeStores(ReadAt(m, at), n), Leave(at + HEADER))
      else Scan(n, Next(m, at))
    case Check(ptr) => if HasMagic(m, ptr - HEADER) then CheckStatus(ptr) else Leave(0)
    case CheckStatus(ptr) =>
      if IsUsed(m, ptr - HEADER)
      then Storing(Then(ptr - HEADER + 4, TagWord(FREE), Done), MergeNext(ptr - HEADER))
      else Leave(0)
    case MergeNext(a) => if Next(m, a) == 0 then MergePrev(a) else Probe(a, Next(m, a), 0, MergePrev(a))
    case MergePrev(a) => if Prev(m, a) == 0 then Leave(0) else Probe(Prev(m, a), a, 0, Leave(0))
    case Probe(head, tail, s, goal) =>
      if !Passes(m, head, tail, s) then goal
      else if s < STEPS - 1 then Probe(head, tail, s + 1, goal)
      else Storing(AbsorbStores(ReadAt(m, head), ReadAt(m, tail)), goal)
    case Storing(ws, goal) => if ws.Done? then goal else Storing(ws.rest, goal)
  }

  function MoveMem(m: seq<byte>, ph: Phase): (r: seq<byte>)
    requires Runnable(m, ph)
    ensures |r| == |m|
  {
    if ph.Storing? && ph.ws.Then? then Store(m, ph.ws.at, ph.ws.value) else m
  }

  // ----- What every move keeps

  /** The search has reached address at without passing a block that fits. */
  ghost predicate Reached(bs: seq<Block>, n: int, at: int) {
    exists k :: 0 <= k <= |bs| && ReachedAt(bs, n, at, k)
  }

  predicate ReachedAt(bs: seq<Block>, n: int, at: int, k: int)
    requires 0 <= k <= |bs|
  {
    at == (if k < |bs| then bs[k].addr else 0) && FirstFit(bs, n, 0) == FirstFit(bs, n, k)
  }

  /** The heap once the block at a has been marked free. */
  ghost function Freed(pre: Heap, a: int): Heap
    requires Inv(pre) && OwnerOf(pre.blocks, a, 0) < |pre.blocks|
  {
    StatusHeap(pre, OwnerOf(pre.blocks, a, 0), false)
  }

  ghost predicate Owned(pre: Heap, call: Op, a: int) {
    call == Free(a + HEADER) && OwnerOf(pre.blocks, a, 0) < |pre.blocks|
  }

  /** A live control block starts inside the two words tested in front of a pointer, so the second is never USED. */
  predicate StatusDoomed(bs: seq<Block>, a: int) {
    exists j :: 0 <= j < |bs| && a < bs[j].addr < a + 8
  }

  /** Step s of the test whether block i + 1 of heap h may be merged into the header at head, which is that of block i
      or the one that the back link of block i + 1 leads to: the earlier steps pass on the memory as it is now, or a
      later one fails whatever clients write. */
  ghost predicate Probing(h: Heap, i: int, head: int, tail: int, m: seq<byte>, s: int) {
    Inv(h) && 0 <= i < |h.blocks| - 1 && 0 <= s < STEPS && m == h.mem && tail == h.blocks[i + 1].addr &&
    (head == h.blocks[i].addr || head == h.blocks[i + 1].prev) && InRange(m, head) && InRange(m, tail) &&
    (PassesFirst(m, head, tail, s) || Doomed(h.blocks, head, s))
  }

  /** What the memory is in each phase, as a function of the heap before the call. */
  ghost predicate PhaseInv(pre: Heap, call: Op, m: seq<byte>, ph: Phase)
    requires Inv(pre) && Legal(pre, call) && !call.Write?
    decreases ph
  {
    match ph
    case Scan(n, at) => call == Alloc(n) && m == pre.mem && Reached(pre.blocks, n, at)
    case Check(ptr) => call == Free(ptr) && m == pre.mem
    case CheckStatus(ptr) =>
      call == Free(ptr) && m == pre.mem && InRange(m, ptr - HEADER) &&
      (HasMagic(m, ptr - HEADER) || StatusDoomed(pre.blocks, ptr - HEADER))
    case MergeNext(a) => Owned(pre, call, a) && m == Freed(pre, a).mem
    case MergePrev(a) => Owned(pre, call, a) && m == Merged(pre, a).mem
    case Probe(head, tail, s, goal) =>
      if goal.MergePrev? then
        goal.a == head && Owned(pre, call, head) &&
        Probing(Freed(pre, head), OwnerOf(pre.blocks, head, 0), head, tail, m, s)
      else
        goal == Leave(0) && Owned(pre, call, tail) && OwnerOf(pre.blocks, tail, 0) > 0 &&
        Probing(Merged(pre, tail), OwnerOf(pre.blocks, tail, 0) - 1, head, tail, m, s)
    case Storing(ws, goal) =>
      (goal.MergeNext? || goal.MergePrev? || goal.Leave?) &&
      Fit(|m|, ws) && AvoidsBuffers(ws, pre.blocks) && PhaseInv(pre, call, StoreAll(m, ws), goal)
    case Leave(result) => m == Apply(pre, call).mem && result == CallResult(pre, call)
  }

  /** The heap once the block at a has been marked free and has absorbed the one after it, if that could be merged. */
  ghost function Merged(pre: Heap, a: int): Heap
    requires Inv(pre) && OwnerOf(pre.blocks, a, 0) < |pre.blocks|
  {
    FreedInv(pre, a);
    MergeUp(Freed(pre, a), OwnerOf(pre.blocks, a, 0))
  }

  lemma FreedInv(pre: Heap, a: int)
    requires Inv(pre) && OwnerOf(pre.blocks, a, 0) < |pre.blocks|
    ensures Inv(Freed(pre, a)) && |Freed(pre, a).blocks| == |pre.blocks| && |Freed(pre, a).mem| == |pre.mem|
  {
    hide Inv, SameOutside;
    StatusInv(pre, OwnerOf(pre.blocks, a, 0), false);
  }

  /** A store at x stays out of the buffers in use. */
  predicate Clear(bs: seq<Block>, x: int) {
    forall i :: 0 <= i < |bs| ==> OutsideData(bs[i], x)
  }

  predicate OutsideData(b: Block, x: int) {
    b.used ==> x + 4 <= b.addr + HEADER || b.addr + HEADER + b.size <= x
  }

  predicate AvoidsBuffers(ws: Stores, bs: seq<Block>) {
    ws.Done? || (Clear(bs, ws.at) && AvoidsBuffers(ws.rest, bs))
  }

  /** A field of a live control block lies in no buffer. */
  lemma FieldClear(bs: seq<Block>, top: int, j: int, field: int)
    requires Tiled(bs, top) && 0 <= j < |bs| && 0 <= field && field + 4 <= HEADER
    ensures Clear(bs, bs[j].addr + field)
  {
    forall i | 0 <= i < |bs| ensures OutsideData(bs[i], bs[j].addr + field) {
      if i != j {
        Apart(bs, top, i, j);
      }
    }
  }

  /** Nor does any place inside a free block. */
  lemma FreeBlockClear(bs: seq<Block>, top: int, k: int, x: int)
    requires Tiled(bs, top) && 0 <= k < |bs| && !bs[k].used && bs[k].addr <= x &&
      x + 4 <= bs[k].addr + HEADER + bs[k].size
    ensures Clear(bs, x)
  {
    forall i | 0 <= i < |bs| ensures OutsideData(bs[i], x) {
      if i != k {
        Apart(bs, top, i, k);
      }
    }
  }

  lemma {:induction false} AvoidsThen(bs: seq<Block>, at: int, v: word, ws: Stores)
    requires Clear(bs, at) && AvoidsBuffers(ws, bs)
    ensures AvoidsBuffers(Then(at, v, ws), bs)
  {
  }

  lemma AvoidsDone(bs: seq<Block>)
    ensures AvoidsBuffers(Done, bs)
  {
  }

  lemma TakeAvoids(bs: seq<Block>, top: int, k: int, n: int)
    requires Tiled(bs, top) && 0 <= k < |bs| && !bs[k].used && Takeable(bs[k]) && 0 <= n
    ensures AvoidsBuffers(TakeStores(bs[k], n), bs)
  {
    hide Clear, Tiled, AvoidsBuffers;
    var a := bs[k].addr;
    AvoidsDone(bs);
    FieldClear(bs, top, k, 4);
    FieldClear(bs, top, k, 8);
    FieldClear(bs, top, k, 16);
    if Splits(bs[k], n) {
      var ws := Then(a + 8, a + HEADER + n, Done);
      AvoidsThen(bs, a + 8, a + HEADER + n, Done);
      AvoidsThen(bs, a + 16, n, ws);
      RemainderAvoids(bs, top, k, n, Then(a + 16, n, ws));
      AvoidsThen(bs, a + 4, TagWord(USED), HeaderStores(Remainder(bs[k], n), Then(a + 16, n, ws)));
    } else {
      AvoidsThen(bs, a + 4, TagWord(USED), Done);
    }
  }

  lemma RemainderAvoids(bs: seq<Block>, top: int, k: int, n: int, ws: Stores)
    requires Tiled(bs, top) && 0 <= k < |bs| && !bs[k].used && Takeable(bs[k]) && 0 <= n && Splits(bs[k], n)
    requires AvoidsBuffers(ws, bs)
    ensures AvoidsBuffers(HeaderStores(Remainder(bs[k], n), ws), bs)
  {
    hide Clear, Tiled, AvoidsBuffers;
    var b := Remainder(bs[k], n);
    FreeBlockClear(bs, top, k, b.addr);
    FreeBlockClear(bs, top, k, b.addr + 4);
    FreeBlockClear(bs, top, k, b.addr + 8);
    FreeBlockClear(bs, top, k, b.addr + 12);
    FreeBlockClear(bs, top, k, b.addr + 16);
    var w5 := Then(b.addr + 8, b.next, ws);
    var w4 := Then(b.addr + 12, b.prev, w5);
    var w3 := Then(b.addr + 16, b.size, w4);
    AvoidsThen(bs, b.addr + 8, b.next, ws);
    AvoidsThen(bs, b.addr + 12, b.prev, w5);
    AvoidsThen(bs, b.addr + 16, b.size, w4);
    AvoidsThen(bs, b.addr + 4, TagWord(FREE), w3);
    AvoidsThen(bs, b.addr, TagWord(HEAD), Then(b.addr + 4, TagWord(FREE), w3));
  }

  lemma AbsorbAvoids(bs: seq<Block>, top: int, b: Block, t: Block)
    requires Tiled(bs, top) && Absorbable(b, t) && IsLive(bs, b.addr) && (t.next == 0 || IsLive(bs, t.next))
    ensures AvoidsBuffers(AbsorbStores(b, t), bs)
  {
    hide Clear, Tiled, AvoidsBuffers;
    var i :| 0 <= i < |bs| && bs[i].addr == b.addr;
    FieldClear(bs, top, i, 8);
    FieldClear(bs, top, i, 16);
    var w := Then(b.addr + 16, b.size + HEADER + t.size, Done);
    AvoidsDone(bs);
    AvoidsThen(bs, b.addr + 16, b.size + HEADER + t.size, Done);
    AvoidsThen(bs, b.addr + 8, t.next, w);
    if t.next != 0 {
      var j :| 0 <= j < |bs| && bs[j].addr == t.next;
      FieldClear(bs, top, j, 12);
      AvoidsThen(bs, t.next + 12, b.addr, Then(b.addr + 8, t.next, w));
    }
  }

  /** Every block of rs is where a block of bs is. */
  ghost predicate Within(rs: seq<Block>, bs: seq<Block>) {
    forall j :: 0 <= j < |rs| ==> IsLive(bs, rs[j].addr)
  }

  lemma MergeStoresAvoid(pre: Heap, h: Heap, i: int)
    requires Inv(pre) && Inv(h) && 0 <= i && Within(h.blocks, pre.blocks)
    ensures AvoidsBuffers(MergeStores(h, i), pre.blocks)
  {
    hide Bytes.Word;
    if i + 1 < |h.blocks| && MutualFree(h.blocks, i) {
      Neighbours(h, i);
      assert Joined(h.blocks, i + 1, |h.mem|);
      assert IsLive(pre.blocks, h.blocks[i].addr) && (i + 2 < |h.blocks| ==> IsLive(pre.blocks, h.blocks[i + 2].addr));
      hide Inv, IsLive;
      AbsorbAvoids(pre.blocks, |pre.mem|, h.blocks[i], h.blocks[i + 1]);
    }
  }

  // ----- One lemma for each kind of move

  lemma {:induction false} StoringInv(pre: Heap, call: Op, m: seq<byte>, ws: Stores, goal: Phase)
    requires Inv(pre) && Legal(pre, call) && !call.Write? && Fit(|m|, ws) && AvoidsBuffers(ws, pre.blocks)
    requires PhaseInv(pre, call, StoreAll(m, ws), goal) && (goal.MergeNext? || goal.MergePrev? || goal.Leave?)
    ensures PhaseInv(pre, call, m, Storing(ws, goal))
  {
  }

  lemma LeaveInv(pre: Heap, call: Op)
    requires Inv(pre) && Legal(pre, call) && !call.Write?
    ensures PhaseInv(pre, call, Apply(pre, call).mem, Leave(CallResult(pre, call)))
  {
  }

  /** Live block k, as the search reads it. */
  lemma ReadLive(h: Heap, k: int)
    requires Inv(h) && 0 <= k < |h.blocks|
    ensures InRange(h.mem, h.blocks[k].addr) && ReadAt(h.mem, h.blocks[k].addr) == h.blocks[k] && Takeable(h.blocks[k])
    ensures HasMagic(h.mem, h.blocks[k].addr) && (IsFree(h.mem, h.blocks[k].addr) <==> !h.blocks[k].used)
    ensures h.blocks[k].next == (if k + 1 < |h.blocks| then h.blocks[k + 1].addr else 0)
    ensures h.blocks[k].prev == 0 <==> k == 0
  {
    hide Bytes.Word;
    assert Holds(h.mem, h.blocks[k]);
    WithinTop(h.blocks, |h.mem|, k);
    assert Joined(h.blocks, k, |h.mem|);
    if k > 0 {
      assert BackLink(h.blocks, k);
    }
  }

  /** The search takes the first fit, goes on, or ends with nothing. */
  lemma ScanMove(pre: Heap, n: word, at: int)
    requires Inv(pre) && Reached(pre.blocks, n, at)
    ensures Runnable(pre.mem, Scan(n, at)) && PhaseInv(pre, Alloc(n), pre.mem, Move(pre.mem, Scan(n, at)))
  {
    var k :| 0 <= k <= |pre.blocks| && ReachedAt(pre.blocks, n, at, k);
    if k == |pre.blocks| {
      assert AllocHeap(pre, n) == pre;
    } else {
      ScanBlock(pre, n, k);
    }
  }

  lemma ScanBlock(pre: Heap, n: word, k: int)
    requires Inv(pre) && 0 <= k < |pre.blocks| && FirstFit(pre.blocks, n, 0) == FirstFit(pre.blocks, n, k)
    ensures var ph := Scan(n, pre.blocks[k].addr);
      Runnable(pre.mem, ph) && PhaseInv(pre, Alloc(n), pre.mem, Move(pre.mem, ph))
  {
    hide Inv, Bytes.Word, TakeStores, StoreAll, Bytes.HasTag, AllocHeap, AvoidsBuffers, PhaseInv;
    ReadLive(pre, k);
    if Fits(pre.blocks[k], n) {
      ScanTakes(pre, n, k);
    } else {
      ScanPasses(pre, n, k);
    }
  }

  lemma ScanPasses(pre: Heap, n: word, k: int)
    requires Inv(pre) && 0 <= k < |pre.blocks| && FirstFit(pre.blocks, n, 0) == FirstFit(pre.blocks, n, k)
    requires !Fits(pre.blocks[k], n)
    requires pre.blocks[k].next == (if k + 1 < |pre.blocks| then pre.blocks[k + 1].addr else 0)
    ensures PhaseInv(pre, Alloc(n), pre.mem, Scan(n, pre.blocks[k].next))
  {
    assert ReachedAt(pre.blocks, n, pre.blocks[k].next, k + 1);
  }

  lemma ScanTakes(pre: Heap, n: word, k: int)
    requires Inv(pre) && 0 <= k < |pre.blocks| && FirstFit(pre.blocks, n, 0) == FirstFit(pre.blocks, n, k)
    requires Fits(pre.blocks[k], n) && Takeable(pre.blocks[k])
    ensures PhaseInv(pre, Alloc(n), pre.mem, Storing(TakeStores(pre.blocks[k], n), Leave(pre.blocks[k].addr + HEADER)))
  {
    assert Tiled(pre.blocks, |pre.mem|);
    hide Inv, Bytes.Word, TakeStores, StoreAll, AllocHeap, Tiled, AvoidsBuffers, Fit, PhaseInv;
    assert AllocStores(pre, n) == TakeStores(pre.blocks[k], n);
    AllocStoresWrite(pre, n);
    TakeAvoids(pre.blocks, |pre.mem|, k, n);
    LeaveInv(pre, Alloc(n));
    StoringInv(pre, Alloc(n), pre.mem, TakeStores(pre.blocks[k], n), Leave(pre.blocks[k].addr + HEADER));
  }

  /** The first word in front of the pointer: without the magic number heap_free ends. */
  lemma CheckMove(pre: Heap, ptr: int)
    requires Inv(pre) && Releasable(pre, ptr)
    ensures Runnable(pre.mem, Check(ptr)) && PhaseInv(pre, Free(ptr), pre.mem, Move(pre.mem, Check(ptr)))
  {
    hide Inv, Bytes.HasTag, FreeHeapAt;
    FreeAcceptsExactly(pre, ptr);
  }

  lemma LiveFitting(h: Heap, j: int)
    requires Inv(h) && 0 <= j < |h.blocks|
    ensures Holds(h.mem, h.blocks[j]) && Fitting(h.blocks[j])
  {
    hide Bytes.Word;
    WithinTop(h.blocks, |h.mem|, j);
    assert Joined(h.blocks, j, |h.mem|);
    if j + 1 < |h.blocks| {
      WithinTop(h.blocks, |h.mem|, j + 1);
    }
    if j > 0 {
      assert BackLink(h.blocks, j);
      WithinTop(h.blocks, |h.mem|, j - 1);
    }
  }

  /** The second word: the test passes on a buffer in use only, which is then marked free. */
  lemma CheckStatusMove(pre: Heap, ptr: int)
    requires Inv(pre) && Releasable(pre, ptr) && InRange(pre.mem, ptr - HEADER)
    requires HasMagic(pre.mem, ptr - HEADER) || StatusDoomed(pre.blocks, ptr - HEADER)
    ensures Runnable(pre.mem, CheckStatus(ptr))
    ensures PhaseInv(pre, Free(ptr), pre.mem, Move(pre.mem, CheckStatus(ptr)))
  {
    hide Inv, Bytes.Word, Bytes.StoreTag, Bytes.HasTag, FreeHeapAt, AvoidsBuffers;
    FreeAcceptsExactly(pre, ptr);
    if IsUsed(pre.mem, ptr - HEADER) {
      StatusNotDoomed(pre, ptr - HEADER);
      MarksFree(pre, ptr - HEADER);
    }
  }

  lemma StatusNotDoomed(pre: Heap, a: int)
    requires Inv(pre) && InRange(pre.mem, a) && IsUsed(pre.mem, a)
    ensures !StatusDoomed(pre.blocks, a)
  {
    hide Inv, Bytes.HasTag, Bytes.Word;
    forall j | 0 <= j < |pre.blocks| && a < pre.blocks[j].addr < a + 8 ensures false {
      LiveFitting(pre, j);
      DoomCheck(pre.mem, pre.blocks[j], a);
    }
  }

  lemma MarksFree(pre: Heap, a: int)
    requires Inv(pre) && Releasable(pre, a + HEADER) && OwnerOf(pre.blocks, a, 0) < |pre.blocks|
    ensures PhaseInv(pre, Free(a + HEADER), pre.mem, Storing(Then(a + 4, TagWord(FREE), Done), MergeNext(a)))
  {
    hide Inv, Bytes.Word, Bytes.Store, Bytes.StoreTag, StoreAll, AvoidsBuffers, PhaseInv, Releasable, Freed;
    var ws := Then(a + 4, TagWord(FREE), Done);
    FreedStore(pre, a);
    ConsTag(pre.mem, a + 4, FREE, Done);
    Nothing(StoreTag(pre.mem, a + 4, FREE));
    MergeNextInv(pre, a);
    StoringInv(pre, Free(a + HEADER), pre.mem, ws, MergeNext(a));
  }

  lemma FreedStore(pre: Heap, a: int)
    requires Inv(pre) && OwnerOf(pre.blocks, a, 0) < |pre.blocks|
    ensures InRange(pre.mem, a) && Freed(pre, a).mem == StoreTag(pre.mem, a + 4, FREE)
    ensures AvoidsBuffers(Then(a + 4, TagWord(FREE), Done), pre.blocks)
  {
    hide Bytes.Word, Bytes.StoreTag, Clear;
    var i := OwnerOf(pre.blocks, a, 0);
    assert Holds(pre.mem, pre.blocks[i]);
    FieldClear(pre.blocks, |pre.mem|, i, 4);
    AvoidsDone(pre.blocks);
    AvoidsThen(pre.blocks, a + 4, TagWord(FREE), Done);
  }

  lemma MergeNextInv(pre: Heap, a: int)
    requires Inv(pre) && Releasable(pre, a + HEADER) && OwnerOf(pre.blocks, a, 0) < |pre.blocks|
    ensures PhaseInv(pre, Free(a + HEADER), Freed(pre, a).mem, MergeNext(a))
  {
    hide Inv, Freed;
  }

  /** The stores of a merge that passed its test end where the list-level merge does. */
  lemma StoresMerge(pre: Heap, call: Op, h: Heap, i: int, goal: Phase)
    requires Inv(pre) && Legal(pre, call) && !call.Write? && Inv(h) && 0 <= i < |h.blocks| - 1 &&
      Within(h.blocks, pre.blocks) && MutualFree(h.blocks, i)
    requires PhaseInv(pre, call, MergeUp(h, i).mem, goal) && (goal.MergePrev? || goal.Leave?)
    ensures var head, tail := h.blocks[i].addr, h.blocks[i + 1].addr;
      && InRange(h.mem, head) && InRange(h.mem, tail) && Absorbable(ReadAt(h.mem, head), ReadAt(h.mem, tail))
      && PhaseInv(pre, call, h.mem, Storing(AbsorbStores(ReadAt(h.mem, head), ReadAt(h.mem, tail)), goal))
  {
    hide Inv, Legal, Bytes.Word, MergeHeap, StoreAll, AbsorbStores, AvoidsBuffers, Within, Fit, PhaseInv;
    ReadLive(h, i);
    ReadLive(h, i + 1);
    Neighbours(h, i);
    MergeStoresWrite(h, i);
    MergeStoresAvoid(pre, h, i);
    StoringInv(pre, call, h.mem, MergeStores(h, i), goal);
  }

  /** On the memory of one moment the test decides exactly whether block i + 1 may be merged into block i. */
  lemma ProbeDecides(h: Heap, i: int, head: int, tail: int, s: int)
    requires Probing(h, i, head, tail, h.mem, s)
    ensures head + HEADER <= tail < ADDRESS_LIMIT
    ensures PassesFirst(h.mem, head, tail, STEPS) <==> MutualFree(h.blocks, i)
    ensures MutualFree(h.blocks, i) ==> head == h.blocks[i].addr
  {
    hide Bytes.Word, MergeGuards, PassesFirst, Doomed;
    StepsAreGuards(h.mem, head, tail);
    Ascending(h.blocks, |h.mem|, i, i + 1);
    WithinTop(h.blocks, |h.mem|, i);
    WithinTop(h.blocks, |h.mem|, i + 1);
    assert BackLink(h.blocks, i + 1);
    if head == h.blocks[i].addr {
      LiveMergeable(h, i);
    } else {
      StaleLinkNeverMerges(h, i + 1);
    }
  }

  /** A step that passes leaves the test on its way, and the last one passes on a mergeable pair only. */
  lemma ProbePasses(h: Heap, i: int, head: int, tail: int, s: int)
    requires Probing(h, i, head, tail, h.mem, s) && Passes(h.mem, head, tail, s)
    ensures s < STEPS - 1 ==> Probing(h, i, head, tail, h.mem, s + 1)
    ensures s == STEPS - 1 ==> MutualFree(h.blocks, i) && head == h.blocks[i].addr
  {
    hide Inv, Passes, PassesFirst, Doomed;
    ProbeDecides(h, i, head, tail, s);
    PassesOne(h.mem, head, tail, s);
    if !PassesFirst(h.mem, head, tail, s) {
      DoomRemains(h, head, tail, s);
    }
  }

  lemma DoomRemains(h: Heap, head: int, tail: int, s: int)
    requires Inv(h) && Doomed(h.blocks, head, s) && InRange(h.mem, head) && InRange(h.mem, tail) && 0 <= s < STEPS
    requires head + HEADER <= tail < ADDRESS_LIMIT && Passes(h.mem, head, tail, s)
    ensures s < STEPS - 1 && Doomed(h.blocks, head, s + 1)
  {
    hide Inv, Passes;
    var j :| DoomedBy(h.blocks, head, s, j);
    LiveFitting(h, j);
    Doom(h.mem, h.blocks[j], head, tail);
    assert DoomedBy(h.blocks, head, s + 1, j);
  }

  lemma ProbeFails(h: Heap, i: int, head: int, tail: int, s: int)
    requires Probing(h, i, head, tail, h.mem, s) && !Passes(h.mem, head, tail, s)
    ensures MergeUp(h, i) == h
  {
    hide Inv, Passes, Doomed;
    ProbeDecides(h, i, head, tail, s);
    NothingMerged(h, i);
  }

  /** One step of a merge test: it goes on, ends with the stores of the list-level merge, or ends with nothing. */
  lemma ProbeMove(pre: Heap, call: Op, h: Heap, i: int, head: int, tail: int, s: int, goal: Phase)
    requires Inv(pre) && Legal(pre, call) && !call.Write? && Within(h.blocks, pre.blocks)
    requires Probing(h, i, head, tail, h.mem, s)
    requires PhaseInv(pre, call, MergeUp(h, i).mem, goal) && (goal.MergePrev? || goal.Leave?)
    ensures var ph := Probe(head, tail, s, goal);
      Runnable(h.mem, ph) &&
      if Passes(h.mem, head, tail, s) && s < STEPS - 1
      then Move(h.mem, ph) == Probe(head, tail, s + 1, goal) && Probing(h, i, head, tail, h.mem, s + 1)
      else PhaseInv(pre, call, h.mem, Move(h.mem, ph))
  {
    hide Inv, Legal, Passes, PassesFirst, Doomed, Within, PhaseInv, AbsorbStores, MergeUp;
    if Passes(h.mem, head, tail, s) {
      ProbePasses(h, i, head, tail, s);
      if s == STEPS - 1 {
        StoresMerge(pre, call, h, i, goal);
      }
    } else {
      ProbeFails(h, i, head, tail, s);
    }
  }

  lemma FreedWithin(pre: Heap, a: int)
    requires Inv(pre) && OwnerOf(pre.blocks, a, 0) < |pre.blocks|
    ensures Within(Freed(pre, a).blocks, pre.blocks)
    ensures Freed(pre, a).blocks[OwnerOf(pre.blocks, a, 0)].addr == a
  {
    hide Inv, Bytes.StoreTag;
    FreedInv(pre, a);
    var rs := Freed(pre, a).blocks;
    forall j | 0 <= j < |rs| ensures IsLive(pre.blocks, rs[j].addr) {
      assert rs[j].addr == pre.blocks[j].addr;
    }
  }

  lemma MergeUpWithin(h: Heap, i: int, bs: seq<Block>)
    requires Inv(h) && 0 <= i < |h.blocks| && Within(h.blocks, bs)
    ensures Inv(MergeUp(h, i)) && Within(MergeUp(h, i).blocks, bs)
    ensures i < |MergeUp(h, i).blocks| && MergeUp(h, i).blocks[i].addr == h.blocks[i].addr
  {
    hide Inv, MergeBlocks, MergeHeap, MergeUp, SameOutside, IsLive;
    MergeUpInv(h, i);
    if i + 1 < |h.blocks| && MutualFree(h.blocks, i) {
      MergeIndex(h.blocks, i);
      var rs := MergeUp(h, i).blocks;
      forall j | 0 <= j < |rs| ensures IsLive(bs, rs[j].addr) {
        assert rs[j].addr == h.blocks[if j <= i then j else j + 1].addr;
      }
    }
  }

  lemma MergedFacts(pre: Heap, a: int)
    requires Inv(pre) && OwnerOf(pre.blocks, a, 0) < |pre.blocks|
    ensures Inv(Freed(pre, a)) && Merged(pre, a) == MergeUp(Freed(pre, a), OwnerOf(pre.blocks, a, 0))
    ensures Inv(Merged(pre, a)) && Within(Merged(pre, a).blocks, pre.blocks)
    ensures var i := OwnerOf(pre.blocks, a, 0); i < |Merged(pre, a).blocks| && Merged(pre, a).blocks[i].addr == a
  {
    hide Inv, Freed, MergeUp, Within;
    FreedInv(pre, a);
    FreedWithin(pre, a);
    MergeUpWithin(Freed(pre, a), OwnerOf(pre.blocks, a, 0), pre.blocks);
  }

  /** heap_free goes to its first merge. */
  lemma MergeNextMove(pre: Heap, a: int)
    requires Inv(pre) && Releasable(pre, a + HEADER) && OwnerOf(pre.blocks, a, 0) < |pre.blocks|
    ensures var m := Freed(pre, a).mem;
      Runnable(m, MergeNext(a)) && PhaseInv(pre, Free(a + HEADER), m, Move(m, MergeNext(a)))
  {
    hide Inv, Freed, Bytes.Word, Releasable, Within, MergeUp, Merged, Passes;
    var i := OwnerOf(pre.blocks, a, 0);
    FreedInv(pre, a);
    FreedWithin(pre, a);
    var h1 := Freed(pre, a);
    ReadLive(h1, i);
    if i + 1 < |h1.blocks| {
      ReadLive(h1, i + 1);
    } else {
      LastMerged(pre, a);
    }
  }

  lemma LastMerged(pre: Heap, a: int)
    requires Inv(pre) && OwnerOf(pre.blocks, a, 0) == |pre.blocks| - 1
    ensures Merged(pre, a) == Freed(pre, a)
  {
    hide Inv;
    FreedInv(pre, a);
  }

  /** heap_free at its second merge, through a back link that may be out of date. */
  lemma MergePrevMove(pre: Heap, a: int)
    requires Inv(pre) && Releasable(pre, a + HEADER) && OwnerOf(pre.blocks, a, 0) < |pre.blocks|
    ensures var m := Merged(pre, a).mem;
      Runnable(m, MergePrev(a)) && PhaseInv(pre, Free(a + HEADER), m, Move(m, MergePrev(a)))
  {
    hide Inv, Freed, Bytes.Word, Releasable, Within, MergeUp, Merged, Passes, Apply, Mergeable;
    var i := OwnerOf(pre.blocks, a, 0);
    MergedFacts(pre, a);
    var h2 := Merged(pre, a);
    ReadLive(h2, i);
    if i > 0 {
      StaleLinkNeverMerges(h2, i);
      LinkInRange(h2, i);
    } else {
      FreeIs(pre, a);
    }
  }

  lemma LinkInRange(h: Heap, i: int)
    requires Inv(h) && 1 <= i < |h.blocks|
    ensures InRange(h.mem, h.blocks[i].prev)
  {
    hide Bytes.Word;
    assert BackLink(h.blocks, i);
    WithinTop(h.blocks, |h.mem|, i - 1);
    WithinTop(h.blocks, |h.mem|, 0);
  }

  /** A step of the test of the first merge. */
  lemma ProbeNext(pre: Heap, call: Op, m: seq<byte>, head: int, tail: int, s: int)
    requires Inv(pre) && Legal(pre, call) && !call.Write?
    requires PhaseInv(pre, call, m, Probe(head, tail, s, MergePrev(head)))
    ensures var ph := Probe(head, tail, s, MergePrev(head));
      Runnable(m, ph) && PhaseInv(pre, call, m, Move(m, ph))
  {
    hide Inv, Freed, Within, MergeUp, Merged, Runnable, Move, Apply, Probing;
    FreedInv(pre, head);
    FreedWithin(pre, head);
    MergedFacts(pre, head);
    ProbingMem(Freed(pre, head), OwnerOf(pre.blocks, head, 0), head, tail, m, s);
    ProbeMove(pre, call, Freed(pre, head), OwnerOf(pre.blocks, head, 0), head, tail, s, MergePrev(head));
  }

  /** A step of the test of the second merge. */
  lemma ProbePrev(pre: Heap, call: Op, m: seq<byte>, head: int, tail: int, s: int)
    requires Inv(pre) && Legal(pre, call) && !call.Write?
    requires PhaseInv(pre, call, m, Probe(head, tail, s, Leave(0)))
    ensures var ph := Probe(head, tail, s, Leave(0));
      Runnable(m, ph) && PhaseInv(pre, call, m, Move(m, ph))
  {
    hide Inv, Freed, Within, MergeUp, Merged, Runnable, Move, Apply, Probing;
    var i := OwnerOf(pre.blocks, tail, 0);
    MergedFacts(pre, tail);
    FreeIs(pre, tail);
    ProbingMem(Merged(pre, tail), i - 1, head, tail, m, s);
    LeaveInv(pre, call);
    ProbeMove(pre, call, Merged(pre, tail), i - 1, head, tail, s, Leave(0));
  }

  lemma ProbingMem(h: Heap, i: int, head: int, tail: int, m: seq<byte>, s: int)
    requires Probing(h, i, head, tail, m, s)
    ensures m == h.mem && Inv(h) && 0 <= i < |h.blocks| - 1
  {
  }

  /** What heap_free on the block at a comes to. */
  lemma FreeIs(pre: Heap, a: int)
    requires Inv(pre) && Releasable(pre, a + HEADER) && OwnerOf(pre.blocks, a, 0) < |pre.blocks|
    ensures Inv(Freed(pre, a)) && Inv(MergeUp(Freed(pre, a), OwnerOf(pre.blocks, a, 0)))
    ensures var i := OwnerOf(pre.blocks, a, 0);
      var h2 := MergeUp(Freed(pre, a), i);
      Apply(pre, Free(a + HEADER)) == if i > 0 then MergeUp(h2, i - 1) else h2
  {
    hide Inv, MergeUp, Bytes.StoreTag, Bytes.HasTag, SameOutside;
    FreedInv(pre, a);
    MergeUpInv(Freed(pre, a), OwnerOf(pre.blocks, a, 0));
    FreeAcceptsExactly(pre, a + HEADER);
    assert Owns(pre.blocks[OwnerOf(pre.blocks, a, 0)], a);
  }

  lemma NothingMerged(h: Heap, i: int)
    requires Inv(h) && 0 <= i < |h.blocks| - 1 && !MutualFree(h.blocks, i)
    ensures MergeUp(h, i) == h
  {
  }

  lemma {:induction false} StoringMove(pre: Heap, call: Op, m: seq<byte>, ws: Stores, goal: Phase)
    requires Inv(pre) && Legal(pre, call) && !call.Write? && PhaseInv(pre, call, m, Storing(ws, goal))
    ensures Runnable(m, Storing(ws, goal))
    ensures PhaseInv(pre, call, MoveMem(m, Storing(ws, goal)), Move(m, Storing(ws, goal)))
  {
    hide Inv, Legal, Bytes.Store, Clear;
    if ws.Then? {
      StoringInv(pre, call, Store(m, ws.at, ws.value), ws.rest, goal);
    }
  }

  /** Every move of a processor inside stays in memory and keeps to the way of its call. */
  lemma {:induction false} MoveInv(pre: Heap, call: Op, m: seq<byte>, ph: Phase)
    requires Inv(pre) && Legal(pre, call) && !call.Write? && PhaseInv(pre, call, m, ph) && !ph.Leave?
    ensures Runnable(m, ph) && PhaseInv(pre, call, MoveMem(m, ph), Move(m, ph))
  {
    hide Inv, Legal, Runnable, Move, MoveMem, PhaseInv;
    MoveMemIs(m, ph);
    match ph
    case Scan(n, at) => ScanCase(pre, call, m, n, at);
    case Check(ptr) => CheckCase(pre, call, m, ptr);
    case CheckStatus(ptr) => CheckCase(pre, call, m, ptr);
    case MergeNext(a) => MergeCase(pre, call, m, a);
    case MergePrev(a) => MergeCase(pre, call, m, a);
    case Probe(head, tail, s, goal) => ProbeCase(pre, call, m, head, tail, s, goal);
    case Storing(ws, goal) => StoringMove(pre, call, m, ws, goal);
  }

  lemma ScanCase(pre: Heap, call: Op, m: seq<byte>, n: word, at: int)
    requires Inv(pre) && Legal(pre, call) && !call.Write? && PhaseInv(pre, call, m, Scan(n, at))
    ensures Runnable(m, Scan(n, at)) && PhaseInv(pre, call, m, Move(m, Scan(n, at)))
  {
    hide Inv, Legal, Runnable, Move;
    ScanMove(pre, n, at);
  }

  lemma CheckCase(pre: Heap, call: Op, m: seq<byte>, ptr: int)
    requires Inv(pre) && Legal(pre, call) && !call.Write?
    ensures PhaseInv(pre, call, m, Check(ptr)) ==>
      Runnable(m, Check(ptr)) && PhaseInv(pre, call, m, Move(m, Check(ptr)))
    ensures PhaseInv(pre, call, m, CheckStatus(ptr)) ==>
      Runnable(m, CheckStatus(ptr)) && PhaseInv(pre, call, m, Move(m, CheckStatus(ptr)))
  {
    hide Inv, Runnable, Move;
    if PhaseInv(pre, call, m, Check(ptr)) {
      CheckMove(pre, ptr);
    }
    if PhaseInv(pre, call, m, CheckStatus(ptr)) {
      CheckStatusMove(pre, ptr);
    }
  }

  lemma MergeCase(pre: Heap, call: Op, m: seq<byte>, a: int)
    requires Inv(pre) && Legal(pre, call) && !call.Write?
    ensures PhaseInv(pre, call, m, MergeNext(a)) ==>
      Runnable(m, MergeNext(a)) && PhaseInv(pre, call, m, Move(m, MergeNext(a)))
    ensures PhaseInv(pre, call, m, MergePrev(a)) ==>
      Runnable(m, MergePrev(a)) && PhaseInv(pre, call, m, Move(m, MergePrev(a)))
  {
    hide Inv, Runnable, Move, Freed, Merged;
    if PhaseInv(pre, call, m, MergeNext(a)) {
      MergeNextMove(pre, a);
    }
    if PhaseInv(pre, call, m, MergePrev(a)) {
      MergePrevMove(pre, a);
    }
  }

  lemma ProbeCase(pre: Heap, call: Op, m: seq<byte>, head: int, tail: int, s: int, goal: Phase)
    requires Inv(pre) && Legal(pre, call) && !call.Write? && PhaseInv(pre, call, m, Probe(head, tail, s, goal))
    ensures Runnable(m, Probe(head, tail, s, goal)) && PhaseInv(pre, call, m, Move(m, Probe(head, tail, s, goal)))
  {
    hide Inv, Legal, Runnable, Move, Probing, Freed, Merged;
    if goal.MergePrev? {
      ProbeNext(pre, call, m, head, tail, s);
    } else {
      ProbePrev(pre, call, m, head, tail, s);
    }
  }

  lemma {:induction false} MoveMemIs(m: seq<byte>, ph: Phase)
    ensures Runnable(m, ph) && !ph.Storing? ==> MoveMem(m, ph) == m
  {
  }

  // ----- Every critical section ends

  function Length(ws: Stores): nat {
    if ws.Done? then 0 else 1 + Length(ws.rest)
  }

  /** The index at or after i of the block at address a, or the number of blocks. */
  function AddrIndex(bs: seq<Block>, a: int, i: int): (k: int)
    requires 0 <= i <= |bs|
    ensures i <= k <= |bs| && (k < |bs| ==> bs[k].addr == a) && forall j :: i <= j < k ==> bs[j].addr != a
    decreases |bs| - i
  {
    if i == |bs| || bs[i].addr == a then i else AddrIndex(bs, a, i + 1)
  }

  /** How many more moves a processor can make before it leaves. */
  function Work(bs: seq<Block>, ph: Phase): nat {
    match ph
    case Scan(_, at) => 10 + |bs| - AddrIndex(bs, at, 0)
    case Check(_) => 22
    case CheckStatus(_) => 21
    case MergeNext(_) => 18
    case MergePrev(_) => 9
    case Probe(_, _, s, goal) => (if s < STEPS then 8 - s else 0) + Work(bs, goal)
    case Storing(ws, goal) => 1 + Length(ws) + Work(bs, goal)
    case Leave(_) => 0
  }

  lemma TakeLength(b: Block, n: word)
    requires Takeable(b)
    ensures Length(TakeStores(b, n)) <= 8
  {
    if Splits(b, n) {
      var ws := Then(b.addr + 16, n, Then(b.addr + 8, b.addr + HEADER + n, Done));
      assert Length(ws.rest.rest) == 0 && Length(ws.rest) == 1 && Length(ws) == 2;
      var hs := HeaderStores(Remainder(b, n), ws);
      assert hs.rest.rest.rest.rest.rest == ws;
      assert Length(hs.rest.rest.rest.rest) == 3 && Length(hs.rest.rest.rest) == 4 && Length(hs.rest.rest) == 5;
      assert Length(hs.rest) == 6 && Length(hs) == 7;
    } else {
      assert Length(Done) == 0;
    }
  }

  lemma AbsorbLength(b: Block, t: Block)
    requires Absorbable(b, t)
    ensures Length(AbsorbStores(b, t)) <= 3
  {
    var ws := Then(b.addr + 8, t.next, Then(b.addr + 16, b.size + HEADER + t.size, Done));
    assert Length(ws.rest.rest) == 0 && Length(ws.rest) == 1 && Length(ws) == 2;
  }

  lemma ScanShortens(pre: Heap, n: word, at: int)
    requires Inv(pre) && Reached(pre.blocks, n, at) && Runnable(pre.mem, Scan(n, at))
    ensures Work(pre.blocks, Move(pre.mem, Scan(n, at))) < Work(pre.blocks, Scan(n, at))
  {
    var k :| 0 <= k <= |pre.blocks| && ReachedAt(pre.blocks, n, at, k);
    AllAscending(pre.blocks, |pre.mem|);
    if k < |pre.blocks| {
      ReadLive(pre, k);
      hide Inv, TakeStores, Bytes.Word, Bytes.HasTag;
      TakeLength(pre.blocks[k], n);
    }
  }

  /** Each move inside brings the end nearer: a call leaves after at most 22 moves more than there are blocks. */
  lemma MoveShortens(pre: Heap, call: Op, m: seq<byte>, ph: Phase)
    requires Inv(pre) && Legal(pre, call) && !call.Write? && PhaseInv(pre, call, m, ph) && Runnable(m, ph)
    ensures Work(pre.blocks, Move(m, ph)) < Work(pre.blocks, ph)
  {
    hide Inv, Legal, Apply, AbsorbStores, AvoidsBuffers, Freed, Merged, Probing, Passes, StoreAll, Bytes.HasTag,
      Bytes.Word, Takeable;
    match ph
    case Scan(n, at) => ScanShortens(pre, n, at);
    case Check(_) =>
    case CheckStatus(_) => assert Length(Done) == 0 && Length(Then(0, 0, Done)) == 1;
    case MergeNext(a) =>
    case MergePrev(a) =>
    case Probe(head, tail, s, goal) => ProbeShortens(pre.blocks, m, head, tail, s, goal);
    case Storing(_, _) =>
  }

  lemma ProbeShortens(bs: seq<Block>, m: seq<byte>, head: int, tail: int, s: int, goal: Phase)
    requires Runnable(m, Probe(head, tail, s, goal))
    ensures Work(bs, Move(m, Probe(head, tail, s, goal))) < Work(bs, Probe(head, tail, s, goal))
  {
    hide AbsorbStores, Passes;
    if Passes(m, head, tail, s) && s == STEPS - 1 {
      AbsorbLength(ReadAt(m, head), ReadAt(m, tail));
    }
  }
}
