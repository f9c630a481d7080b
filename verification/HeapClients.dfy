/** Clients write into their buffers while a processor is inside the allocator: neither notices the other, unless the
    write touches the header that is just being tested and all of that header lies in a buffer in use. */
module HeapClients {
  import opened Bytes
  import opened Sequences
  import opened HeapLayout
  import opened HeapModel
  import opened HeapOps
  import opened HeapInvariant
  import opened HeapRuns
  import opened HeapTests
  import opened HeapStores
  import opened HeapSteps

  /** Calls of heap_alloc, and of heap_free on a pointer into the heap. */
  predicate IsCall(op: Op, bottom: int, top: int) {
    op.Alloc? || (op.Free? && bottom + HEADER <= op.ptr <= top)
  }

  lemma CallLegal(h: Heap, op: Op)
    requires Inv(h) && IsCall(op, h.blocks[0].addr, |h.mem|)
    ensures Legal(h, op)
  {
  }

  // ----- The words a call stores

  ghost function CallStores(h: Heap, op: Op): (ws: Stores)
    requires Inv(h) && IsCall(op, h.blocks[0].addr, |h.mem|)
  {
    if op.Alloc? then AllocStores(h, op.size) else FreeStores(h, op.ptr)
  }

  lemma CallStoresWrite(h: Heap, op: Op)
    requires Inv(h) && IsCall(op, h.blocks[0].addr, |h.mem|)
    ensures Legal(h, op) && Fit(|h.mem|, CallStores(h, op)) && StoreAll(h.mem, CallStores(h, op)) == Apply(h, op).mem
  {
    hide Inv, StoreAll, AllocHeap, FreeHeap, AllocStores, FreeStores;
    CallLegal(h, op);
    if op.Alloc? {
      AllocStoresWrite(h, op.size);
    } else {
      FreeStoresWrite(h, op.ptr);
    }
  }

  /** The blocks alone decide which words a merge stores. */
  lemma MergeStoresSame(h: Heap, g: Heap, i: int)
    requires Inv(h) && Inv(g) && h.blocks == g.blocks && 0 <= i
    ensures MergeStores(h, i) == MergeStores(g, i)
  {
  }

  lemma CoalesceStoresSame(h: Heap, g: Heap, i: int)
    requires Inv(h) && Inv(g) && h.blocks == g.blocks && 0 <= i
    ensures CoalesceStores(h, i) == CoalesceStores(g, i)
  {
    hide Inv, MergeUp, MergeStores, MergeBlocks, SameOutside;
    MergeUpInv(h, i);
    MergeUpInv(g, i);
    MergeStoresSame(h, g, i);
    if i > 0 {
      MergeStoresSame(MergeUp(h, i), MergeUp(g, i), i - 1);
    }
  }

  lemma FreeStoresSame(h: Heap, g: Heap, ptr: int)
    requires Inv(h) && Inv(g) && h.blocks == g.blocks && Releasable(h, ptr) && Releasable(g, ptr)
    ensures FreeStores(h, ptr) == FreeStores(g, ptr)
  {
    hide Inv, Releasable, LooksAllocated, StatusHeap, CoalesceStores, SameOutside;
    FreeAcceptsExactly(h, ptr);
    FreeAcceptsExactly(g, ptr);
    if LooksAllocated(h.mem, ptr) {
      var i := OwnerOf(h.blocks, ptr - HEADER, 0);
      StatusInv(h, i, false);
      StatusInv(g, i, false);
      StatusBlocks(h, g, i);
      CoalesceStoresSame(StatusHeap(h, i, false), StatusHeap(g, i, false), i);
    }
  }

  lemma StatusBlocks(h: Heap, g: Heap, i: int)
    requires Inv(h) && Inv(g) && h.blocks == g.blocks && 0 <= i < |h.blocks|
    ensures InRange(h.mem, h.blocks[i].addr) && InRange(g.mem, g.blocks[i].addr)
    ensures StatusHeap(h, i, false).blocks == StatusHeap(g, i, false).blocks
  {
    assert Holds(h.mem, h.blocks[i]) && Holds(g.mem, g.blocks[i]);
  }

  lemma CallStoresSame(h: Heap, g: Heap, op: Op)
    requires Inv(h) && Inv(g) && h.blocks == g.blocks && |h.mem| == |g.mem|
    requires |h.blocks| > 0 && IsCall(op, h.blocks[0].addr, |h.mem|)
    ensures CallStores(h, op) == CallStores(g, op)
  {
    CallLegal(h, op);
    CallLegal(g, op);
    hide Inv, Releasable, FreeStores, TakeStores;
    if op.Free? {
      FreeStoresSame(h, g, op.ptr);
    }
  }

  // ----- They stay out of the buffers

  lemma {:induction false} AppendAvoids(ws: Stores, vs: Stores, bs: seq<Block>)
    requires AvoidsBuffers(ws, bs) && AvoidsBuffers(vs, bs)
    ensures AvoidsBuffers(Append(ws, vs), bs)
    decreases ws
  {
    hide Clear;
    if ws.Then? {
      AppendAvoids(ws.rest, vs, bs);
    }
  }

  lemma CoalesceAvoids(pre: Heap, h: Heap, i: int)
    requires Inv(pre) && Inv(h) && 0 <= i < |h.blocks| && Within(h.blocks, pre.blocks)
    ensures AvoidsBuffers(CoalesceStores(h, i), pre.blocks)
  {
    hide Inv, MergeUp, MergeStores, Within, AvoidsBuffers;
    MergeUpWithin(h, i, pre.blocks);
    MergeStoresAvoid(pre, h, i);
    AvoidsDone(pre.blocks);
    if i > 0 {
      MergeStoresAvoid(pre, MergeUp(h, i), i - 1);
      AppendAvoids(MergeStores(h, i), MergeStores(MergeUp(h, i), i - 1), pre.blocks);
    } else {
      AppendAvoids(MergeStores(h, i), Done, pre.blocks);
    }
  }

  lemma CallStoresAvoid(h: Heap, op: Op)
    requires Inv(h) && IsCall(op, h.blocks[0].addr, |h.mem|)
    ensures AvoidsBuffers(CallStores(h, op), h.blocks)
  {
    CallLegal(h, op);
    assert Tiled(h.blocks, |h.mem|);
    hide Inv, Tiled, Releasable, AvoidsBuffers, TakeStores, CoalesceStores, Within;
    AvoidsDone(h.blocks);
    if op.Alloc? {
      var k := FirstFit(h.blocks, op.size, 0);
      if k < |h.blocks| {
        ReadLive(h, k);
        TakeAvoids(h.blocks, |h.mem|, k, op.size);
      }
    } else {
      FreeStoresAvoid(h, op.ptr);
    }
  }

  lemma FreeStoresAvoid(h: Heap, ptr: int)
    requires Inv(h) && Releasable(h, ptr)
    ensures AvoidsBuffers(FreeStores(h, ptr), h.blocks)
  {
    hide Inv, Releasable, LooksAllocated, AvoidsBuffers, CoalesceStores, Within, Freed, Clear;
    FreeAcceptsExactly(h, ptr);
    AvoidsDone(h.blocks);
    if LooksAllocated(h.mem, ptr) {
      FreedStore(h, ptr - HEADER);
      FreedInv(h, ptr - HEADER);
      FreedWithin(h, ptr - HEADER);
      var i := OwnerOf(h.blocks, ptr - HEADER, 0);
      CoalesceAvoids(h, Freed(h, ptr - HEADER), i);
      FreedIs(h, ptr - HEADER);
      FirstClear(ptr - HEADER + 4, TagWord(FREE), Done, h.blocks);
      AvoidsThen(h.blocks, ptr - HEADER + 4, TagWord(FREE), CoalesceStores(Freed(h, ptr - HEADER), i));
    }
  }

  lemma FreedIs(h: Heap, a: int)
    requires Inv(h) && OwnerOf(h.blocks, a, 0) < |h.blocks|
    ensures InRange(h.mem, a) && Freed(h, a) == StatusHeap(h, OwnerOf(h.blocks, a, 0), false)
  {
    assert Holds(h.mem, h.blocks[OwnerOf(h.blocks, a, 0)]);
  }

  lemma FirstClear(at: int, v: word, ws: Stores, bs: seq<Block>)
    requires AvoidsBuffers(Then(at, v, ws), bs)
    ensures Clear(bs, at)
  {
  }

  // ----- So they commute with client writes

  lemma StoreCommutes(m: seq<byte>, x: int, v: word, at: int, data: seq<byte>)
    requires 0 <= x && x + 4 <= |m| && 0 <= at && at + |data| <= |m| && (x + 4 <= at || at + |data| <= x)
    ensures Store(Splice(m, at, data), x, v) == Splice(Store(m, x, v), at, data)
  {
    hide Splice;
    assert forall y :: 0 <= y < |m| ==> Store(Splice(m, at, data), x, v)[y] == Splice(Store(m, x, v), at, data)[y];
  }

  lemma {:induction false} StoresCommute(m: seq<byte>, ws: Stores, bs: seq<Block>, i: int, at: int, data: seq<byte>)
    requires Fit(|m|, ws) && AvoidsBuffers(ws, bs) && 0 <= at && at + |data| <= |m|
    requires 0 <= i < |bs| && InsideBuffer(bs[i], at, |data|)
    ensures StoreAll(Splice(m, at, data), ws) == Splice(StoreAll(m, ws), at, data)
    decreases ws
  {
    hide Splice, Bytes.Store;
    if ws.Then? {
      assert OutsideData(bs[i], ws.at);
      StoreCommutes(m, ws.at, ws.value, at, data);
      StoresCommute(Store(m, ws.at, ws.value), ws.rest, bs, i, at, data);
    }
  }

  /** The heap after a client's write. */
  function Written(h: Heap, at: int, data: seq<byte>): Heap
    requires 0 <= at && at + |data| <= |h.mem|
  {
    h.(mem := Splice(h.mem, at, data))
  }

  /** A call after the write is the write after the call. */
  lemma CallCommutes(pre: Heap, call: Op, i: int, at: int, data: seq<byte>)
    requires Inv(pre) && IsCall(call, pre.blocks[0].addr, |pre.mem|)
    requires 0 <= at && at + |data| <= |pre.mem| && 0 <= i < |pre.blocks| && InsideBuffer(pre.blocks[i], at, |data|)
    requires Inv(Written(pre, at, data))
    ensures Legal(pre, call) && Legal(Written(pre, at, data), call) && |Apply(pre, call).mem| == |pre.mem|
    ensures Apply(Written(pre, at, data), call).mem == Splice(Apply(pre, call).mem, at, data)
  {
    hide Inv, IsCall, Apply, StoreAll, AvoidsBuffers, Splice, CallStores;
    var post := Written(pre, at, data);
    CallStoresWrite(pre, call);
    CallStoresWrite(post, call);
    CallStoresSame(pre, post, call);
    CallStoresAvoid(pre, call);
    StoresCommute(pre.mem, CallStores(pre, call), pre.blocks, i, at, data);
  }

  lemma FreedCommutes(pre: Heap, a: int, i: int, at: int, data: seq<byte>)
    requires Inv(pre) && OwnerOf(pre.blocks, a, 0) < |pre.blocks|
    requires 0 <= at && at + |data| <= |pre.mem| && 0 <= i < |pre.blocks| && InsideBuffer(pre.blocks[i], at, |data|)
    requires Inv(Written(pre, at, data))
    ensures |Freed(pre, a).mem| == |pre.mem| && Freed(Written(pre, at, data), a) == Written(Freed(pre, a), at, data)
  {
    hide Inv, StoreAll, AvoidsBuffers, Splice, Freed, Bytes.Store, Bytes.StoreTag;
    var post, ws := Written(pre, at, data), Then(a + 4, TagWord(FREE), Done);
    FreedStore(pre, a);
    FreedStore(post, a);
    ConsTag(pre.mem, a + 4, FREE, Done);
    ConsTag(post.mem, a + 4, FREE, Done);
    Nothing(StoreTag(pre.mem, a + 4, FREE));
    Nothing(StoreTag(post.mem, a + 4, FREE));
    StoresCommute(pre.mem, ws, pre.blocks, i, at, data);
    FreedInv(pre, a);
    SameFreedBlocks(pre, post, a);
  }

  lemma SameFreedBlocks(pre: Heap, post: Heap, a: int)
    requires Inv(pre) && Inv(post) && pre.blocks == post.blocks && OwnerOf(pre.blocks, a, 0) < |pre.blocks|
    ensures Freed(pre, a).blocks == Freed(post, a).blocks
  {
    hide Inv;
    FreedIs(pre, a);
    FreedIs(post, a);
  }

  lemma MergedCommutes(pre: Heap, a: int, i: int, at: int, data: seq<byte>)
    requires Inv(pre) && OwnerOf(pre.blocks, a, 0) < |pre.blocks|
    requires 0 <= at && at + |data| <= |pre.mem| && 0 <= i < |pre.blocks| && InsideBuffer(pre.blocks[i], at, |data|)
    requires Inv(Written(pre, at, data))
    ensures |Merged(pre, a).mem| == |pre.mem| && Merged(Written(pre, at, data), a) == Written(Merged(pre, a), at, data)
  {
    hide Inv, StoreAll, AvoidsBuffers, Splice, Freed, MergeUp, MergeStores, Within, SameOutside, MergeBlocks, Merged;
    var k, post := OwnerOf(pre.blocks, a, 0), Written(pre, at, data);
    FreedInv(pre, a);
    FreedInv(post, a);
    FreedCommutes(pre, a, i, at, data);
    var h, g := Freed(pre, a), Freed(post, a);
    FreedWithin(pre, a);
    MergedFacts(pre, a);
    MergedFacts(post, a);
    MergeUpInv(h, k);
    MergeUpInv(g, k);
    MergeStoresWrite(h, k);
    MergeStoresWrite(g, k);
    MergeStoresSame(h, g, k);
    MergeStoresAvoid(pre, h, k);
    StoresCommute(h.mem, MergeStores(h, k), pre.blocks, i, at, data);
  }

  // ----- Client writes and tests

  /** The write changes bytes of the header that is being tested, and all the bytes tested lie in a buffer in use. */
  ghost predicate Disturbs(bs: seq<Block>, ph: Phase, at: int, len: int) {
    match ph
    case CheckStatus(ptr) => Touches(at, len, ptr - HEADER, 8) && Exposed(bs, ptr - HEADER, 8)
    case Probe(head, _, _, _) => Touches(at, len, head, HEADER) && Exposed(bs, head, HEADER)
    case _ => false
  }

  /** A test goes on undisturbed by a write that leaves its twenty bytes alone, or hits them next to a control block. */
  lemma ProbingWritten(h: Heap, i: int, head: int, tail: int, s: int, at: int, data: seq<byte>)
    requires Probing(h, i, head, tail, h.mem, s) && 0 <= at && at + |data| <= |h.mem| && Inv(Written(h, at, data))
    requires Touches(at, |data|, head, HEADER) ==> exists j :: 0 <= j < |h.blocks| && Overlaps(h.blocks[j], head)
    ensures Probing(Written(h, at, data), i, head, tail, Splice(h.mem, at, data), s)
  {
    hide Inv, Passes, Doomed, PassesFirst, Splice;
    ProbeDecides(h, i, head, tail, s);
    if PassesFirst(h.mem, head, tail, s) {
      if Touches(at, |data|, head, HEADER) {
        var j :| 0 <= j < |h.blocks| && Overlaps(h.blocks[j], head);
        DoomAhead(h, head, tail, s, j);
      } else {
        SamePasses(h, i, head, tail, s, at, data);
      }
    }
  }

  lemma DoomAhead(h: Heap, head: int, tail: int, s: int, j: int)
    requires Inv(h) && 0 <= j < |h.blocks| && Overlaps(h.blocks[j], head) && 0 <= s < STEPS
    requires InRange(h.mem, head) && InRange(h.mem, tail) && head + HEADER <= tail < ADDRESS_LIMIT
    requires PassesFirst(h.mem, head, tail, s)
    ensures Doomed(h.blocks, head, s)
  {
    hide Inv, Passes, PassesFirst;
    LiveFitting(h, j);
    Doom(h.mem, h.blocks[j], head, tail);
    var c := DoomIndex(h.blocks[j].addr - head);
    if c < s {
      PassesEarlier(h.mem, head, tail, s, c);
    }
    assert DoomedBy(h.blocks, head, s, j);
  }

  lemma SamePasses(h: Heap, i: int, head: int, tail: int, s: int, at: int, data: seq<byte>)
    requires Inv(h) && 0 <= i < |h.blocks| - 1 && tail == h.blocks[i + 1].addr && InRange(h.mem, head)
    requires 0 <= at && at + |data| <= |h.mem| && Inv(Written(h, at, data)) && !Touches(at, |data|, head, HEADER)
    requires InRange(h.mem, tail) && PassesFirst(h.mem, head, tail, s)
    ensures PassesFirst(Splice(h.mem, at, data), head, tail, s)
  {
    hide Inv, Bytes.Word, Bytes.HasTag, Splice;
    ReadLive(h, i + 1);
    ReadLive(Written(h, at, data), i + 1);
    var m, r := h.mem, Splice(h.mem, at, data);
    SameHeader(m, r, head);
  }

  /** Twenty equal bytes read the same. */
  lemma SameHeader(m: seq<byte>, r: seq<byte>, a: int)
    requires InRange(m, a) && |r| == |m| && forall x :: a <= x < a + HEADER ==> r[x] == m[x]
    ensures HasMagic(r, a) == HasMagic(m, a) && IsFree(r, a) == IsFree(m, a) && IsUsed(r, a) == IsUsed(m, a)
    ensures Next(r, a) == Next(m, a) && Prev(r, a) == Prev(m, a) && Size(r, a) == Size(m, a)
  {
  }

  /** A write that touches a tested header which is not all in the written buffer: a live header overlaps it. */
  lemma NearHeader(bs: seq<Block>, top: int, i: int, at: int, len: int, head: int)
    requires Tiled(bs, top) && 0 <= i < |bs| && InsideBuffer(bs[i], at, len) && head + HEADER <= top
    requires Touches(at, len, head, HEADER) && !Exposed(bs, head, HEADER)
    ensures exists j :: 0 <= j < |bs| && Overlaps(bs[j], head)
  {
    var j := Straddles(bs, top, i, at, len, head, HEADER);
    assert Overlaps(bs[j], head);
  }

  lemma FreedOverlap(pre: Heap, a: int, head: int)
    requires Inv(pre) && OwnerOf(pre.blocks, a, 0) < |pre.blocks|
    requires exists j :: 0 <= j < |pre.blocks| && Overlaps(pre.blocks[j], head)
    ensures exists j :: 0 <= j < |Freed(pre, a).blocks| && Overlaps(Freed(pre, a).blocks[j], head)
  {
    hide Inv;
    FreedIs(pre, a);
    var j :| 0 <= j < |pre.blocks| && Overlaps(pre.blocks[j], head);
    assert Overlaps(Freed(pre, a).blocks[j], head);
  }

  /** Up to the released block, blocks stay where they are. */
  lemma MergedBelow(pre: Heap, a: int, j: int)
    requires Inv(pre) && OwnerOf(pre.blocks, a, 0) < |pre.blocks| && 0 <= j <= OwnerOf(pre.blocks, a, 0)
    ensures j < |Merged(pre, a).blocks| && Merged(pre, a).blocks[j].addr == pre.blocks[j].addr
    ensures Merged(pre, a).blocks[j].prev == pre.blocks[j].prev
  {
    hide Inv, MergeUp, Merged, MergeBlocks, SameOutside, Within;
    var i := OwnerOf(pre.blocks, a, 0);
    MergedFacts(pre, a);
    FreedIs(pre, a);
    MergeUpInv(Freed(pre, a), i);
    if i + 1 < |pre.blocks| {
      MergeIndex(Freed(pre, a).blocks, i);
    }
  }

  lemma MergedOverlap(pre: Heap, a: int, head: int)
    requires Inv(pre) && OwnerOf(pre.blocks, a, 0) < |pre.blocks| && head + HEADER <= a
    requires exists j :: 0 <= j < |pre.blocks| && Overlaps(pre.blocks[j], head)
    ensures exists j :: 0 <= j < |Merged(pre, a).blocks| && Overlaps(Merged(pre, a).blocks[j], head)
  {
    hide Inv, Tiled, Merged;
    TiledOf(pre);
    var i := OwnerOf(pre.blocks, a, 0);
    var j :| 0 <= j < |pre.blocks| && Overlaps(pre.blocks[j], head);
    if j > i {
      Ascending(pre.blocks, |pre.mem|, i, j);
      WithinTop(pre.blocks, |pre.mem|, i);
    }
    MergedBelow(pre, a, j);
    assert Overlaps(Merged(pre, a).blocks[j], head);
  }

  lemma CheckWritten(pre: Heap, a: int, i: int, at: int, data: seq<byte>)
    requires Inv(pre) && 0 <= i < |pre.blocks| && InsideBuffer(pre.blocks[i], at, |data|)
    requires 0 <= at && at + |data| <= |pre.mem| && InRange(pre.mem, a)
    requires HasMagic(pre.mem, a) && !(Touches(at, |data|, a, 8) && Exposed(pre.blocks, a, 8))
    ensures HasMagic(Splice(pre.mem, at, data), a) || StatusDoomed(pre.blocks, a)
  {
    hide Splice;
    if Touches(at, |data|, a, 8) {
      var j := Straddles(pre.blocks, |pre.mem|, i, at, |data|, a, 8);
      LiveFitting(pre, j);
      DoomCheck(pre.mem, pre.blocks[j], a);
    }
  }

  lemma ProbeNextWritten(pre: Heap, call: Op, m: seq<byte>, head: int, tail: int, s: int, i: int, at: int,
                         data: seq<byte>)
    requires Inv(pre) && Legal(pre, call) && !call.Write? && |m| == |pre.mem|
    requires 0 <= at && at + |data| <= |pre.mem| && 0 <= i < |pre.blocks| && InsideBuffer(pre.blocks[i], at, |data|)
    requires Inv(Written(pre, at, data)) && Legal(Written(pre, at, data), call)
    requires PhaseInv(pre, call, m, Probe(head, tail, s, MergePrev(head)))
    requires !(Touches(at, |data|, head, HEADER) && Exposed(pre.blocks, head, HEADER))
    ensures PhaseInv(Written(pre, at, data), call, Splice(m, at, data), Probe(head, tail, s, MergePrev(head)))
  {
    hide Inv, Tiled, Legal, Freed, Merged, Splice, Probing, Exposed, Within;
    TiledOf(pre);
    var k := OwnerOf(pre.blocks, head, 0);
    FreedInv(pre, head);
    FreedInv(Written(pre, at, data), head);
    FreedCommutes(pre, head, i, at, data);
    ProbingMem(Freed(pre, head), k, head, tail, m, s);
    if Touches(at, |data|, head, HEADER) {
      ProbingTail(Freed(pre, head), k, head, tail, m, s);
      NearHeader(pre.blocks, |pre.mem|, i, at, |data|, head);
      FreedOverlap(pre, head, head);
    }
    ProbingWritten(Freed(pre, head), k, head, tail, s, at, data);
  }

  lemma ProbingTail(h: Heap, i: int, head: int, tail: int, m: seq<byte>, s: int)
    requires Probing(h, i, head, tail, m, s)
    ensures head + HEADER <= tail && head + HEADER <= |h.mem|
  {
    ProbeDecides(h, i, head, tail, s);
  }

  lemma ProbePrevWritten(pre: Heap, call: Op, m: seq<byte>, head: int, tail: int, s: int, i: int, at: int,
                         data: seq<byte>)
    requires Inv(pre) && Legal(pre, call) && !call.Write? && |m| == |pre.mem|
    requires 0 <= at && at + |data| <= |pre.mem| && 0 <= i < |pre.blocks| && InsideBuffer(pre.blocks[i], at, |data|)
    requires Inv(Written(pre, at, data)) && Legal(Written(pre, at, data), call)
    requires PhaseInv(pre, call, m, Probe(head, tail, s, Leave(0)))
    requires !(Touches(at, |data|, head, HEADER) && Exposed(pre.blocks, head, HEADER))
    ensures PhaseInv(Written(pre, at, data), call, Splice(m, at, data), Probe(head, tail, s, Leave(0)))
  {
    hide Inv, Tiled, Legal, Freed, Merged, Splice, Probing, Exposed, Within;
    TiledOf(pre);
    var k := OwnerOf(pre.blocks, tail, 0);
    MergedFacts(pre, tail);
    MergedFacts(Written(pre, at, data), tail);
    MergedCommutes(pre, tail, i, at, data);
    ProbingMem(Merged(pre, tail), k - 1, head, tail, m, s);
    if Touches(at, |data|, head, HEADER) {
      ProbingTail(Merged(pre, tail), k - 1, head, tail, m, s);
      NearHeader(pre.blocks, |pre.mem|, i, at, |data|, head);
      MergedOverlap(pre, tail, head);
    }
    ProbingWritten(Merged(pre, tail), k - 1, head, tail, s, at, data);
  }

  /** Whatever phase a processor is in, a client's write that does not disturb a test takes it to the same phase of the
      same call on the written heap. */
  lemma {:induction false} WriteKeepsPhase(pre: Heap, call: Op, m: seq<byte>, ph: Phase, i: int, at: int,
                                           data: seq<byte>)
    requires Inv(pre) && IsCall(call, pre.blocks[0].addr, |pre.mem|) && Legal(pre, call) && |m| == |pre.mem|
    requires 0 <= at && at + |data| <= |pre.mem| && 0 <= i < |pre.blocks| && InsideBuffer(pre.blocks[i], at, |data|)
    requires Inv(Written(pre, at, data)) && PhaseInv(pre, call, m, ph) && !Disturbs(pre.blocks, ph, at, |data|)
    ensures Legal(Written(pre, at, data), call) && PhaseInv(Written(pre, at, data), call, Splice(m, at, data), ph)
    decreases ph
  {
    hide Inv, Apply, StoreAll, AvoidsBuffers, Splice, Freed, Merged, Legal, Reached, Fit, Exposed, Probing,
      StatusDoomed;
    CallCommutes(pre, call, i, at, data);
    match ph
    case Scan(_, _) =>
    case Check(_) =>
    case CheckStatus(ptr) =>
      if HasMagic(m, ptr - HEADER) {
        CheckWritten(pre, ptr - HEADER, i, at, data);
      }
    case MergeNext(a) => FreedCommutes(pre, a, i, at, data);
    case MergePrev(a) => MergedCommutes(pre, a, i, at, data);
    case Probe(head, tail, s, goal) =>
      if goal.MergePrev? {
        ProbeNextWritten(pre, call, m, head, tail, s, i, at, data);
      } else {
        ProbePrevWritten(pre, call, m, head, tail, s, i, at, data);
      }
    case Leave(_) =>
    case Storing(ws, goal) =>
      WriteKeepsPhase(pre, call, StoreAll(m, ws), goal, i, at, data);
      StoresCommute(m, ws, pre.blocks, i, at, data);
  }
}
