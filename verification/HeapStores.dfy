/** heap_alloc and heap_free as the list of words they store, one after another. */
module HeapStores {
  import opened Bytes
  import opened HeapLayout
  import opened HeapModel
  import opened HeapOps
  import opened HeapInvariant
  import opened HeapRuns

  datatype Stores = Done | Then(at: int, value: word, rest: Stores)

  predicate Fit(size: int, ws: Stores) {
    ws.Done? || (0 <= ws.at && ws.at + 4 <= size && Fit(size, ws.rest))
  }

  /** Memory after the stores, in order. */
  function StoreAll(m: seq<byte>, ws: Stores): (r: seq<byte>)
    requires Fit(|m|, ws)
    ensures |r| == |m|
    decreases ws
  {
    if ws.Done? then m else StoreAll(Store(m, ws.at, ws.value), ws.rest)
  }

  function Append(ws: Stores, vs: Stores): Stores {
    if ws.Done? then vs else Then(ws.at, ws.value, Append(ws.rest, vs))
  }

  lemma {:induction false} StoreAllAppend(m: seq<byte>, ws: Stores, vs: Stores)
    requires Fit(|m|, ws) && Fit(|m|, vs)
    ensures Fit(|m|, Append(ws, vs)) && StoreAll(m, Append(ws, vs)) == StoreAll(StoreAll(m, ws), vs)
    decreases ws
  {
    hide Bytes.Store;
    if ws.Then? {
      StoreAllAppend(Store(m, ws.at, ws.value), ws.rest, vs);
    }
  }

  lemma {:induction false} ConsTag(m: seq<byte>, at: int, t: Tag, ws: Stores)
    requires 0 <= at && at + 4 <= |m| && Fit(|m|, ws)
    ensures Fit(|m|, Then(at, TagWord(t), ws)) &&
      StoreAll(m, Then(at, TagWord(t), ws)) == StoreAll(StoreTag(m, at, t), ws)
  {
    StoreTagIsStore(m, at, t);
  }

  lemma {:induction false} Cons(m: seq<byte>, at: int, v: word, ws: Stores)
    requires 0 <= at && at + 4 <= |m| && Fit(|m|, ws)
    ensures Fit(|m|, Then(at, v, ws)) && StoreAll(m, Then(at, v, ws)) == StoreAll(Store(m, at, v), ws)
  {
  }

  /** Writing a free block's control block, followed by more stores. */
  function HeaderStores(b: Block, ws: Stores): Stores
    requires 0 <= b.size < ADDRESS_LIMIT && 0 <= b.prev < ADDRESS_LIMIT && 0 <= b.next < 0x1_0000_0000
  {
    Then(b.addr, TagWord(HEAD), Then(b.addr + 4, TagWord(FREE), Then(b.addr + 16, b.size,
      Then(b.addr + 12, b.prev, Then(b.addr + 8, b.next, ws)))))
  }

  lemma {:induction false} HeaderStoresWrite(m: seq<byte>, b: Block, ws: Stores)
    requires InRange(m, b.addr) && 0 <= b.size < ADDRESS_LIMIT && 0 <= b.prev < ADDRESS_LIMIT &&
      0 <= b.next < 0x1_0000_0000
    requires Fit(|m|, ws)
    ensures Fit(|m|, HeaderStores(b, ws)) && StoreAll(m, HeaderStores(b, ws)) == StoreAll(WriteHeader(m, b), ws)
  {
    hide Bytes.Store, Bytes.StoreTag, StoreAll, Fit;
    var w5 := Then(b.addr + 8, b.next, ws);
    var w4 := Then(b.addr + 12, b.prev, w5);
    var w3 := Then(b.addr + 16, b.size, w4);
    var w2 := Then(b.addr + 4, TagWord(FREE), w3);
    FitThen(|m|, b.addr + 8, b.next, ws);
    FitThen(|m|, b.addr + 12, b.prev, w5);
    FitThen(|m|, b.addr + 16, b.size, w4);
    FitThen(|m|, b.addr + 4, TagWord(FREE), w3);
    FitThen(|m|, b.addr, TagWord(HEAD), w2);
    ConsTag(m, b.addr, HEAD, w2);
    var m1 := StoreTag(m, b.addr, HEAD);
    ConsTag(m1, b.addr + 4, FREE, w3);
    var m2 := StoreTag(m1, b.addr + 4, FREE);
    Cons(m2, b.addr + 16, b.size, w4);
    var m3 := Store(m2, b.addr + 16, b.size);
    Cons(m3, b.addr + 12, b.prev, w5);
    Cons(Store(m3, b.addr + 12, b.prev), b.addr + 8, b.next, ws);
  }

  lemma {:induction false} FitThen(size: int, at: int, v: word, ws: Stores)
    requires 0 <= at && at + 4 <= size && Fit(size, ws)
    ensures Fit(size, Then(at, v, ws))
  {
  }

  /** The stores of heap_alloc once block b has been chosen. */
  function TakeStores(b: Block, n: int): (ws: Stores)
    requires 0 <= n && 0 < b.addr && 0 <= b.next && b.next < 0x1_0000_0000 && 0 <= b.size &&
      b.addr + HEADER + b.size <= ADDRESS_LIMIT
  {
    Then(b.addr + 4, TagWord(USED),
         if !Splits(b, n) then Done else
         HeaderStores(Remainder(b, n), Then(b.addr + 16, n, Then(b.addr + 8, b.addr + HEADER + n, Done))))
  }

  lemma SplitStoresWrite(m: seq<byte>, b: Block, n: int)
    requires Holds(m, b) && 0 <= n && 0 < b.addr && b.addr + HEADER + b.size <= |m| <= ADDRESS_LIMIT && Splits(b, n)
    ensures var ws := HeaderStores(Remainder(b, n), Then(b.addr + 16, n, Then(b.addr + 8, b.addr + HEADER + n, Done)));
      Fit(|m|, ws) && StoreAll(StoreTag(m, b.addr + 4, USED), ws) == SplitMem(m, b, n)
  {
    hide Bytes.Store, Bytes.StoreTag, Bytes.Word, WriteHeader, HeaderStores, StoreAll;
    var m1, rest := StoreTag(m, b.addr + 4, USED), b.addr + HEADER + n;
    var w2 := Then(b.addr + 8, rest, Done);
    assert Fit(|m|, Done) && Fit(|m|, w2) && Fit(|m|, Then(b.addr + 16, n, w2));
    HeaderStoresWrite(m1, Remainder(b, n), Then(b.addr + 16, n, w2));
    var m2 := WriteHeader(m1, Remainder(b, n));
    Cons(m2, b.addr + 16, n, w2);
    Cons(Store(m2, b.addr + 16, n), b.addr + 8, rest, Done);
    Nothing(Store(Store(m2, b.addr + 16, n), b.addr + 8, rest));
  }

  lemma TakeStoresWrite(m: seq<byte>, b: Block, n: int)
    requires Holds(m, b) && 0 <= n && 0 < b.addr && b.addr + HEADER + b.size <= |m| <= ADDRESS_LIMIT
    ensures Fit(|m|, TakeStores(b, n))
    ensures StoreAll(m, TakeStores(b, n)) == if Splits(b, n) then SplitMem(m, b, n) else StoreTag(m, b.addr + 4, USED)
  {
    hide Bytes.StoreTag, Bytes.Word, SplitMem, HeaderStores, StoreAll;
    if Splits(b, n) {
      SplitStoresWrite(m, b, n);
      var shrink := Then(b.addr + 16, n, Then(b.addr + 8, b.addr + HEADER + n, Done));
      ConsTag(m, b.addr + 4, USED, HeaderStores(Remainder(b, n), shrink));
    } else {
      ConsTag(m, b.addr + 4, USED, Done);
      Nothing(StoreTag(m, b.addr + 4, USED));
    }
  }

  lemma Nothing(m: seq<byte>)
    ensures StoreAll(m, Done) == m
  {
  }

  /** The stores of heap_alloc. */
  ghost function AllocStores(h: Heap, n: int): (ws: Stores)
    requires Inv(h) && 0 <= n
  {
    var k := FirstFit(h.blocks, n, 0);
    if k == |h.blocks| then Done else
    WithinTop(h.blocks, |h.mem|, k);
    assert Holds(h.mem, h.blocks[k]);
    TakeStores(h.blocks[k], n)
  }

  lemma AllocStoresWrite(h: Heap, n: int)
    requires Inv(h) && 0 <= n
    ensures Fit(|h.mem|, AllocStores(h, n)) && StoreAll(h.mem, AllocStores(h, n)) == AllocHeap(h, n).mem
  {
    hide Bytes.StoreTag, Bytes.Word, SplitMem, SplitBlocks, TakeStores, StoreAll;
    var k := FirstFit(h.blocks, n, 0);
    if k < |h.blocks| {
      WithinTop(h.blocks, |h.mem|, k);
      assert h.blocks[k].addr > 0 && Holds(h.mem, h.blocks[k]);
      TakeStoresWrite(h.mem, h.blocks[k], n);
    } else {
      Nothing(h.mem);
    }
  }

  /** The stores of heap_merge once its tests have passed. */
  function AbsorbStores(b: Block, t: Block): (ws: Stores)
    requires 0 < b.addr < ADDRESS_LIMIT && 0 <= t.next < 0x1_0000_0000 && 0 <= b.size + HEADER + t.size < ADDRESS_LIMIT
  {
    var ws := Then(b.addr + 8, t.next, Then(b.addr + 16, b.size + HEADER + t.size, Done));
    if t.next != 0 then Then(t.next + 12, b.addr, ws) else ws
  }

  lemma AbsorbStoresWrite(m: seq<byte>, b: Block, t: Block)
    requires Holds(m, b) && Holds(m, t) && Mergeable(m, b.addr, t.addr) && MergeGuards(m, b.addr, t.addr)
    requires 0 < b.addr && b.addr + HEADER <= t.addr && b.size + HEADER + t.size < ADDRESS_LIMIT
    requires t.next == 0 || t.addr + HEADER <= t.next
    ensures Fit(|m|, AbsorbStores(b, t)) && StoreAll(m, AbsorbStores(b, t)) == MergeMem(m, b.addr, t.addr)
  {
    hide Bytes.Store, Bytes.Word, StoreAll, MergeGuards;
    var size := b.size + HEADER + t.size;
    var m1 := Relink(m, b.addr, t.next);
    HoldsFrame(m, m1, b);
    HoldsFrame(m, m1, t);
    var m2 := Store(m1, b.addr + 8, t.next);
    StoreNext(m1, b, t.next);
    HoldsFrame(m1, m2, t);
    var w := Then(b.addr + 16, size, Done);
    assert Fit(|m|, Done) && Fit(|m|, w) && Fit(|m|, Then(b.addr + 8, t.next, w));
    Nothing(Store(m2, b.addr + 16, size));
    Cons(m2, b.addr + 16, size, Done);
    Cons(m1, b.addr + 8, t.next, w);
    if t.next != 0 {
      Cons(m, t.next + 12, b.addr, Then(b.addr + 8, t.next, w));
    }
  }

  /** The stores of heap_merge on neighbours i and i + 1. */
  ghost function MergeStores(h: Heap, i: int): (ws: Stores)
    requires Inv(h) && 0 <= i
  {
    if i + 1 >= |h.blocks| || !MutualFree(h.blocks, i) then Done else
    Neighbours(h, i);
    AbsorbStores(h.blocks[i], h.blocks[i + 1])
  }

  lemma Neighbours(h: Heap, i: int)
    requires Inv(h) && 0 <= i < |h.blocks| - 1
    ensures var b, t := h.blocks[i], h.blocks[i + 1];
      && Holds(h.mem, b) && Holds(h.mem, t) && |h.mem| <= ADDRESS_LIMIT
      && 0 < b.addr && b.addr + HEADER <= t.addr && 0 <= b.size + HEADER + t.size < ADDRESS_LIMIT
      && (t.next == 0 || t.addr + HEADER <= t.next)
  {
    hide Bytes.Word;
    WithinTop(h.blocks, |h.mem|, i);
    WithinTop(h.blocks, |h.mem|, i + 1);
    assert Joined(h.blocks, i, |h.mem|) && Joined(h.blocks, i + 1, |h.mem|);
  }

  lemma MergeStoresWrite(h: Heap, i: int)
    requires Inv(h) && 0 <= i
    ensures Fit(|h.mem|, MergeStores(h, i)) && StoreAll(h.mem, MergeStores(h, i)) == MergeUp(h, i).mem
  {
    hide Inv, MergeMem, AbsorbStores, MergeBlocks, Holds;
    if i + 1 < |h.blocks| && MutualFree(h.blocks, i) {
      LiveMergeable(h, i);
      Neighbours(h, i);
      AbsorbStoresWrite(h.mem, h.blocks[i], h.blocks[i + 1]);
    } else {
      Nothing(h.mem);
    }
  }

  ghost function FreeStores(h: Heap, ptr: int): (ws: Stores)
    requires Inv(h) && Releasable(h, ptr)
  {
    FreeAcceptsExactly(h, ptr);
    if !LooksAllocated(h.mem, ptr) then Done else
    var i := OwnerOf(h.blocks, ptr - HEADER, 0);
    StatusInv(h, i, false);
    Then(ptr - HEADER + 4, TagWord(FREE), CoalesceStores(StatusHeap(h, i, false), i))
  }

  ghost function CoalesceStores(h: Heap, i: int): (ws: Stores)
    requires Inv(h) && 0 <= i
  {
    MergeUpInv(h, i);
    Append(MergeStores(h, i), if i > 0 then MergeStores(MergeUp(h, i), i - 1) else Done)
  }

  lemma CoalesceStoresWrite(h: Heap, i: int)
    requires Inv(h) && 0 <= i
    ensures Fit(|h.mem|, CoalesceStores(h, i)) && StoreAll(h.mem, CoalesceStores(h, i)) == Coalesce(h, i).mem
  {
    hide Inv, MergeUp, MergeStores, SameOutside;
    MergeUpInv(h, i);
    MergeStoresWrite(h, i);
    if i > 0 {
      MergeStoresWrite(MergeUp(h, i), i - 1);
      StoreAllAppend(h.mem, MergeStores(h, i), MergeStores(MergeUp(h, i), i - 1));
    } else {
      StoreAllAppend(h.mem, MergeStores(h, i), Done);
    }
  }

  lemma FreeStoresWrite(h: Heap, ptr: int)
    requires Inv(h) && Releasable(h, ptr)
    ensures Fit(|h.mem|, FreeStores(h, ptr)) && StoreAll(h.mem, FreeStores(h, ptr)) == FreeHeap(h, ptr).mem
  {
    hide Inv, StoreAll, Bytes.Store, Bytes.StoreTag, Bytes.HasTag, CoalesceStores, Coalesce;
    FreeAcceptsExactly(h, ptr);
    if LooksAllocated(h.mem, ptr) {
      var i := OwnerOf(h.blocks, ptr - HEADER, 0);
      StatusInv(h, i, false);
      var h1 := StatusHeap(h, i, false);
      CoalesceStoresWrite(h1, i);
      ConsTag(h.mem, ptr - HEADER + 4, FREE, CoalesceStores(h1, i));
    } else {
      Nothing(h.mem);
    }
  }
}
