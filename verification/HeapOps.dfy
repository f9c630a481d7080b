/** heap_alloc, heap_merge and heap_free, on the bytes and on the list of blocks. */
module HeapOps {
  import opened Bytes
  import opened HeapLayout

  /** A block is split only when it has more than a header and one byte to spare. */
  const SPLIT_SLACK: int := HEADER + 1

  predicate Fits(b: Block, n: int) {
    !b.used && b.size >= n
  }

  /** Index of the first block at or after i that can hold n bytes, or the number of blocks. */
  function FirstFit(bs: seq<Block>, n: int, i: int): (k: int)
    requires 0 <= i <= |bs|
    ensures i <= k <= |bs|
    ensures k < |bs| ==> Fits(bs[k], n)
    ensures forall j :: i <= j < k ==> !Fits(bs[j], n)
    decreases |bs| - i
  {
    if i == |bs| || Fits(bs[i], n) then i else FirstFit(bs, n, i + 1)
  }

  // ----- Allocation

  predicate Splits(b: Block, n: int) {
    b.size > n + SPLIT_SLACK
  }

  function SplitBlocks(bs: seq<Block>, k: int, n: int): seq<Block>
    requires 0 <= k < |bs|
  {
    bs[..k] + [bs[k].(used := true, size := n, next := bs[k].addr + HEADER + n), Remainder(bs[k], n)] + bs[k + 1..]
  }

  /** The stores that set up a free block's control block, in program order. */
  function WriteHeader(m: seq<byte>, b: Block): (r: seq<byte>)
    requires InRange(m, b.addr) && 0 <= b.size < ADDRESS_LIMIT && 0 <= b.prev < ADDRESS_LIMIT &&
      0 <= b.next < 0x1_0000_0000
    ensures |r| == |m|
    ensures forall x :: 0 <= x < |m| && !(b.addr <= x < b.addr + HEADER) ==> r[x] == m[x]
  {
    var m1 := StoreTag(m, b.addr, HEAD);
    var m2 := StoreTag(m1, b.addr + 4, FREE);
    var m3 := Store(m2, b.addr + 16, b.size);
    var m4 := Store(m3, b.addr + 12, b.prev);
    Store(m4, b.addr + 8, b.next)
  }

  lemma WriteHeaderStored(m: seq<byte>, b: Block)
    requires InRange(m, b.addr) && 0 <= b.size < ADDRESS_LIMIT && 0 <= b.prev < ADDRESS_LIMIT &&
      0 <= b.next < 0x1_0000_0000
    requires !b.used
    ensures Holds(WriteHeader(m, b), b)
  {
    hide Bytes.Word, Bytes.Store, Bytes.StoreTag;
    var m2 := StoreTag(StoreTag(m, b.addr, HEAD), b.addr + 4, FREE);
    var m3 := Store(m2, b.addr + 16, b.size);
    var m4 := Store(m3, b.addr + 12, b.prev);
    var m5 := Store(m4, b.addr + 8, b.next);
    WordFrame(m3, m5, b.addr + 16);
    WordFrame(m4, m5, b.addr + 12);
  }

  /** The rest of block b after n bytes and a new control block have been cut off its front. */
  function Remainder(b: Block, n: int): Block {
    Block(b.addr + HEADER + n, b.size - n - HEADER, false, b.next, b.addr)
  }

  /** The stores of a splitting allocation, in program order. */
  function SplitMem(m: seq<byte>, b: Block, n: int): (r: seq<byte>)
    requires Holds(m, b) && 0 <= n && b.addr + HEADER + n + HEADER <= |m| <= ADDRESS_LIMIT
    requires Splits(b, n) && b.size < ADDRESS_LIMIT
  {
    var rest := Remainder(b, n);
    var m1 := WriteHeader(StoreTag(m, b.addr + 4, USED), rest);
    Store(Store(m1, b.addr + 16, n), b.addr + 8, rest.addr)
  }

  lemma SplitStored(m: seq<byte>, b: Block, n: int)
    requires Holds(m, b) && 0 <= n && b.addr + HEADER + n + HEADER <= |m| <= ADDRESS_LIMIT
    requires Splits(b, n) && b.size < ADDRESS_LIMIT
    ensures var r, rest := SplitMem(m, b, n), b.addr + HEADER + n;
      && |r| == |m|
      && (forall x :: 0 <= x < |m| && !(b.addr <= x < b.addr + HEADER) && !(rest <= x < rest + HEADER) ==> r[x] == m[x])
      && Holds(r, b.(used := true, size := n, next := rest)) && Holds(r, Remainder(b, n))
  {
    hide Bytes.Word, Bytes.Store, Bytes.StoreTag, WriteHeader;
    var rest, taken := Remainder(b, n), b.(used := true);
    StoreStatus(m, b, true);
    var m0 := StoreTag(m, b.addr + 4, USED);
    var m1 := WriteHeader(m0, rest);
    WriteHeaderStored(m0, rest);
    HoldsFrame(m0, m1, taken);
    StoreSize(m1, taken, n);
    StoreNext(Store(m1, b.addr + 16, n), taken.(size := n), rest.addr);
    HoldsFrame(m1, SplitMem(m, b, n), rest);
  }

  // ----- Merging

  /** The four tests of heap_merge; the last one is 32-bit pointer arithmetic. */
  predicate MergeGuards(m: seq<byte>, head: int, tail: int)
    requires InRange(m, head) && InRange(m, tail)
  {
    HasMagic(m, head) && HasMagic(m, tail) && IsFree(m, head) && IsFree(m, tail) &&
    Next(m, head) == tail && Prev(m, tail) == head &&
    Wrap(head + HEADER + Size(m, head)) == tail
  }

  predicate Mergeable(m: seq<byte>, head: int, tail: int) {
    |m| <= ADDRESS_LIMIT && InRange(m, head) && InRange(m, tail) && (Next(m, tail) == 0 || InRange(m, Next(m, tail)))
  }

  /** Makes the block after the tail, if there is one, point back at head. */
  function Relink(m: seq<byte>, head: int, bound: int): (r: seq<byte>)
    requires InRange(m, head) && |m| <= ADDRESS_LIMIT && (bound == 0 || InRange(m, bound))
    ensures |r| == |m|
    ensures forall x :: 0 <= x < |m| && !(bound != 0 && bound <= x < bound + HEADER) ==> r[x] == m[x]
  {
    if bound != 0 then Store(m, bound + 12, head) else m
  }

  /** The stores of heap_merge, in program order. */
  function MergeMem(m: seq<byte>, head: int, tail: int): (r: seq<byte>)
    requires Mergeable(m, head, tail)
  {
    if !MergeGuards(m, head, tail) then m else
    var m1 := Relink(m, head, Next(m, tail));
    var m2 := Store(m1, head + 8, Next(m1, tail));
    Store(m2, head + 16, Wrap(Size(m2, head) + HEADER + Size(m2, tail)))
  }

  /** The stores into head: its next field, then its size, which absorbs the tail's header and data. */
  lemma WidenStored(m: seq<byte>, b: Block, t: Block)
    requires Holds(m, b) && Holds(m, t) && b.addr + HEADER <= t.addr && b.size + HEADER + t.size < ADDRESS_LIMIT
    ensures var m2 := Store(m, b.addr + 8, Next(m, t.addr));
      var r := Store(m2, b.addr + 16, Wrap(Size(m2, b.addr) + HEADER + Size(m2, t.addr)));
      && |r| == |m|
      && (forall x :: 0 <= x < |m| && !(b.addr <= x < b.addr + HEADER) ==> r[x] == m[x])
      && Holds(r, b.(next := t.next, size := b.size + HEADER + t.size))
  {
    hide Bytes.Word, Bytes.Store, Bytes.StoreTag, Bytes.Wrap;
    var m2 := Store(m, b.addr + 8, t.next);
    StoreNext(m, b, t.next);
    HoldsFrame(m, m2, t);
    StoreSize(m2, b.(next := t.next), b.size + HEADER + t.size);
  }

  lemma MergeStored(m: seq<byte>, b: Block, t: Block)
    requires Holds(m, b) && Holds(m, t) && Mergeable(m, b.addr, t.addr) && MergeGuards(m, b.addr, t.addr)
    requires b.addr + HEADER <= t.addr && b.size + HEADER + t.size < ADDRESS_LIMIT
    requires t.next == 0 || t.addr + HEADER <= t.next
    ensures var r := MergeMem(m, b.addr, t.addr);
      && |r| == |m|
      && (forall x :: 0 <= x < |m| && !(b.addr <= x < b.addr + HEADER) &&
                      !(t.next != 0 && t.next <= x < t.next + HEADER)
            ==> r[x] == m[x])
      && Holds(r, b.(next := t.next, size := b.size + HEADER + t.size))
      && (forall c: Block :: Holds(m, c) && c.addr == t.next != 0 ==> Holds(r, c.(prev := b.addr)))
  {
    hide Bytes.Word, Bytes.Store, Bytes.StoreTag, Bytes.Wrap;
    var m1 := Relink(m, b.addr, t.next);
    HoldsFrame(m, m1, b);
    HoldsFrame(m, m1, t);
    WidenStored(m1, b, t);
    var r := MergeMem(m, b.addr, t.addr);
    forall c: Block | Holds(m, c) && c.addr == t.next != 0
      ensures Holds(r, c.(prev := b.addr))
    {
      StorePrev(m, c, b.addr);
      HoldsFrame(m1, r, c.(prev := b.addr));
    }
  }
}
