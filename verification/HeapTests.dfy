/** The tests of heap_merge and heap_free, one word of the tested header at a time. */
module HeapTests {
  import opened Bytes
  import opened HeapLayout
  import opened HeapModel
  import opened HeapOps
  import opened HeapRuns

  /** heap_merge tests a header in four steps: magic, status, links and size. */
  const STEPS: int := 4

  /** Step s of the test that the block at tail may be merged into the one at head. */
  predicate Passes(m: seq<byte>, head: int, tail: int, s: int)
    requires InRange(m, head) && InRange(m, tail)
  {
    if s == 0 then HasMagic(m, head) && HasMagic(m, tail)
    else if s == 1 then IsFree(m, head) && IsFree(m, tail)
    else if s == 2 then Next(m, head) == tail && Prev(m, tail) == head
    else Wrap(head + HEADER + Size(m, head)) == tail
  }

  /** The first s steps all pass on this memory. */
  predicate PassesFirst(m: seq<byte>, head: int, tail: int, s: int)
    requires InRange(m, head) && InRange(m, tail)
  {
    (s > 0 ==> Passes(m, head, tail, 0)) && (s > 1 ==> Passes(m, head, tail, 1)) &&
    (s > 2 ==> Passes(m, head, tail, 2)) && (s > 3 ==> Passes(m, head, tail, 3))
  }

  /** On one and the same memory, the four steps are the tests of heap_merge. */
  lemma StepsAreGuards(m: seq<byte>, head: int, tail: int)
    requires InRange(m, head) && InRange(m, tail)
    ensures PassesFirst(m, head, tail, STEPS) <==> MergeGuards(m, head, tail)
  {
    hide Bytes.Word, Bytes.HasTag, Bytes.Wrap;
  }

  lemma PassesOne(m: seq<byte>, head: int, tail: int, s: int)
    requires InRange(m, head) && InRange(m, tail) && 0 <= s < STEPS
    ensures PassesFirst(m, head, tail, s + 1) <==> PassesFirst(m, head, tail, s) && Passes(m, head, tail, s)
  {
    hide Passes;
  }

  lemma PassesEarlier(m: seq<byte>, head: int, tail: int, s: int, c: int)
    requires InRange(m, head) && InRange(m, tail) && 0 <= c < s <= STEPS && PassesFirst(m, head, tail, s)
    ensures Passes(m, head, tail, c)
  {
    hide Passes;
  }

  /** The step that reads a byte of a live control block d bytes above the tested header, and cannot pass on it. */
  function DoomIndex(d: int): int {
    if d < 0 then 0 else if d < 4 then 1 else if d < 12 then 2 else 3
  }

  predicate Overlaps(b: Block, head: int) {
    b.addr != head && b.addr < head + HEADER && head < b.addr + HEADER
  }

  /** A control block that fits below 1 GiB. */
  predicate Fitting(b: Block) {
    0 <= b.next < ADDRESS_LIMIT && 0 <= b.prev < ADDRESS_LIMIT && 0 <= b.size < ADDRESS_LIMIT
  }

  lemma TopByte(m: seq<byte>, a: int)
    requires 0 <= a && a + 4 <= |m|
    ensures Word(m, a) < ADDRESS_LIMIT <==> m[a + 3] < 0x40
    ensures m[a + 3] >= 0xEF ==> Word(m, a) >= 0xEF00_0000
    ensures m[a + 3] < 0x52 ==> Word(m, a) < 0x5200_0000
  {
  }

  /** Bytes of a live control block are among the twenty tested: one step fails whatever the other bytes hold. */
  lemma Doom(m: seq<byte>, b: Block, head: int, tail: int)
    requires Holds(m, b) && Fitting(b) && Overlaps(b, head) && InRange(m, head) && InRange(m, tail)
    requires head + HEADER <= tail < ADDRESS_LIMIT
    ensures !Passes(m, head, tail, DoomIndex(b.addr - head))
  {
    hide Bytes.Word;
    TopByte(m, b.addr + 8);
    TopByte(m, b.addr + 12);
    TopByte(m, b.addr + 16);
    TopByte(m, head + 8);
    TopByte(m, head + 16);
  }

  /** The same for the two words that heap_free tests in front of a pointer. */
  lemma DoomCheck(m: seq<byte>, b: Block, a: int)
    requires Holds(m, b) && Fitting(b) && b.addr != a && b.addr < a + 8 && a < b.addr + HEADER && InRange(m, a)
    ensures if b.addr < a then !HasMagic(m, a) else !IsUsed(m, a)
  {
    hide Bytes.Word;
    TopByte(m, b.addr + 8);
    TopByte(m, b.addr + 12);
    TopByte(m, b.addr + 16);
  }

  /** Step s of the test, or a later one, fails for good because of live block j. */
  predicate DoomedBy(bs: seq<Block>, head: int, s: int, j: int) {
    0 <= j < |bs| && Overlaps(bs[j], head) && s <= DoomIndex(bs[j].addr - head)
  }

  ghost predicate Doomed(bs: seq<Block>, head: int, s: int) {
    exists j :: DoomedBy(bs, head, s, j)
  }

  // ----- Client writes near a tested header

  /** The write and the n bytes at x have a byte in common. */
  predicate Touches(at: int, len: int, x: int, n: int) {
    at < x + n && x < at + len
  }

  /** The n bytes at x lie in one buffer in use, where clients may change any of them. */
  ghost predicate Exposed(bs: seq<Block>, x: int, n: int) {
    exists k :: 0 <= k < |bs| && InsideBuffer(bs[k], x, n)
  }

  /** A write into buffer k that touches bytes that are not all in the buffer: a live control block overlaps them. */
  lemma Straddles(bs: seq<Block>, top: int, k: int, at: int, len: int, x: int, n: int) returns (j: int)
    requires Tiled(bs, top) && 0 <= k < |bs| && InsideBuffer(bs[k], at, len) && Touches(at, len, x, n)
    requires !InsideBuffer(bs[k], x, n) && 0 < n <= HEADER && x + n <= top
    ensures 0 <= j < |bs| && bs[j].addr != x && bs[j].addr < x + n && x < bs[j].addr + HEADER
  {
    assert Joined(bs, k, top);
    if x < bs[k].addr + HEADER {
      j := k;
    } else {
      j := k + 1;
    }
  }
}
