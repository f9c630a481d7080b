/** The control block in front of every memory region of the kernel heap, byte by byte. */
module HeapLayout {
  import opened Bytes

  /** The magic numbers 0x51514949, 0x40404040 and 0xEFEFEFEF, as they lie in memory. */
  const HEAD: Tag := Tag(0x49, 0x49, 0x51, 0x51)
  const FREE: Tag := Tag(0x40, 0x40, 0x40, 0x40)
  const USED: Tag := Tag(0xEF, 0xEF, 0xEF, 0xEF)

  /** Five 32-bit fields: magic, status, next, prev, size. */
  const HEADER: int := 20

  /** The heap lies below 1 GiB, so no address or size inside it contains a byte of a magic number on top. */
  const ADDRESS_LIMIT: int := 0x4000_0000

  predicate InRange(m: seq<byte>, a: int) {
    0 <= a && a + HEADER <= |m|
  }

  predicate HasMagic(m: seq<byte>, a: int) requires InRange(m, a) { HasTag(m, a, HEAD) }
  predicate IsFree(m: seq<byte>, a: int) requires InRange(m, a) { HasTag(m, a + 4, FREE) }
  predicate IsUsed(m: seq<byte>, a: int) requires InRange(m, a) { HasTag(m, a + 4, USED) }
  function Next(m: seq<byte>, a: int): word requires InRange(m, a) { Word(m, a + 8) }
  function Prev(m: seq<byte>, a: int): word requires InRange(m, a) { Word(m, a + 12) }
  function Size(m: seq<byte>, a: int): word requires InRange(m, a) { Word(m, a + 16) }

  /** The eight bytes at a look like the start of a control block. */
  predicate Marked(m: seq<byte>, a: int) {
    InRange(m, a) && HasMagic(m, a) && (IsFree(m, a) || IsUsed(m, a))
  }

  /** A mark whose next and size could belong to the heap. */
  predicate Header(m: seq<byte>, a: int) {
    Marked(m, a) && Next(m, a) < ADDRESS_LIMIT && Size(m, a) < ADDRESS_LIMIT
  }

  /** What a control block says about its own memory region. */
  datatype Block = Block(addr: int, size: int, used: bool, next: int, prev: int)

  /** The control block b is stored in m at its own address. */
  predicate Holds(m: seq<byte>, b: Block) {
    InRange(m, b.addr) &&
    HasMagic(m, b.addr) && (if b.used then IsUsed(m, b.addr) else IsFree(m, b.addr)) &&
    Next(m, b.addr) == b.next && Prev(m, b.addr) == b.prev && Size(m, b.addr) == b.size
  }

  /** The top bytes of a header's next and size are smaller than every byte of a magic number. */
  lemma TopBytes(m: seq<byte>, a: int)
    requires Header(m, a)
    ensures m[a + 11] < 0x40 && m[a + 19] < 0x40
  {
  }

  /** A mark cannot begin inside a header, nor run into one: the bytes of the two would disagree. */
  lemma MarksApart(m: seq<byte>, a: int, b: int)
    requires Header(m, a) && Marked(m, b) && a != b
    ensures b + 8 <= a || a + HEADER <= b
  {
    hide Bytes.Word;
    TopBytes(m, a);
  }

  /** A header written across the next field of an older mark leaves a value that is no heap address there. */
  lemma NextAcross(m: seq<byte>, a: int, b: int)
    requires Header(m, a) && InRange(m, b) && b + 8 <= a < b + 12
    ensures Next(m, b) >= ADDRESS_LIMIT
  {
    assert m[b + 11] >= 0x40;
  }

  /** A control block is read from its own twenty bytes only. */
  lemma HoldsFrame(m: seq<byte>, r: seq<byte>, b: Block)
    requires Holds(m, b) && |r| == |m|
    requires forall x :: b.addr <= x < b.addr + HEADER ==> r[x] == m[x]
    ensures Holds(r, b)
  {
  }

  /** Storing one field of a control block changes that field alone. */
  lemma StoreStatus(m: seq<byte>, b: Block, used: bool)
    requires Holds(m, b)
    ensures Holds(StoreTag(m, b.addr + 4, if used then USED else FREE), b.(used := used))
  {
  }

  lemma StoreNext(m: seq<byte>, b: Block, v: word)
    requires Holds(m, b)
    ensures Holds(Store(m, b.addr + 8, v), b.(next := v))
  {
  }

  lemma StorePrev(m: seq<byte>, b: Block, v: word)
    requires Holds(m, b)
    ensures Holds(Store(m, b.addr + 12, v), b.(prev := v))
  {
  }

  lemma StoreSize(m: seq<byte>, b: Block, v: word)
    requires Holds(m, b)
    ensures Holds(Store(m, b.addr + 16, v), b.(size := v))
  {
  }

  /** The five words of a control block, as numbers: magic, status, next, prev and size, four bytes apart. */
  lemma HeaderWords(m: seq<byte>, b: Block)
    ensures Holds(m, b) <==>
      && 0 <= b.addr && b.addr + 20 <= |m|
      && Word(m, b.addr) == 0x5151_4949 && Word(m, b.addr + 4) == (if b.used then 0xEFEF_EFEF else 0x4040_4040)
      && Word(m, b.addr + 8) == b.next && Word(m, b.addr + 12) == b.prev && Word(m, b.addr + 16) == b.size
  {
    if InRange(m, b.addr) {
      TagIsWord(m, b.addr, HEAD);
      TagIsWord(m, b.addr + 4, USED);
      TagIsWord(m, b.addr + 4, FREE);
    }
  }
}
