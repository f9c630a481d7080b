/** Bytes, little-endian 32-bit words, and stores into a byte-addressed memory. */
module Bytes {

  type byte = x: int | 0 <= x < 0x100

  type word = x: int | 0 <= x < 0x1_0000_0000

  /** Unsigned 32-bit arithmetic: x reduced modulo 2^32. */
  function Wrap(x: int): (w: word)
    ensures 0 <= x < 0x1_0000_0000 ==> w == x
  {
    x % 0x1_0000_0000
  }

  /** The number whose base-256 digits are b0, b1, b2, b3, lowest first. */
  function FromDigits(b0: byte, b1: byte, b2: byte, b3: byte): (w: word) {
    b0 as int + 0x100 * (b1 as int + 0x100 * (b2 as int + 0x100 * (b3 as int)))
  }

  lemma DigitsUnique(b0: byte, b1: byte, b2: byte, b3: byte, c0: byte, c1: byte, c2: byte, c3: byte)
    requires FromDigits(b0, b1, b2, b3) == FromDigits(c0, c1, c2, c3)
    ensures b0 == c0 && b1 == c1 && b2 == c2 && b3 == c3
  {
    var b, c := b1 as int + 0x100 * (b2 as int + 0x100 * (b3 as int)),
      c1 as int + 0x100 * (c2 as int + 0x100 * (c3 as int));
    assert b == c && b0 == c0;
    var d, e := b2 as int + 0x100 * (b3 as int), c2 as int + 0x100 * (c3 as int);
    assert d == e && b1 == c1;
  }

  /** The little-endian word stored at address a. */
  function Word(m: seq<byte>, a: int): (w: word)
    requires 0 <= a && a + 4 <= |m|
  {
    FromDigits(m[a], m[a + 1], m[a + 2], m[a + 3])
  }

  /** Memory after writing the word v at address a, lowest byte first. */
  function Store(m: seq<byte>, a: int, v: word): (r: seq<byte>)
    requires 0 <= a && a + 4 <= |m|
    ensures |r| == |m|
    ensures Word(r, a) == v
    ensures forall x :: 0 <= x < |m| && !(a <= x < a + 4) ==> r[x] == m[x]
  {
    var v1 := v / 0x100;
    var v2 := v1 / 0x100;
    m[a := v % 0x100][a + 1 := v1 % 0x100][a + 2 := v2 % 0x100][a + 3 := v2 / 0x100]
  }

  /** A word depends on its own four bytes only. */
  lemma WordFrame(m: seq<byte>, r: seq<byte>, a: int)
    requires 0 <= a && a + 4 <= |m| == |r|
    requires forall x :: a <= x < a + 4 ==> r[x] == m[x]
    ensures Word(r, a) == Word(m, a)
  {
  }

  /** A four-byte constant, lowest byte first. */
  datatype Tag = Tag(b0: byte, b1: byte, b2: byte, b3: byte)

  function TagWord(t: Tag): word {
    FromDigits(t.b0, t.b1, t.b2, t.b3)
  }

  predicate HasTag(m: seq<byte>, a: int, t: Tag)
    requires 0 <= a && a + 4 <= |m|
  {
    m[a] == t.b0 && m[a + 1] == t.b1 && m[a + 2] == t.b2 && m[a + 3] == t.b3
  }

  function StoreTag(m: seq<byte>, a: int, t: Tag): (r: seq<byte>)
    requires 0 <= a && a + 4 <= |m|
    ensures |r| == |m| && HasTag(r, a, t)
    ensures forall x :: 0 <= x < |m| && !(a <= x < a + 4) ==> r[x] == m[x]
  {
    m[a := t.b0][a + 1 := t.b1][a + 2 := t.b2][a + 3 := t.b3]
  }

  /** Comparing words is comparing tags. */
  lemma TagIsWord(m: seq<byte>, a: int, t: Tag)
    requires 0 <= a && a + 4 <= |m|
    ensures HasTag(m, a, t) <==> Word(m, a) == TagWord(t)
  {
    if Word(m, a) == TagWord(t) {
      DigitsUnique(m[a], m[a + 1], m[a + 2], m[a + 3], t.b0, t.b1, t.b2, t.b3);
    }
  }

  /** Storing a word that is a tag's value stores the tag. */
  lemma StoreTagIsStore(m: seq<byte>, a: int, t: Tag)
    requires 0 <= a && a + 4 <= |m|
    ensures StoreTag(m, a, t) == Store(m, a, TagWord(t))
  {
    var r := Store(m, a, TagWord(t));
    TagIsWord(r, a, t);
  }
}
