/** Writing an archive: every list of entries that fits the format has one, and it reads back as that list. */
module TarEncoder {
  import opened Bytes
  import opened CStrings
  import opened TarFormat

  const SIZE_DIGITS: int := 11
  const SIZE_LIMIT: int := 0x2_0000_0000

  /** The entry's name and size fit their fields. */
  predicate Encodable(e: Entry) {
    0 < |e.name| < NAME_FIELD && NUL !in e.name && |e.data| < SIZE_LIMIT
  }

  // ----- Octal sizes

  function Power8(k: nat): nat {
    if k == 0 then 1 else 8 * Power8(k - 1)
  }

  /** The k lowest octal digits of n, highest first. */
  function OctalDigits(n: nat, k: nat): (s: bytes)
    ensures |s| == k && IsNumeral(s)
  {
    if k == 0 then [] else OctalDigits(n / 8, k - 1) + [48 + n % 8]
  }

  lemma {:induction false} DigitsValue(n: nat, k: nat)
    requires n < Power8(k)
    ensures NumeralValue(OctalDigits(n, k)) == n
    decreases k
  {
    if k > 0 {
      DigitsValue(n / 8, k - 1);
      var s := OctalDigits(n, k);
      assert s[..|s| - 1] == OctalDigits(n / 8, k - 1);
    }
  }

  lemma SizeFits(n: nat)
    requires n < SIZE_LIMIT
    ensures n < Power8(SIZE_DIGITS)
  {
    assert Power8(4) == 0x1000;
    assert Power8(8) == 0x100_0000;
    assert Power8(11) == SIZE_LIMIT;
  }

  // ----- Blocks

  function Zeros(n: nat): (s: bytes)
    ensures |s| == n && forall i :: 0 <= i < n ==> s[i] == NUL
  {
    seq(n, i => NUL)
  }

  /** The header block: name, octal size and type in their fields, zeros elsewhere. */
  function Header(e: Entry): (h: bytes)
    requires Encodable(e)
    ensures |h| == BLOCK
  {
    e.name + Zeros(SIZE_AT - |e.name|) + OctalDigits(|e.data|, SIZE_DIGITS) + Zeros(KIND_AT - SIZE_AT - SIZE_DIGITS) +
    [e.kind] + Zeros(BLOCK - KIND_AT - 1)
  }

  lemma HeaderFields(e: Entry)
    requires Encodable(e)
    ensures var h := Header(e);
      && h[..|e.name|] == e.name && h[|e.name|] == NUL
      && h[SIZE_AT..SIZE_AT + SIZE_DIGITS] == OctalDigits(|e.data|, SIZE_DIGITS) && h[SIZE_AT + SIZE_DIGITS] == NUL
      && h[KIND_AT] == e.kind
  {
    hide OctalDigits, Zeros;
  }

  /** A header and the data, padded to whole blocks. */
  function EncodeEntry(e: Entry): (s: bytes)
    requires Encodable(e)
    ensures |s| == BLOCK * Blocks(|e.data|)
  {
    Header(e) + e.data + Zeros(BLOCK * Blocks(|e.data|) - BLOCK - |e.data|)
  }

  /** The entries one after another, and a block of zeros. */
  function Encode(es: seq<Entry>): (m: bytes)
    requires forall i :: 0 <= i < |es| ==> Encodable(es[i])
    ensures |m| >= BLOCK
  {
    if |es| == 0 then Zeros(BLOCK) else EncodeEntry(es[0]) + Encode(es[1..])
  }

  /** A string of a memory that lies at the same place in a part of it. */
  lemma StrInPart(m: seq<byte>, a: int, h: bytes, at: int, s: bytes)
    requires 0 <= a && a + |h| <= |m| && m[a..a + |h|] == h && 0 <= at && at + |s| < |h|
    requires h[at..at + |s|] == s && h[at + |s|] == NUL && NUL !in s
    ensures Str(m, a + at) == s
  {
    forall k | 0 <= k < |s| ensures s[k] == m[a + at + k] {
      assert s[k] == h[at..at + |s|][k] == h[at + k] == m[a..a + |h|][at + k];
    }
    assert h[at + |s|] == m[a..a + |h|][at + |s|];
    StrIs(m, a + at, s);
  }

  lemma NoNulInDigits(s: bytes)
    requires IsNumeral(s)
    ensures NUL !in s
  {
  }

  /** A memory that has an entry's header in a block and its data behind it holds the entry there. */
  lemma EntryFromBytes(m: seq<byte>, bx: int, e: Entry)
    requires Encodable(e) && 0 <= bx && BLOCK * bx + BLOCK + |e.data| <= |m| < 0x1_0000_0000
    requires m[BLOCK * bx..BLOCK * bx + BLOCK] == Header(e)
    requires m[BLOCK * bx + BLOCK..BLOCK * bx + BLOCK + |e.data|] == e.data
    ensures EntryAt(m, bx, e)
  {
    hide Header, Str, OctalDigits, NumeralValue, IsNumeral;
    var h, a, digits := Header(e), BLOCK * bx, OctalDigits(|e.data|, SIZE_DIGITS);
    HeaderFields(e);
    NoNulInDigits(digits);
    StrInPart(m, a, h, 0, e.name);
    StrInPart(m, a, h, SIZE_AT, digits);
    SizeFits(|e.data|);
    DigitsValue(|e.data|, SIZE_DIGITS);
    assert h[KIND_AT] == m[a + KIND_AT];
  }

  lemma EncodedEntryAt(pre: bytes, e: Entry, post: bytes, bx: int)
    requires Encodable(e) && |pre| == BLOCK * bx && |pre| + BLOCK * Blocks(|e.data|) + |post| < 0x1_0000_0000
    ensures EntryAt(pre + EncodeEntry(e) + post, bx, e)
  {
    hide Header, EntryAt;
    var m, a := pre + EncodeEntry(e) + post, BLOCK * bx;
    assert m[a..a + BLOCK] == Header(e);
    assert m[a + BLOCK..a + BLOCK + |e.data|] == e.data;
    EntryFromBytes(m, bx, e);
  }

  lemma {:induction false} EncodedAfter(pre: bytes, es: seq<Entry>, bx: int)
    requires (forall i :: 0 <= i < |es| ==> Encodable(es[i])) && |pre| == BLOCK * bx &&
      |pre + Encode(es)| < 0x1_0000_0000
    ensures Layout(pre + Encode(es), bx, es)
    decreases |es|
  {
    hide EncodeEntry, EntryAt, Blocks;
    if |es| > 0 {
      var e, rest := EncodeEntry(es[0]), Encode(es[1..]);
      assert pre + Encode(es) == (pre + e) + rest;
      EncodedEntryAt(pre, es[0], rest, bx);
      EncodedAfter(pre + e, es[1..], bx + Blocks(|es[0].data|));
    }
  }

  /** Every list of entries that fits the format, and 32-bit addresses, has an archive. */
  lemma EncodeIsLayout(es: seq<Entry>)
    requires (forall i :: 0 <= i < |es| ==> Encodable(es[i])) && |Encode(es)| < 0x1_0000_0000
    ensures Layout(Encode(es), 0, es)
  {
    EncodedAfter([], es, 0);
    assert [] + Encode(es) == Encode(es);
  }
}
