/** The ustar archive layout: 512-byte headers, octal sizes and padded data. */
module TarFormat {
  import opened Bytes
  import opened CStrings

  const BLOCK: int := 512
  const NAME_FIELD: int := 100
  const SIZE_AT: int := 124
  const KIND_AT: int := 156

  datatype Entry = Entry(name: bytes, kind: byte, data: bytes)

  // ----- Octal sizes

  /** acc * 8 + (c - '0') in 32-bit unsigned arithmetic, with c a signed char. */
  function OctalStep(acc: word, c: byte): word {
    Wrap(acc * 8 + (if c < 128 then c as int else c as int - 256) - 48)
  }

  function Octal(s: bytes): word {
    if s == [] then 0 else OctalStep(Octal(s[..|s| - 1]), s[|s| - 1])
  }

  predicate IsNumeral(s: bytes) {
    forall i :: 0 <= i < |s| ==> 48 <= s[i] < 56
  }

  function NumeralValue(s: bytes): nat
    requires IsNumeral(s)
  {
    if s == [] then 0 else NumeralValue(s[..|s| - 1]) * 8 + (s[|s| - 1] as int - 48)
  }

  lemma WrapStep(v: int, d: int)
    ensures Wrap(Wrap(v) * 8 + d) == Wrap(v * 8 + d)
  {
    var q := v / 0x1_0000_0000;
    assert v * 8 + d == (Wrap(v) * 8 + d) + 0x1_0000_0000 * (8 * q);
    WrapShift(Wrap(v) * 8 + d, 8 * q);
  }

  lemma WrapShift(x: int, q: int)
    ensures Wrap(x + 0x1_0000_0000 * q) == Wrap(x)
  {
  }

  /** octal2int of an octal numeral is its value modulo 2^32, so it is exact exactly below 2^32. */
  lemma {:induction false} OctalExact(s: bytes)
    requires IsNumeral(s)
    ensures Octal(s) == Wrap(NumeralValue(s))
    ensures Octal(s) == NumeralValue(s) <==> NumeralValue(s) < 0x1_0000_0000
    decreases |s|
  {
    if s != [] {
      OctalExact(s[..|s| - 1]);
      WrapStep(NumeralValue(s[..|s| - 1]), s[|s| - 1] as int - 48);
    }
  }

  /** Bytes that are no octal digits count as well: '9' as nine, and a byte above 127 as a negative number. */
  lemma OctalOfOthers()
    ensures Octal([57]) == 9 && Octal([176]) == 0xFFFF_FF80 && Octal([49, 57]) == 17
  {
    assert [57][..0] == [] && [176][..0] == [] && [49, 57][..1] == [49] && [49][..0] == [];
    assert Octal([49]) == 1;
  }

  method Octal2Int(buf: array<byte>, at: int) returns (acc: word)
    requires 0 <= at < buf.Length && at + |Str(buf[..], at)| < buf.Length
    ensures acc == Octal(Str(buf[..], at))
  {
    ghost var s := Str(buf[..], at);
    acc := 0;
    var i := 0;
    while buf[at + i] != NUL
      invariant 0 <= i <= |s| && acc == Octal(s[..i])
      decreases |s| - i
    {
      assert s[..i + 1][..i] == s[..i] && s[i] == buf[at + i];
      acc := OctalStep(acc, buf[at + i]);
      i := i + 1;
    }
    StrEnd(buf[..], at, at + i);
    assert s[..i] == s;
  }

  // ----- Layout

  /** Entry e at block bx: its name and an octal size in NUL-terminated fields, its type, and its data right after. */
  predicate EntryAt(m: seq<byte>, bx: int, e: Entry) {
    0 <= bx && BLOCK * bx + BLOCK + |e.data| <= |m| < 0x1_0000_0000 &&
    Str(m, BLOCK * bx) == e.name && 0 < |e.name| < NAME_FIELD &&
    (var digits := Str(m, BLOCK * bx + SIZE_AT);
     |digits| < 12 && IsNumeral(digits) && NumeralValue(digits) == |e.data|) &&
    m[BLOCK * bx + KIND_AT] == e.kind &&
    m[BLOCK * bx + BLOCK..BLOCK * bx + BLOCK + |e.data|] == e.data
  }

  /** Blocks taken by a header and n bytes of data. */
  function Blocks(n: int): int {
    n / BLOCK + 1 + (if n % BLOCK != 0 then 1 else 0)
  }

  /** The entries follow one another from block bx on, and a block with an empty name ends them. */
  predicate Layout(m: seq<byte>, bx: int, es: seq<Entry>)
    decreases |es|
  {
    if |es| == 0 then 0 <= bx && BLOCK * bx < |m| && m[BLOCK * bx] == NUL
    else EntryAt(m, bx, es[0]) && Layout(m, bx + Blocks(|es[0].data|), es[1..])
  }

  /** The header block of each entry. */
  function Starts(bx: int, es: seq<Entry>): (r: seq<int>)
    ensures |r| == |es|
    decreases |es|
  {
    if |es| == 0 then [] else [bx] + Starts(bx + Blocks(|es[0].data|), es[1..])
  }

  /** The next header lies on the first 512-byte boundary at or after the end of the data. */
  lemma NextHeader(n: int)
    requires 0 <= n
    ensures 0 <= 512 * Blocks(n) - 512 - n < 512
  {
  }

  lemma BlocksPositive(n: int)
    requires 0 <= n
    ensures Blocks(n) > 0
  {
  }

  lemma {:induction false} LayoutEntry(m: seq<byte>, bx: int, es: seq<Entry>, i: int)
    requires Layout(m, bx, es) && 0 <= i < |es|
    ensures EntryAt(m, Starts(bx, es)[i], es[i]) && bx <= Starts(bx, es)[i]
    decreases |es|
  {
    hide EntryAt, Blocks;
    if i > 0 {
      BlocksPositive(|es[0].data|);
      LayoutEntry(m, bx + Blocks(|es[0].data|), es[1..], i - 1);
    }
  }

  lemma {:induction false} StartsAscend(m: seq<byte>, bx: int, es: seq<Entry>, i: int, j: int)
    requires Layout(m, bx, es) && 0 <= i < j < |es|
    ensures Starts(bx, es)[i] + Blocks(|es[i].data|) <= Starts(bx, es)[j]
    decreases |es|
  {
    hide EntryAt, Blocks;
    if i == 0 {
      LayoutEntry(m, bx + Blocks(|es[0].data|), es[1..], j - 1);
    } else {
      StartsAscend(m, bx + Blocks(|es[0].data|), es[1..], i - 1, j - 1);
    }
  }

  /** A block with a name holds an entry, whose size field leads to the next one. */
  lemma DecodeStep(m: seq<byte>, bx: int, es: seq<Entry>)
    requires Layout(m, bx, es)
    ensures 0 <= BLOCK * bx < |m|
    ensures m[BLOCK * bx] != NUL <==> |es| > 0
    ensures |es| > 0 ==>
      var at := BLOCK * bx + SIZE_AT;
      0 <= at < |m| && at + |Str(m, at)| < |m| && Octal(Str(m, at)) == |es[0].data| &&
      Layout(m, bx + Blocks(|es[0].data|), es[1..])
  {
    if |es| > 0 {
      assert EntryAt(m, bx, es[0]);
      assert es[0].name[0] == m[BLOCK * bx + 0];
      OctalExact(Str(m, BLOCK * bx + SIZE_AT));
    }
  }

  /** The first loop of init_nodes finds exactly the headers of the entries, in order. */
  method DecodeBlocks(buf: array<byte>, ghost es: seq<Entry>) returns (headers: seq<int>)
    requires Layout(buf[..], 0, es)
    ensures headers == Starts(0, es)
  {
    hide Layout, EntryAt, Str, Octal;
    ghost var m := buf[..];
    ghost var rest := es;
    var bx := 0;
    headers := [];
    DecodeStep(m, bx, rest);
    while buf[BLOCK * bx] != NUL
      invariant Layout(m, bx, rest) && 0 <= BLOCK * bx < |m| && buf[..] == m
      invariant headers + Starts(bx, rest) == Starts(0, es)
      decreases |rest|
    {
      DecodeStep(m, bx, rest);
      headers := headers + [bx];
      var length := Octal2Int(buf, BLOCK * bx + SIZE_AT);
      bx := bx + length / BLOCK + 1;
      if length % BLOCK != 0 {
        bx := bx + 1;
      }
      rest := rest[1..];
      DecodeStep(m, bx, rest);
    }
    DecodeStep(m, bx, rest);
  }
}
