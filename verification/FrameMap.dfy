/** The physical memory manager: one bit for every 4 KiB frame. */
module FrameMap {
  import opened Sequences

  const PAGE: int := 4096
  const BITS: int := 32
  const FULL: bv32 := 0xFFFF_FFFF

  // ----- Bits of a word

  /** 1 << k */
  function Mask(k: int): (m: bv32)
    requires 0 <= k < BITS
    decreases k
  {
    if k == 0 then 1 else Mask(k - 1) << 1
  }

  predicate OneBit(m: bv32) {
    m != 0 && m & (m - 1) == 0
  }

  lemma TopMask()
    ensures Mask(31) == 0x8000_0000
  {
    assert Mask(4) == 0x10;
    assert Mask(8) == 0x100;
    assert Mask(12) == 0x1000;
    assert Mask(16) == 0x1_0000;
    assert Mask(20) == 0x10_0000;
    assert Mask(24) == 0x100_0000;
    assert Mask(28) == 0x1000_0000;
  }

  lemma {:induction false} MaskNotZero(k: int)
    requires 0 <= k < BITS
    ensures Mask(k) != 0
    decreases BITS - k
  {
    if k == BITS - 1 {
      TopMask();
    } else {
      MaskNotZero(k + 1);
    }
  }

  lemma DoubleBit(m: bv32)
    requires OneBit(m) && m << 1 != 0
    ensures OneBit(m << 1) && m < m << 1
  {
  }

  lemma {:induction false} MaskOneBit(k: int)
    requires 0 <= k < BITS
    ensures OneBit(Mask(k)) && (k > 0 ==> Mask(k - 1) < Mask(k))
    decreases k
  {
    MaskNotZero(k);
    if k > 0 {
      MaskOneBit(k - 1);
      DoubleBit(Mask(k - 1));
    }
  }

  lemma {:induction false} MaskAscends(j: int, k: int)
    requires 0 <= j < k < BITS
    ensures Mask(j) < Mask(k)
    decreases k
  {
    MaskOneBit(k);
    if j < k - 1 {
      MaskAscends(j, k - 1);
    }
  }

  // The three operations on whole words, named so that proofs can use their laws without looking at 32 bits.
  function And(x: bv32, y: bv32): bv32 { x & y }
  function Or(x: bv32, y: bv32): bv32 { x | y }
  function AndNot(x: bv32, y: bv32): bv32 { x & !y }

  lemma DifferentBits(x: bv32, y: bv32)
    requires OneBit(x) && OneBit(y) && x != y
    ensures And(x, y) == 0
  {
  }

  lemma SameMask(w: bv32, x: bv32)
    requires x != 0
    ensures And(Or(w, x), x) != 0 && And(AndNot(w, x), x) == 0
  {
  }

  lemma OtherBitSet(w: bv32, x: bv32, y: bv32)
    requires x & y == 0
    ensures (w | x) & y == w & y
  {
  }

  lemma OtherBitCleared(w: bv32, x: bv32, y: bv32)
    requires x & y == 0
    ensures (w & !x) & y == w & y
  {
  }

  lemma OtherMask(w: bv32, x: bv32, y: bv32)
    requires And(x, y) == 0
    ensures And(Or(w, x), y) == And(w, y)
  {
    OtherBitSet(w, x, y);
  }

  lemma OtherMaskOut(w: bv32, x: bv32, y: bv32)
    requires And(x, y) == 0
    ensures And(AndNot(w, x), y) == And(w, y)
  {
    OtherBitCleared(w, x, y);
  }

  /** The test that the C code makes: w & (1 << k). */
  function Masked(w: bv32, k: int): bv32
    requires 0 <= k < BITS
  {
    And(w, Mask(k))
  }

  function WithBit(w: bv32, k: int): bv32
    requires 0 <= k < BITS
  {
    Or(w, Mask(k))
  }

  function WithoutBit(w: bv32, k: int): bv32
    requires 0 <= k < BITS
  {
    AndNot(w, Mask(k))
  }

  predicate Bit(w: bv32, k: int)
    requires 0 <= k < BITS
  {
    Masked(w, k) != 0
  }

  /** Setting bit k changes bit k and no other. */
  lemma BitSet(w: bv32, k: int, j: int)
    requires 0 <= k < BITS && 0 <= j < BITS
    ensures Bit(WithBit(w, k), j) <==> j == k || Bit(w, j)
  {
    hide And, Or, AndNot, Mask;
    MaskNotZero(k);
    SameMask(w, Mask(k));
    if j != k {
      MasksDiffer(j, k);
      OtherMask(w, Mask(k), Mask(j));
    }
  }

  /** Clearing bit k changes bit k and no other. */
  lemma BitClear(w: bv32, k: int, j: int)
    requires 0 <= k < BITS && 0 <= j < BITS
    ensures Bit(WithoutBit(w, k), j) <==> j != k && Bit(w, j)
  {
    hide And, Or, AndNot, Mask;
    MaskNotZero(k);
    SameMask(w, Mask(k));
    if j != k {
      MasksDiffer(j, k);
      OtherMaskOut(w, Mask(k), Mask(j));
    }
  }

  lemma MasksDiffer(j: int, k: int)
    requires 0 <= j < BITS && 0 <= k < BITS && j != k
    ensures And(Mask(k), Mask(j)) == 0
  {
    hide And, Mask, OneBit;
    MaskOneBit(j);
    MaskOneBit(k);
    if j < k {
      MaskAscends(j, k);
    } else {
      MaskAscends(k, j);
    }
    DifferentBits(Mask(k), Mask(j));
  }

  lemma AllOnes(x: bv32)
    requires x != 0
    ensures And(FULL, x) != 0
  {
  }

  lemma FullWord(k: int)
    requires 0 <= k < BITS
    ensures Bit(FULL, k)
  {
    hide And, Mask;
    MaskNotZero(k);
    AllOnes(Mask(k));
  }

  // ----- The set of taken frames

  /** Bit f of the map. */
  predicate Taken(m: seq<bv32>, f: int)
    requires 0 <= f < BITS * |m|
  {
    Bit(m[f / BITS], f % BITS)
  }

  ghost function TakenSet(m: seq<bv32>): set<int> {
    set f | 0 <= f < BITS * |m| && Taken(m, f)
  }

  /** Frame f is bit f % 32 of word f / 32, counted from the lowest. */
  lemma FrameBit(m: seq<bv32>, f: int)
    requires 0 <= f < 32 * |m|
    ensures f in TakenSet(m) <==> Bit(m[f / 32], f % 32)
  {
  }

  lemma MaskValues()
    ensures Mask(0) == 1 && Mask(1) == 2 && Mask(2) == 4 && Mask(4) == 0x10 && Mask(8) == 0x100 && Mask(16) == 0x1_0000
    ensures Mask(31) == 0x8000_0000
  {
    assert Mask(4) == 0x10;
    assert Mask(8) == 0x100;
    assert Mask(12) == 0x1000;
    TopMask();
  }

  lemma SetFrame(m: seq<bv32>, f: int)
    requires 0 <= f < BITS * |m|
    ensures TakenSet(m[f / BITS := WithBit(m[f / BITS], f % BITS)]) == TakenSet(m) + {f}
  {
    hide Bit, WithBit;
    var r := m[f / BITS := WithBit(m[f / BITS], f % BITS)];
    forall g | 0 <= g < BITS * |m| ensures Taken(r, g) <==> g == f || Taken(m, g) {
      if g / BITS == f / BITS {
        BitSet(m[f / BITS], f % BITS, g % BITS);
      }
    }
  }

  lemma ClearFrame(m: seq<bv32>, f: int)
    requires 0 <= f < BITS * |m|
    ensures TakenSet(m[f / BITS := WithoutBit(m[f / BITS], f % BITS)]) == TakenSet(m) - {f}
  {
    hide Bit, WithoutBit;
    var r := m[f / BITS := WithoutBit(m[f / BITS], f % BITS)];
    forall g | 0 <= g < BITS * |m| ensures Taken(r, g) <==> g != f && Taken(m, g) {
      if g / BITS == f / BITS {
        BitClear(m[f / BITS], f % BITS, g % BITS);
      }
    }
  }

  /** Frames covered by the words that hold the first count bits. */
  function Covered(count: int): (n: int)
    requires 0 <= count
    ensures count <= n < count + BITS && n % BITS == 0
  {
    (count + BITS - 1) / BITS * BITS
  }

  lemma WordFits(idx: int, count: int)
    requires 0 <= idx < count && idx % BITS == 0
    ensures idx + BITS <= Covered(count)
  {
  }

  class Manager {
    const frames: array<bv32>
    /** Number of allocatable frames. */
    const count: int
    /** Frames set aside for good, and frames handed out as pages. */
    ghost var reserved: set<int>
    ghost var owned: set<int>

    /** The map is large enough, every frame has a 32-bit address, and a frame is taken for exactly one reason. */
    ghost predicate Valid()
      reads this, frames
    {
      0 <= count && Covered(count) <= BITS * frames.Length <= 0x10_0000 &&
      TakenSet(frames[..]) == reserved + owned && reserved !! owned
    }

    constructor (frames: array<bv32>, count: int)
      requires 0 <= count && Covered(count) <= BITS * frames.Length <= 0x10_0000
      ensures this.frames == frames && this.count == count && Valid() && owned == {} && reserved == TakenSet(frames[..])
    {
      this.frames, this.count := frames, count;
      reserved, owned := TakenSet(frames[..]), {};
    }

    method FrameSet(f: int)
      requires 0 <= f < BITS * frames.Length
      modifies frames
      ensures TakenSet(frames[..]) == old(TakenSet(frames[..])) + {f}
    {
      hide TakenSet, WithBit;
      SetFrame(frames[..], f);
      ghost var m := frames[..];
      frames[f / BITS] := WithBit(frames[f / BITS], f % BITS);
      assert frames[..] == m[f / BITS := WithBit(m[f / BITS], f % BITS)];
    }

    method FrameTest(f: int) returns (taken: bool)
      requires 0 <= f < BITS * frames.Length
      ensures taken <==> f in TakenSet(frames[..])
    {
      return Masked(frames[f / BITS], f % BITS) != 0;
    }

    method FrameClear(f: int)
      requires 0 <= f < BITS * frames.Length
      modifies frames
      ensures TakenSet(frames[..]) == old(TakenSet(frames[..])) - {f}
    {
      hide TakenSet, WithoutBit;
      ClearFrame(frames[..], f);
      ghost var m := frames[..];
      frames[f / BITS] := WithoutBit(frames[f / BITS], f % BITS);
      assert frames[..] == m[f / BITS := WithoutBit(m[f / BITS], f % BITS)];
    }

    /** frame_find_free: whole words first, then the bits of a word that is not full. */
    method FindFree() returns (f: int)
      requires 0 <= count && Covered(count) <= BITS * frames.Length
      ensures f == -1 <==> forall g :: 0 <= g < Covered(count) ==> g in TakenSet(frames[..])
      ensures f != -1 ==>
        0 <= f < Covered(count) && f !in TakenSet(frames[..]) && forall g :: 0 <= g < f ==> g in TakenSet(frames[..])
    {
      hide Bit, Taken;
      var idx := 0;
      while idx < count
        invariant 0 <= idx <= Covered(count) && idx % BITS == 0 && AllTaken(frames[..], idx)
      {
        WordFits(idx, count);
        var word := frames[idx / BITS];
        if word != FULL {
          var offset := ClearBit(word);
          TakenPart(frames[..], idx, offset);
          if offset < BITS {
            NotTaken(frames[..], idx, offset);
            assert idx + offset !in TakenSet(frames[..]);
            return idx + offset;
          }
        } else {
          forall k | 0 <= k < BITS ensures Bit(word, k) {
            FullWord(k);
          }
          TakenPart(frames[..], idx, BITS);
        }
        idx := idx + BITS;
      }
      return -1;
    }

    /** pmm_alloc_page: takes the lowest free frame; 0 means failure, and would also be frame 0's own address. */
    method AllocPage() returns (page: int)
      requires Valid()
      modifies this, frames
      ensures Valid() && reserved == old(reserved)
      ensures (forall g :: 0 <= g < Covered(count) ==> g in old(reserved + owned)) ==> page == 0 && owned == old(owned)
      ensures (exists g :: 0 <= g < Covered(count) && g !in old(reserved + owned)) ==>
        var f := page / 4096;
        page == f * 4096 && 0 <= f < Covered(count) && f !in old(reserved + owned) && owned == old(owned) + {f} &&
        forall g :: 0 <= g < f ==> g in old(reserved + owned)
      // With frame 0 and the bits past the last frame set aside, 0 is returned exactly when every frame is taken.
      ensures 0 in reserved && (forall g :: count <= g < Covered(count) ==> g in reserved) ==>
        (page == 0 <==> forall g :: 0 <= g < count ==> g in old(reserved + owned))
    {
      hide TakenSet;
      var f := FindFree();
      if f == -1 {
        return 0;
      }
      FrameSet(f);
      owned := owned + {f};
      return f * PAGE;
    }

    /** pmm_free_page, on any page the map covers: a page that was handed out leaves the reserved frames alone, and
        a page that was not is taken out of the reserved frames if it was one of them. */
    method FreePage(page: int)
      requires Valid() && 0 <= page / PAGE < BITS * frames.Length
      modifies this, frames
      ensures Valid() && owned == old(owned) - {page / 4096}
      ensures reserved == if page / 4096 in old(owned) then old(reserved) else old(reserved) - {page / 4096}
    {
      hide TakenSet;
      FrameClear(page / PAGE);
      reserved, owned := reserved - {page / PAGE}, owned - {page / PAGE};
    }

    /** pmm_alloc_page by the lowest free frame; a page with address 0 cannot be out. */
    method LowestPage() returns (page: int)
      requires Valid() && 0 in reserved
      modifies this, frames
      ensures Valid() && reserved == old(reserved)
      ensures var f := LowestFree(old(reserved + owned), 0, Covered(count));
        if f < Covered(count) then page == f * PAGE && f != 0 && owned == old(owned) + {f}
        else page == 0 && owned == old(owned)
    {
      hide TakenSet, LowestFree;
      LowestIs(reserved + owned, 0, Covered(count));
      page := AllocPage();
    }

    /** One allocation; pages are named by their frames. */
    method TakeOne(out: seq<int>) returns (next: seq<int>)
      requires Valid() && owned == AsSet(out) && 0 in reserved
      modifies this, frames
      ensures Valid() && reserved == old(reserved) && owned == AsSet(next)
      ensures next == OutStep(reserved, Covered(count), out, Take)
    {
      hide TakenSet, LowestFree, AsSet;
      next := out;
      var page := LowestPage();
      if page != 0 {
        WithSet(out, page / PAGE);
        next := out + [page / PAGE];
      }
    }

    /** One allocation, or the release of a page that is out. */
    method Answer(out: seq<int>, e: PageEvent) returns (next: seq<int>)
      requires Valid() && owned == AsSet(out) && NoRepeats(out) && 0 in reserved
      modifies this, frames
      ensures Valid() && reserved == old(reserved) && owned == AsSet(next)
      ensures next == OutStep(reserved, Covered(count), out, e)
    {
      hide TakenSet, LowestFree, AsSet, NoRepeats, Without;
      next := out;
      match e {
        case Take =>
          next := TakeOne(out);
        case Give(j) =>
          if 0 <= j < |out| {
            WithoutSet(out, j);
            InMap(frames[..], out[j]);
            FreePage(out[j] * PAGE);
            next := Without(out, j);
          }
      }
    }

    /** Any sequence of allocations, and of releases of pages that are out. */
    method Perform(es: seq<PageEvent>) returns (out: seq<int>)
      requires Valid() && owned == {} && 0 in reserved
      modifies this, frames
      ensures Valid() && reserved == old(reserved)
      ensures owned == AsSet(out) && out == OutAfter(reserved, Covered(count), es)
    {
      hide TakenSet, OutStep, NoRepeats;
      out := [];
      var k := 0;
      while k < |es|
        invariant 0 <= k <= |es| && Valid() && reserved == old(reserved) && owned == AsSet(out)
        invariant out == OutAfter(reserved, Covered(count), es[..k])
      {
        assert es[..k + 1][..k] == es[..k];
        OutApart(reserved, Covered(count), es[..k]);
        out := Answer(out, es[k]);
        k := k + 1;
      }
      assert es[..k] == es;
    }

    /** reserve_system_block: walks pages with a 32-bit counter while frames last. */
    method ReserveBlock(base: int, length: int)
      requires Valid() && 0 <= base < 0x1_0000_0000_0000_0000 && 0 <= length < 0x1_0000_0000_0000_0000
      modifies this, frames
      ensures Valid() && owned == old(owned) - BlockFrames(base, length, count)
      ensures reserved == old(reserved) + BlockFrames(base, length, count)
    {
      hide TakenSet;
      var first := FrameNumber(base);
      var f, page := first, 0;
      ghost var before := TakenSet(frames[..]);
      while f < count && page < length
        invariant first <= f && (f <= count || f == first) && (f < count ==> page == (f - first) * PAGE)
        invariant (f - first) * PAGE < length + PAGE
        invariant TakenSet(frames[..]) == before + Frames(first, f) && owned == old(owned) && reserved == old(reserved)
        decreases count - f
      {
        FrameSet(f);
        f := f + 1;
        page := (page + PAGE) % 0x1_0000_0000;
      }
      LoopEnd(base, length, count, f);
      reserved := reserved + BlockFrames(base, length, count);
      owned := owned - BlockFrames(base, length, count);
    }
  }

  /** The inner loop of frame_find_free: the lowest clear bit of a word, or 32. */
  method ClearBit(word: bv32) returns (offset: int)
    ensures 0 <= offset <= BITS && (offset < BITS ==> !Bit(word, offset))
    ensures forall k :: 0 <= k < offset ==> Bit(word, k)
  {
    hide Bit;
    offset := 0;
    while offset < BITS
      invariant 0 <= offset <= BITS && forall k :: 0 <= k < offset ==> Bit(word, k)
    {
      var clear := TestClear(word, offset);
      if clear {
        return;
      }
      offset := offset + 1;
    }
  }

  /** Every frame below n is taken. */
  ghost predicate AllTaken(m: seq<bv32>, n: int) {
    n <= BITS * |m| && forall g :: 0 <= g < n ==> Taken(m, g)
  }

  /** The first n bits of the word at idx are set, so n more frames are taken. */
  lemma TakenPart(m: seq<bv32>, idx: int, n: int)
    requires 0 <= idx && idx % BITS == 0 && idx + BITS <= BITS * |m| && 0 <= n <= BITS && AllTaken(m, idx)
    requires forall k :: 0 <= k < n ==> Bit(m[idx / BITS], k)
    ensures AllTaken(m, idx + n)
  {
    hide Bit;
    forall g | idx <= g < idx + n ensures Taken(m, g) {
      assert g / BITS == idx / BITS && g % BITS == g - idx;
    }
  }

  lemma NotTaken(m: seq<bv32>, idx: int, n: int)
    requires 0 <= idx && idx % BITS == 0 && idx + BITS <= BITS * |m| && 0 <= n < BITS && !Bit(m[idx / BITS], n)
    ensures !Taken(m, idx + n)
  {
    hide Bit;
    assert (idx + n) / BITS == idx / BITS && (idx + n) % BITS == n;
  }

  // ----- Histories of pages

  datatype PageEvent = Take | Give(k: int)

  ghost function AsSet(s: seq<int>): set<int> {
    set i | 0 <= i < |s| :: s[i]
  }

  predicate NoRepeats(s: seq<int>) {
    forall i, j :: 0 <= i < j < |s| ==> s[i] != s[j]
  }

  /** The least frame from g on, below limit, that is not taken; or limit. */
  function LowestFree(taken: set<int>, g: int, limit: int): (f: int)
    ensures g >= limit ==> f == limit
    ensures g < limit ==> g <= f <= limit && (f < limit ==> f !in taken) && forall h :: g <= h < f ==> h in taken
    decreases limit - g
  {
    if g >= limit then limit else if g !in taken then g else LowestFree(taken, g + 1, limit)
  }

  ghost function OutStep(reserved: set<int>, limit: int, out: seq<int>, e: PageEvent): seq<int> {
    match e
    case Take =>
      var f := LowestFree(reserved + AsSet(out), 0, limit);
      if f < limit then out + [f] else out
    case Give(k) => if 0 <= k < |out| then Without(out, k) else out
  }

  /** The frames of the pages that are out after the events, in the order in which they were handed out. */
  ghost function OutAfter(reserved: set<int>, limit: int, es: seq<PageEvent>): (out: seq<int>)
    decreases |es|
  {
    if |es| == 0 then [] else OutStep(reserved, limit, OutAfter(reserved, limit, es[..|es| - 1]), es[|es| - 1])
  }

  /** After every sequence of allocations and matched releases no page is out twice and no reserved frame is out. */
  lemma {:induction false} OutApart(reserved: set<int>, limit: int, es: seq<PageEvent>)
    requires 0 <= limit
    ensures var out := OutAfter(reserved, limit, es);
      NoRepeats(out) && forall i :: 0 <= i < |out| ==> 0 <= out[i] < limit && out[i] !in reserved
    decreases |es|
  {
    hide LowestFree;
    if |es| > 0 {
      OutApart(reserved, limit, es[..|es| - 1]);
      var out := OutAfter(reserved, limit, es[..|es| - 1]);
      if es[|es| - 1].Give? && 0 <= es[|es| - 1].k < |out| {
        WithoutIndex(out, es[|es| - 1].k);
      }
    }
  }

  lemma LowestIs(taken: set<int>, g: int, limit: int)
    requires g <= limit
    ensures var f := LowestFree(taken, g, limit);
      (f == limit <==> forall h :: g <= h < limit ==> h in taken) &&
      forall x :: g <= x < limit && x !in taken && (forall h :: g <= h < x ==> h in taken) ==> x == f
  {
  }

  lemma WithSet(s: seq<int>, x: int)
    ensures AsSet(s + [x]) == AsSet(s) + {x}
  {
    assert (s + [x])[|s|] == x;
    forall i | 0 <= i < |s| ensures s[i] in AsSet(s + [x]) {
      assert (s + [x])[i] == s[i];
    }
  }

  lemma WithoutSet(s: seq<int>, k: int)
    requires 0 <= k < |s| && NoRepeats(s)
    ensures AsSet(Without(s, k)) == AsSet(s) - {s[k]} && s[k] in AsSet(s)
  {
    hide Without;
    WithoutIndex(s, k);
    var w := Without(s, k);
    forall x | x in AsSet(s) && x != s[k] ensures x in AsSet(w) {
      var i :| 0 <= i < |s| && s[i] == x;
      assert w[if i < k then i else i - 1] == x;
    }
  }

  lemma InMap(m: seq<bv32>, f: int)
    requires f in TakenSet(m)
    ensures 0 <= f < BITS * |m|
  {
  }

  method TestClear(word: bv32, k: int) returns (clear: bool)
    requires 0 <= k < BITS
    ensures clear <==> !Bit(word, k)
  {
    return Masked(word, k) == 0;
  }

  /** The frames from lo up to but not including hi. */
  ghost function Frames(lo: int, hi: int): (r: set<int>)
    ensures forall g :: g in r <==> lo <= g < hi
    decreases hi - lo
  {
    if hi <= lo then {} else Frames(lo, hi - 1) + {hi - 1}
  }

  /** The frame number of an address, cut to 32 bits. */
  function FrameNumber(base: int): int {
    base / PAGE % 0x1_0000_0000
  }

  /** How many pages a length starts. */
  function Pages(length: int): int {
    (length + PAGE - 1) / PAGE
  }

  /** The frames that reserving a block marks: from its first frame on, one for each started page, below count. */
  ghost function BlockFrames(base: int, length: int, count: int): set<int> {
    var first := FrameNumber(base);
    Frames(first, if first + Pages(length) < count then first + Pages(length) else count)
  }

  lemma LoopEnd(base: int, length: int, count: int, f: int)
    requires 0 <= length && FrameNumber(base) <= f && (f <= count || f == FrameNumber(base))
    requires (f - FrameNumber(base)) * PAGE < length + PAGE
    requires f < count ==> (f - FrameNumber(base)) * PAGE >= length
    ensures Frames(FrameNumber(base), f) == BlockFrames(base, length, count)
  {
    var first := FrameNumber(base);
    if f < count {
      assert f - first == Pages(length);
    } else {
      assert f - first <= Pages(length);
    }
  }

  /** 16 TiB, the first address whose frame number needs more than 32 bits. */
  const HIGH: int := 0x1000_0000_0000

  /** Frame g holds a byte of the block. */
  predicate Touches(base: int, length: int, g: int) {
    base < (g + 1) * 4096 && g * 4096 < base + length
  }

  /** Every frame below count that a block below 16 TiB touches is marked exactly when the marking reaches the last
      frame anyway, or the block's offset in its first page and its length leave its last byte inside the last page
      counted, as they always do for page-aligned blocks. Only frames that the block touches are marked. */
  lemma ReservesAllTouched(base: int, length: int, count: int)
    requires 0 <= base < HIGH && 0 < length && 0 <= count
    ensures (forall g :: Touches(base, length, g) && g < count ==> g in BlockFrames(base, length, count)) <==>
            (FrameNumber(base) + Pages(length) >= count || (length - 1) % PAGE + base % PAGE < PAGE)
    ensures forall g :: g in BlockFrames(base, length, count) ==> Touches(base, length, g) && g < count
  {
    var first, last := base / PAGE, (base + length - 1) / PAGE;
    assert FrameNumber(base) == first;
    assert Pages(length) == (length - 1) / PAGE + 1;
    assert forall g :: Touches(base, length, g) <==> first <= g <= last;
    if first + Pages(length) < count {
      assert Touches(base, length, first + Pages(length)) <==> first + Pages(length) == last;
    }
  }

  /** A two-byte block across a page boundary touches a frame that is not marked. */
  lemma UnalignedBlockMissesAFrame()
    ensures Touches(PAGE - 1, 2, 1) && 1 !in BlockFrames(PAGE - 1, 2, 2)
  {
    assert FrameNumber(PAGE - 1) == 0 && Pages(2) == 1;
  }

  /** From 16 TiB on the 32-bit frame number has lost its high bits: the frames marked are those of the block 16 TiB or
      a multiple of it lower, and none of them holds a byte of the block itself. */
  lemma HighBlockMarksOthers(base: int, length: int, count: int)
    requires HIGH <= base && 0 <= length && 0 <= count <= 0x1_0000_0000
    ensures BlockFrames(base, length, count) == BlockFrames(base % HIGH, length, count)
    ensures forall g :: g in BlockFrames(base, length, count) ==> !Touches(base, length, g)
  {
    assert FrameNumber(base) == FrameNumber(base % HIGH);
  }
}
