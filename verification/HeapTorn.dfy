/** Writes that forge nothing and still make a torn test pass, for every release that can be torn. */
module HeapTorn {
  import opened Bytes
  import opened Sequences
  import opened HeapLayout
  import opened HeapModel
  import opened HeapOps
  import opened HeapInvariant
  import opened HeapBlocks
  import opened HeapRuns
  import opened HeapHistories
  import opened HeapTests
  import opened HeapStores
  import opened HeapSteps
  import opened HeapClients
  import opened HeapTearing

  // ----- What the client writes

  /** A byte that no magic number, address or size of the heap has on top. */
  const FILL: byte := 0xFF

  function Fillers(n: nat): (s: seq<byte>)
    ensures |s| == n && forall i :: 0 <= i < n ==> s[i] == FILL
  {
    seq(n, i => FILL)
  }

  /** The magic number of a header and nothing else. */
  function MagicOnly(n: nat): (s: seq<byte>)
    requires n >= 8
    ensures |s| == n
  {
    StoreTag(Fillers(n), 0, HEAD)
  }

  /** A status and nothing else. */
  function StatusOnly(status: Tag, n: nat): (s: seq<byte>)
    requires n >= 8
    ensures |s| == n
  {
    StoreTag(Fillers(n), 4, status)
  }

  /** Next and size and nothing else. */
  function LinkOnly(next: word, size: word): (s: seq<byte>)
    ensures |s| == HEADER
  {
    Store(Store(Fillers(HEADER), 8, next), 16, size)
  }

  /** No mark begins in the n bytes at x or runs into them. */
  ghost predicate Unmarked(r: seq<byte>, x: int, n: int) {
    forall a :: Marked(r, a) ==> a + 8 <= x || x + n <= a
  }

  lemma MagicUnmarked(m: seq<byte>, x: int, n: nat)
    requires 8 <= n && 0 <= x && x + n <= |m|
    ensures Unmarked(Splice(m, x, MagicOnly(n)), x, n)
  {
    hide Splice;
    var r, d := Splice(m, x, MagicOnly(n)), MagicOnly(n);
    assert r[x] == d[0] && r[x + 1] == d[1] && r[x + 2] == d[2] && r[x + 3] == d[3];
    assert forall i :: x + 4 <= i < x + n ==> r[i] == FILL;
    forall a | Marked(r, a) ensures a + 8 <= x || x + n <= a {
    }
  }

  lemma StatusUnmarked(m: seq<byte>, x: int, n: nat, status: Tag)
    requires 8 <= n && 0 <= x && x + n <= |m| && (status == FREE || status == USED)
    ensures Unmarked(Splice(m, x, StatusOnly(status, n)), x, n)
  {
    hide Splice;
    var r, d := Splice(m, x, StatusOnly(status, n)), StatusOnly(status, n);
    assert r[x + 4] == d[4] && r[x + 5] == d[5] && r[x + 6] == d[6] && r[x + 7] == d[7];
    assert forall i :: x <= i < x + n && !(x + 4 <= i < x + 8) ==> r[i] == FILL;
    forall a | Marked(r, a) ensures a + 8 <= x || x + n <= a {
    }
  }

  lemma LinkUnmarked(m: seq<byte>, x: int, next: word, size: word)
    requires 0 <= x && x + HEADER <= |m| && size < ADDRESS_LIMIT
    ensures Unmarked(Splice(m, x, LinkOnly(next, size)), x, HEADER)
  {
    hide Splice, Bytes.Store, Bytes.Word;
    var r, d := Splice(m, x, LinkOnly(next, size)), LinkOnly(next, size);
    TopByte(d, 16);
    assert r[x + 19] == d[19];
    assert forall i :: x <= i < x + 16 && !(x + 8 <= i < x + 12) ==> r[i] == FILL;
    forall a | Marked(r, a) ensures a + 8 <= x || x + HEADER <= a {
    }
  }

  /** Bytes that hold no mark and start with four high ones forge nothing, wherever in a buffer they are written. */
  lemma PutLegal(h: Heap, k: int, x: int, data: seq<byte>)
    requires Inv(h) && 0 <= k < |h.blocks| && InsideBuffer(h.blocks[k], x, |data|) && |data| >= 8
    requires 0 <= x && x + |data| <= |h.mem| && Unmarked(Splice(h.mem, x, data), x, |data|)
    requires data[0] >= 0x40 && data[1] >= 0x40 && data[2] >= 0x40 && data[3] >= 0x40
    ensures Legal(h, Write(x, data))
  {
    hide Splice, Bytes.Word;
    var r := Splice(h.mem, x, data);
    forall a | Marked(r, a) && (IsUsed(r, a) || IsLive(h.blocks, Next(r, a))) ensures LookedSame(h.mem, r, a) {
      if a + 12 <= x || x + |data| <= a {
        WordFrame(h.mem, r, a + 8);
      } else {
        assert a + 8 <= x < a + 12;
        HighNext(h, r, k, x, data, a);
      }
    }
  }

  lemma HighNext(h: Heap, r: seq<byte>, k: int, x: int, data: seq<byte>, a: int)
    requires Inv(h) && 0 <= k < |h.blocks| && InsideBuffer(h.blocks[k], x, |data|) && |data| >= 8
    requires 0 <= x && x + |data| <= |h.mem| && r == Splice(h.mem, x, data)
    requires data[0] >= 0x40 && data[1] >= 0x40 && data[2] >= 0x40 && data[3] >= 0x40
    requires Marked(r, a) && a + 8 <= x < a + 12
    ensures !IsUsed(r, a) && !IsLive(h.blocks, Next(r, a))
  {
    hide Splice, Bytes.Word;
    assert r[a + 11] == data[a + 11 - x];
    TopByte(r, a + 8);
    assert Marked(h.mem, a);
    forall j | 0 <= j < |h.blocks| ensures h.blocks[j].addr != Next(r, a) && h.blocks[j].addr != a {
      WithinTop(h.blocks, |h.mem|, j);
      if j != k {
        Apart(h.blocks, |h.mem|, j, k);
      }
    }
    WithinTop(h.blocks, |h.mem|, k);
  }

  // ----- Tearing the test on a pointer

  /** A client's write as an act: it can be played, and the heap stays in order. */
  lemma PutPlays(c: Scene, k: int, x: int, data: seq<byte>)
    requires Inv(c.pre) && |c.m| == |c.pre.mem| && 0 <= k < |c.pre.blocks| && InsideBuffer(c.pre.blocks[k], x, |data|)
    requires |data| >= 8 && 0 <= x && x + |data| <= |c.m| && Unmarked(Splice(c.pre.mem, x, data), x, |data|)
    requires data[0] >= 0x40 && data[1] >= 0x40 && data[2] >= 0x40 && data[3] >= 0x40
    ensures Playable(c, Put(x, data)) && Inv(Play(c, Put(x, data)).pre)
    ensures Play(c, Put(x, data)) == Scene(Written(c.pre, x, data), Splice(c.m, x, data), c.ph)
  {
    hide Inv, Unmarked, Splice;
    PutLegal(c.pre, k, x, data);
    ApplyInv(c.pre, Write(x, data));
  }

  lemma NotClear(bs: seq<Block>, k: int, x: int)
    requires 0 <= k < |bs| && InsideBuffer(bs[k], x, 4)
    ensures !Clear(bs, x)
  {
    assert !OutsideData(bs[k], x);
  }

  lemma FirstBytes(n: nat, status: Tag)
    requires n >= 8
    ensures var d := MagicOnly(n); d[0] >= 0x40 && d[1] >= 0x40 && d[2] >= 0x40 && d[3] >= 0x40
    ensures var d := StatusOnly(status, n); d[0] >= 0x40 && d[1] >= 0x40 && d[2] >= 0x40 && d[3] >= 0x40
  {
  }

  /** Bytes of a tag written at its place are the tag. */
  lemma SpliceTag(m: seq<byte>, x: int, data: seq<byte>, at: int, t: Tag)
    requires 0 <= x && x + |data| <= |m| && 0 <= at && at + 4 <= |data| && HasTag(data, at, t)
    ensures HasTag(Splice(m, x, data), x + at, t)
  {
    hide Splice;
  }

  lemma SpliceWord(m: seq<byte>, x: int, data: seq<byte>, at: int)
    requires 0 <= x && x + |data| <= |m| && 0 <= at && at + 4 <= |data|
    ensures Word(Splice(m, x, data), x + at) == Word(data, at)
  {
    hide Splice;
  }

  /** heap_free on a pointer into a buffer in use: magic loaded before it is erased, status after it is planted. */
  lemma TornCheck(pre: Heap, ptr: int, k: int) returns (acts: seq<Act>)
    requires Inv(pre) && HEADER <= ptr <= |pre.mem| && 0 <= k < |pre.blocks|
    requires InsideBuffer(pre.blocks[k], ptr - HEADER, 8)
    ensures Plays(Opening(pre, Free(ptr)), acts)
    ensures !Harmless(pre.blocks, Played(Opening(pre, Free(ptr)), acts).ph)
  {
    hide Inv, Unmarked, Splice, Legal, Playable, Play, Plays, Played, MagicOnly, StatusOnly, Clear, Bytes.HasTag;
    var a, d1, d2 := ptr - HEADER, MagicOnly(8), StatusOnly(USED, 8);
    FirstBytes(8, USED);
    Tags(8, USED);
    var c0 := Opening(pre, Free(ptr));
    MagicUnmarked(pre.mem, a, 8);
    PutPlays(c0, k, a, d1);
    var c1 := Play(c0, Put(a, d1));
    SpliceTag(c0.m, a, d1, 0, HEAD);
    GoPlays(c1);
    var c2 := Play(c1, Go);
    StatusUnmarked(c2.pre.mem, a, 8, USED);
    PutPlays(c2, k, a, d2);
    var c3 := Play(c2, Put(a, d2));
    SpliceTag(c2.m, a, d2, 4, USED);
    GoPlays(c3);
    var c4 := Play(c3, Go);
    NotClear(pre.blocks, k, a + 4);
    PlaysNone(c4);
    PlaysFirst(c3, Go, []);
    PlaysFirst(c2, Put(a, d2), [Go] + []);
    PlaysFirst(c1, Go, [Put(a, d2)] + ([Go] + []));
    PlaysFirst(c0, Put(a, d1), [Go] + ([Put(a, d2)] + ([Go] + [])));
    acts := [Put(a, d1)] + ([Go] + ([Put(a, d2)] + ([Go] + [])));
  }

  lemma GoPlays(c: Scene)
    requires Runnable(c.m, c.ph)
    ensures Playable(c, Go) && Play(c, Go) == Scene(c.pre, MoveMem(c.m, c.ph), Move(c.m, c.ph))
  {
  }

  lemma Tags(n: nat, status: Tag)
    requires n >= 8
    ensures HasTag(MagicOnly(n), 0, HEAD) && HasTag(StatusOnly(status, n), 4, status)
  {
  }

  // ----- Tearing the test of a merge

  /** Block at a, being released, has its back link at p, and the twenty bytes there lie in buffer k. */
  ghost predicate Bait(c: Scene, bs: seq<Block>, k: int, p: int, a: int) {
    Inv(c.pre) && c.pre.blocks == bs && |c.m| == |c.pre.mem| <= ADDRESS_LIMIT &&
    0 <= k < |bs| && InsideBuffer(bs[k], p, HEADER) && 0 < p && p + HEADER <= a && InRange(c.m, p) && InRange(c.m, a) &&
    HasMagic(c.m, a) && IsFree(c.m, a) && Prev(c.m, a) == p && a + HEADER + Size(c.m, a) <= ADDRESS_LIMIT
  }

  /** The client writes twenty bytes at p. */
  lemma BaitPut(c: Scene, bs: seq<Block>, k: int, p: int, a: int, data: seq<byte>)
    requires Bait(c, bs, k, p, a) && |data| == HEADER && Unmarked(Splice(c.pre.mem, p, data), p, HEADER)
    requires data[0] >= 0x40 && data[1] >= 0x40 && data[2] >= 0x40 && data[3] >= 0x40
    ensures Playable(c, Put(p, data))
    ensures var d := Play(c, Put(p, data)); Bait(d, bs, k, p, a) && d.m == Splice(c.m, p, data) && d.ph == c.ph
  {
    hide Inv, Unmarked, Splice, Bytes.Word, Bytes.HasTag, Playable, Play;
    PutPlays(c, k, p, data);
    SameHeader(c.m, Splice(c.m, p, data), a);
  }

  lemma BaitGo(c: Scene, bs: seq<Block>, k: int, p: int, a: int, s: int)
    requires Bait(c, bs, k, p, a) && c.ph == Probe(p, a, s, Leave(0)) && 0 <= s < STEPS - 1 && Passes(c.m, p, a, s)
    ensures Playable(c, Go) && Bait(Play(c, Go), bs, k, p, a)
    ensures Play(c, Go) == c.(ph := Probe(p, a, s + 1, Leave(0)))
  {
    hide Inv, Passes;
    GoPlays(c);
  }

  /** A write and a step of the test that passes because of it. */
  lemma Baited(c: Scene, bs: seq<Block>, k: int, p: int, a: int, s: int, data: seq<byte>) returns (d: Scene)
    requires Bait(c, bs, k, p, a) && |data| == HEADER && Unmarked(Splice(c.pre.mem, p, data), p, HEADER)
    requires data[0] >= 0x40 && data[1] >= 0x40 && data[2] >= 0x40 && data[3] >= 0x40
    requires c.ph == Probe(p, a, s, Leave(0)) && 0 <= s < STEPS - 1 && Passes(Splice(c.m, p, data), p, a, s)
    ensures Plays(c, [Put(p, data), Go]) && Played(c, [Put(p, data), Go]) == d
    ensures Bait(d, bs, k, p, a) && d.m == Splice(c.m, p, data) && d.ph == Probe(p, a, s + 1, Leave(0))
  {
    hide Bait, Unmarked, Splice, Passes, Playable, Play, Plays, Played;
    BaitPut(c, bs, k, p, a, data);
    var b := Play(c, Put(p, data));
    BaitRange(b, bs, k, p, a);
    BaitGo(b, bs, k, p, a, s);
    d := Play(b, Go);
    PlaysNone(d);
    PlaysFirst(b, Go, []);
    PlaysFirst(c, Put(p, data), [Go] + []);
    assert [Put(p, data)] + ([Go] + []) == [Put(p, data), Go];
  }

  lemma BaitRange(c: Scene, bs: seq<Block>, k: int, p: int, a: int)
    requires Bait(c, bs, k, p, a)
    ensures InRange(c.m, p) && InRange(c.m, a) && p + HEADER <= a && |c.m| == |c.pre.mem| <= ADDRESS_LIMIT && 0 < p
    ensures HasMagic(c.m, a) && IsFree(c.m, a) && Prev(c.m, a) == p
  {
  }

  /** The magic number is there when it is loaded. */
  lemma BaitMagic(c: Scene, bs: seq<Block>, k: int, p: int, a: int) returns (d: Scene)
    requires Bait(c, bs, k, p, a) && c.ph == Probe(p, a, 0, Leave(0))
    ensures Plays(c, [Put(p, MagicOnly(HEADER)), Go]) && Played(c, [Put(p, MagicOnly(HEADER)), Go]) == d
    ensures Bait(d, bs, k, p, a) && d.ph == Probe(p, a, 1, Leave(0))
  {
    hide Bait, Unmarked, Splice, Plays, Played, MagicOnly, Bytes.HasTag, Bytes.Word;
    var data := MagicOnly(HEADER);
    BaitRange(c, bs, k, p, a);
    FirstBytes(HEADER, FREE);
    Tags(HEADER, FREE);
    MagicUnmarked(c.pre.mem, p, HEADER);
    SpliceTag(c.m, p, data, 0, HEAD);
    SameHeader(c.m, Splice(c.m, p, data), a);
    d := Baited(c, bs, k, p, a, 0, data);
  }

  /** The status is there when it is loaded, and the magic number is gone. */
  lemma BaitStatus(c: Scene, bs: seq<Block>, k: int, p: int, a: int) returns (d: Scene)
    requires Bait(c, bs, k, p, a) && c.ph == Probe(p, a, 1, Leave(0))
    ensures Plays(c, [Put(p, StatusOnly(FREE, HEADER)), Go]) && Played(c, [Put(p, StatusOnly(FREE, HEADER)), Go]) == d
    ensures Bait(d, bs, k, p, a) && d.ph == Probe(p, a, 2, Leave(0))
  {
    hide Bait, Unmarked, Splice, Plays, Played, StatusOnly, Bytes.HasTag, Bytes.Word;
    var data := StatusOnly(FREE, HEADER);
    BaitRange(c, bs, k, p, a);
    FirstBytes(HEADER, FREE);
    Tags(HEADER, FREE);
    StatusUnmarked(c.pre.mem, p, HEADER, FREE);
    SpliceTag(c.m, p, data, 4, FREE);
    SameHeader(c.m, Splice(c.m, p, data), a);
    d := Baited(c, bs, k, p, a, 1, data);
  }

  lemma LinkWords(next: word, size: word)
    ensures var d := LinkOnly(next, size);
      Word(d, 8) == next && Word(d, 16) == size && d[0] >= 0x40 && d[1] >= 0x40 && d[2] >= 0x40 && d[3] >= 0x40
  {
    var d := LinkOnly(next, size);
    WordFrame(Store(Fillers(HEADER), 8, next), d, 8);
  }

  /** Next and size are there when they are loaded. */
  lemma BaitLink(c: Scene, bs: seq<Block>, k: int, p: int, a: int) returns (d: Scene)
    requires Bait(c, bs, k, p, a) && c.ph == Probe(p, a, 2, Leave(0)) && a + HEADER <= ADDRESS_LIMIT
    ensures var put := Put(p, LinkOnly(a, a - p - HEADER)); Plays(c, [put, Go]) && Played(c, [put, Go]) == d
    ensures Bait(d, bs, k, p, a) && d.ph == Probe(p, a, 3, Leave(0))
    ensures Size(d.m, p) == a - p - HEADER
  {
    hide Bait, Unmarked, Splice, Plays, Played, LinkOnly, Bytes.HasTag, Bytes.Word;
    BaitRange(c, bs, k, p, a);
    var data := LinkOnly(a, a - p - HEADER);
    LinkWords(a, a - p - HEADER);
    LinkUnmarked(c.pre.mem, p, a, a - p - HEADER);
    SpliceWord(c.m, p, data, 8);
    SpliceWord(c.m, p, data, 16);
    SameHeader(c.m, Splice(c.m, p, data), a);
    d := Baited(c, bs, k, p, a, 2, data);
  }

  /** All four steps have passed: the stores that follow go into the client's buffer. */
  lemma BaitTaken(c: Scene, bs: seq<Block>, k: int, p: int, a: int)
    requires Bait(c, bs, k, p, a) && c.ph == Probe(p, a, 3, Leave(0)) && Size(c.m, p) == a - p - HEADER
    ensures Playable(c, Go) && !Harmless(bs, Play(c, Go).ph)
  {
    hide Inv, Bytes.Word, Bytes.HasTag, Clear;
    var b, t := ReadAt(c.m, p), ReadAt(c.m, a);
    assert Absorbable(b, t);
    GoPlays(c);
    NotClear(bs, k, p + 8);
    var w := Then(b.addr + 16, b.size + HEADER + t.size, Done);
    assert !AvoidsBuffers(Then(b.addr + 8, t.next, w), bs);
    assert Play(c, Go).ph == Storing(AbsorbStores(b, t), Leave(0));
  }

  /** The whole test, torn into three. */
  lemma TornProbe(c: Scene, bs: seq<Block>, k: int, p: int, a: int) returns (acts: seq<Act>)
    requires Bait(c, bs, k, p, a) && c.ph == Probe(p, a, 0, Leave(0)) && a + HEADER <= ADDRESS_LIMIT
    ensures Plays(c, acts) && !Harmless(bs, Played(c, acts).ph)
  {
    hide Bait, Plays, Played, Playable, Play, MagicOnly, StatusOnly, LinkOnly, Harmless;
    BaitRange(c, bs, k, p, a);
    var c1 := BaitMagic(c, bs, k, p, a);
    var c2 := BaitStatus(c1, bs, k, p, a);
    var c3 := BaitLink(c2, bs, k, p, a);
    BaitTaken(c3, bs, k, p, a);
    var a1, a2 := [Put(p, MagicOnly(HEADER)), Go], [Put(p, StatusOnly(FREE, HEADER)), Go];
    var a3 := [Put(p, LinkOnly(a, a - p - HEADER)), Go];
    PlaysNone(Play(c3, Go));
    PlaysFirst(c3, Go, []);
    PlaysOn(c2, a3, [Go] + []);
    PlaysOn(c1, a2, a3 + ([Go] + []));
    PlaysOn(c, a1, a2 + (a3 + ([Go] + [])));
    acts := a1 + (a2 + (a3 + ([Go] + [])));
  }

  // ----- On the way to the second merge

  /** A release of the block at a that has not yet come to its second merge. */
  predicate BeforeSecond(ph: Phase, a: int) {
    match ph
    case Check(ptr) => ptr == a + HEADER
    case CheckStatus(ptr) => ptr == a + HEADER
    case MergeNext(b) => b == a
    case MergePrev(b) => b == a
    case Probe(head, _, _, goal) => head == a && goal == MergePrev(a)
    case Storing(_, goal) => goal == MergeNext(a) || goal == MergePrev(a)
    case _ => false
  }

  lemma StillBefore(pre: Heap, m: seq<byte>, ph: Phase, a: int)
    requires Inv(pre) && Legal(pre, Free(a + HEADER)) && OwnerOf(pre.blocks, a, 0) < |pre.blocks|
    requires PhaseInv(pre, Free(a + HEADER), m, ph) && BeforeSecond(ph, a) && !ph.MergePrev? && Runnable(m, ph)
    ensures BeforeSecond(Move(m, ph), a)
  {
    hide Inv, Legal, Freed, Merged, Probing, Passes, StoreAll, AvoidsBuffers, Bytes.HasTag, Bytes.Word, AbsorbStores;
    LiveFitting(pre, OwnerOf(pre.blocks, a, 0));
  }

  /** Left alone, a release comes to its second merge. */
  lemma {:induction false} ToSecondMerge(pre: Heap, m: seq<byte>, ph: Phase, a: int) returns (acts: seq<Act>)
    requires Inv(pre) && Legal(pre, Free(a + HEADER)) && OwnerOf(pre.blocks, a, 0) < |pre.blocks|
    requires PhaseInv(pre, Free(a + HEADER), m, ph) && BeforeSecond(ph, a)
    ensures Plays(Scene(pre, m, ph), acts)
    ensures Played(Scene(pre, m, ph), acts) == Scene(pre, Merged(pre, a).mem, MergePrev(a))
    decreases Work(pre.blocks, ph)
  {
    hide Inv, Legal, Merged, Freed, Probing, StoreAll, AvoidsBuffers, Move, MoveMem, Runnable, Work, Plays, Played,
      Playable, Play;
    var c := Scene(pre, m, ph);
    if ph.MergePrev? {
      PlaysNone(c);
      acts := [];
    } else {
      var call := Free(a + HEADER);
      MoveInv(pre, call, m, ph);
      MoveShortens(pre, call, m, ph);
      StillBefore(pre, m, ph, a);
      GoPlays(c);
      var rest := ToSecondMerge(pre, MoveMem(m, ph), Move(m, ph), a);
      PlaysFirst(c, Go, rest);
      acts := [Go] + rest;
    }
  }

  /** At the second merge the back link is read, and the test begins. */
  lemma ToTest(pre: Heap, a: int, k: int) returns (c: Scene)
    requires Inv(pre) && OwnerOf(pre.blocks, a, 0) < |pre.blocks| && 0 <= k < |pre.blocks|
    requires InsideBuffer(pre.blocks[k], pre.blocks[OwnerOf(pre.blocks, a, 0)].prev, HEADER)
    ensures var p := pre.blocks[OwnerOf(pre.blocks, a, 0)].prev;
      && Playable(Scene(pre, Merged(pre, a).mem, MergePrev(a)), Go)
      && Play(Scene(pre, Merged(pre, a).mem, MergePrev(a)), Go) == c
      && Bait(c, pre.blocks, k, p, a) && c.ph == Probe(p, a, 0, Leave(0)) && a + HEADER <= ADDRESS_LIMIT
  {
    hide Merged, Freed, MergeUp, Bytes.Word, Bytes.HasTag, Within;
    var i, h := OwnerOf(pre.blocks, a, 0), Merged(pre, a);
    MergedFacts(pre, a);
    MergedBelow(pre, a, i);
    MergedSize(pre, a);
    MergedFree(pre, a);
    ReadLive(h, i);
    var p := pre.blocks[i].prev;
    WithinTop(pre.blocks, |pre.mem|, k);
    FirstHasNoLink(pre);
    assert BackLink(pre.blocks, i);
    Ascending(pre.blocks, |pre.mem|, i - 1, i);
    WithinTop(pre.blocks, |pre.mem|, i - 1);
    var d := Scene(pre, h.mem, MergePrev(a));
    GoPlays(d);
    c := Play(d, Go);
  }

  lemma FirstHasNoLink(h: Heap)
    requires Inv(h)
    ensures h.blocks[0].prev == 0 && h.blocks[0].addr > 0
  {
  }

  lemma MergedSize(pre: Heap, a: int)
    requires Inv(pre) && OwnerOf(pre.blocks, a, 0) < |pre.blocks|
    ensures |Merged(pre, a).mem| == |pre.mem| <= ADDRESS_LIMIT
  {
    MergedFacts(pre, a);
    FreedInv(pre, a);
    MergeUpInv(Freed(pre, a), OwnerOf(pre.blocks, a, 0));
  }

  lemma MergedFree(pre: Heap, a: int)
    requires Inv(pre) && OwnerOf(pre.blocks, a, 0) < |pre.blocks|
    ensures var i := OwnerOf(pre.blocks, a, 0); i < |Merged(pre, a).blocks| && !Merged(pre, a).blocks[i].used
  {
    hide Inv, MergeUp, Merged, MergeBlocks, SameOutside, Within;
    var i := OwnerOf(pre.blocks, a, 0);
    MergedFacts(pre, a);
    FreedIs(pre, a);
    MergeUpInv(Freed(pre, a), i);
    if i + 1 < |pre.blocks| {
      MergeIndex(Freed(pre, a).blocks, i);
    }
  }

  /** heap_free on a block whose back link leads into a buffer in use. */
  lemma TornMerge(pre: Heap, a: int, k: int) returns (acts: seq<Act>)
    requires Inv(pre) && IsCall(Free(a + HEADER), pre.blocks[0].addr, |pre.mem|)
    requires OwnerOf(pre.blocks, a, 0) < |pre.blocks| && 0 <= k < |pre.blocks|
    requires InsideBuffer(pre.blocks[k], pre.blocks[OwnerOf(pre.blocks, a, 0)].prev, HEADER)
    ensures Plays(Opening(pre, Free(a + HEADER)), acts)
    ensures !Harmless(pre.blocks, Played(Opening(pre, Free(a + HEADER)), acts).ph)
  {
    hide Inv, Legal, Merged, PhaseInv, Plays, Played, Playable, Play, Bait, Harmless;
    var call := Free(a + HEADER);
    CallLegal(pre, call);
    OpeningOnTrack(pre, call);
    var first := ToSecondMerge(pre, pre.mem, Check(a + HEADER), a);
    var c := ToTest(pre, a, k);
    var last := TornProbe(c, pre.blocks, k, pre.blocks[OwnerOf(pre.blocks, a, 0)].prev, a);
    PlaysFirst(Scene(pre, Merged(pre, a).mem, MergePrev(a)), Go, last);
    PlaysOn(Opening(pre, call), first, [Go] + last);
    acts := first + ([Go] + last);
  }

  // ----- The exact condition

  lemma {:induction false} TornRun(pre: Heap, call: Op) returns (acts: seq<Act>)
    requires Inv(pre) && IsCall(call, pre.blocks[0].addr, |pre.mem|) && Tearable(pre.blocks, call)
    ensures Plays(Opening(pre, call), acts) && !Harmless(pre.blocks, Played(Opening(pre, call), acts).ph)
  {
    hide Inv, Plays, Played, Harmless;
    var a := call.ptr - HEADER;
    var i := OwnerOf(pre.blocks, a, 0);
    if i < |pre.blocks| {
      var k :| 0 <= k < |pre.blocks| && InsideBuffer(pre.blocks[k], pre.blocks[i].prev, HEADER);
      acts := TornMerge(pre, a, k);
    } else {
      var k :| 0 <= k < |pre.blocks| && InsideBuffer(pre.blocks[k], a, 8);
      FirstHasNoLink(pre);
      acts := TornCheck(pre, call.ptr, k);
    }
  }

  /** No write that forges nothing, at whatever moment, makes a call store into a buffer in use, if and only if the
      header behind the released block's back link (or in front of a pointer that is no buffer) does not lie in such a
      buffer. */
  lemma TornIff(pre: Heap, call: Op)
    requires Inv(pre) && IsCall(call, pre.blocks[0].addr, |pre.mem|)
    ensures (forall acts :: Plays(Opening(pre, call), acts) ==>
               Harmless(pre.blocks, Played(Opening(pre, call), acts).ph)) <==> !Tearable(pre.blocks, call)
  {
    hide Inv, Plays, Played, Harmless, Tearable, OnTrack;
    Filled(pre);
    var c := Opening(pre, call);
    OpeningOnTrack(pre, call);
    if Tearable(pre.blocks, call) {
      var acts := TornRun(pre, call);
    } else {
      forall acts | Plays(c, acts) ensures Harmless(pre.blocks, Played(c, acts).ph) {
        UntornRun(pre.blocks, |pre.mem|, call, c, acts);
        OnTrackHarmless(pre.blocks, |pre.mem|, call, Played(c, acts));
      }
    }
  }

  // ----- A heap in which it happens

  /** Three allocations of 100, 100 and 10 bytes. */
  function Three(bottom: int, top: int): seq<Block> {
    [Block(bottom, 100, true, bottom + 120, 0), Block(bottom + 120, 100, true, bottom + 240, bottom),
     Block(bottom + 240, 10, true, bottom + 270, bottom + 120), Rest(bottom, top)]
  }

  function Rest(bottom: int, top: int): Block {
    Block(bottom + 270, top - bottom - 290, false, 0, bottom + 240)
  }

  lemma ThreeReached(bottom: int, top: int)
    requires 0 < bottom && bottom + 1000 <= top
    ensures AllocBlocks(AllocBlocks(AllocBlocks(InitBlocks(bottom, top), 100), 100), 10) == Three(bottom, top)
  {
    var b0 := InitBlocks(bottom, top);
    var b1 := AllocBlocks(b0, 100);
    assert b1 == [Block(bottom, 100, true, bottom + 120, 0), Block(bottom + 120, top - bottom - 140, false, 0, bottom)];
    var b2 := AllocBlocks(b1, 100);
    assert FirstFit(b1, 100, 0) == 1;
    assert b2 == [b1[0], Block(bottom + 120, 100, true, bottom + 240, bottom),
                  Block(bottom + 240, top - bottom - 260, false, 0, bottom + 120)];
    assert FirstFit(b2, 10, 1) == 2;
    assert FirstFit(b2, 10, 0) == 2;
  }

  /** The second block has been freed and given out again in two pieces; the third still points back to the first. */
  function Pieces(bottom: int, top: int): seq<Block> {
    [Block(bottom, 100, true, bottom + 120, 0), Block(bottom + 120, 10, true, bottom + 150, bottom),
     Block(bottom + 150, 70, true, bottom + 240, bottom + 120),
     Block(bottom + 240, 10, true, bottom + 270, bottom + 120), Rest(bottom, top)]
  }

  lemma PiecesReached(bottom: int, top: int)
    requires 0 < bottom && bottom + 1000 <= top
    ensures AllocBlocks(AllocBlocks(FreeBlocks(Three(bottom, top), 1), 10), 70) == Pieces(bottom, top)
  {
    var b3 := Three(bottom, top);
    var b4 := FreeBlocks(b3, 1);
    assert b4 == [b3[0], b3[1].(used := false), b3[2], b3[3]];
    var b5 := AllocBlocks(b4, 10);
    assert FirstFit(b4, 10, 0) == 1;
    assert b5 == [b3[0], Block(bottom + 120, 10, true, bottom + 150, bottom),
                  Block(bottom + 150, 70, false, bottom + 240, bottom + 120), b3[2], b3[3]];
    assert FirstFit(b5, 70, 1) == 2;
    assert FirstFit(b5, 70, 0) == 2;
  }

  /** The first block has absorbed the first piece and is in use again. */
  function Trap(bottom: int, top: int): seq<Block> {
    [Block(bottom, 130, true, bottom + 150, 0), Block(bottom + 150, 70, true, bottom + 240, bottom),
     Block(bottom + 240, 10, true, bottom + 270, bottom + 120), Rest(bottom, top)]
  }

  lemma TrapReached(bottom: int, top: int)
    requires 0 < bottom && bottom + 1000 <= top
    ensures var b7 := FreeBlocks(Pieces(bottom, top), 0);
      |b7| == 5 && OwnerOf(b7, bottom + 120, 0) == 1 && AllocBlocks(FreeBlocks(b7, 1), 130) == Trap(bottom, top)
  {
    var b6 := Pieces(bottom, top);
    var b7 := FreeBlocks(b6, 0);
    assert b7 == [b6[0].(used := false), b6[1], b6[2], b6[3], b6[4]];
    assert OwnerOf(b7, bottom + 120, 1) == 1 && OwnerOf(b7, bottom + 120, 0) == 1;
    var b8 := FreeBlocks(b7, 1);
    assert b8 == [Block(bottom, 130, false, bottom + 150, 0), Block(bottom + 150, 70, true, bottom + 240, bottom),
                  b6[3], b6[4]];
    assert FirstFit(b8, 130, 0) == 0;
  }

  /** Nine calls that lay the trap. */
  function TrapCalls(bottom: int): seq<Op> {
    [Alloc(100), Alloc(100), Alloc(10)] + [Free(bottom + 140), Alloc(10), Alloc(70)] +
    [Free(bottom + 20), Free(bottom + 140), Alloc(130)]
  }

  lemma TrapBlocks(bottom: int, top: int)
    requires 0 < bottom && bottom + 1000 <= top
    ensures OpsBlocks(InitBlocks(bottom, top), TrapCalls(bottom)) == Trap(bottom, top)
  {
    hide AllocBlocks, FreeBlocks, InitBlocks, OpsBlocks, OwnerOf;
    var b0, b3, b6 := InitBlocks(bottom, top), Three(bottom, top), Pieces(bottom, top);
    ThreeReached(bottom, top);
    PiecesReached(bottom, top);
    TrapReached(bottom, top);
    TrapOwners(bottom, top);
    ThreeOps(b0, Alloc(100), Alloc(100), Alloc(10));
    ThreeOps(b3, Free(bottom + 140), Alloc(10), Alloc(70));
    ThreeOps(b6, Free(bottom + 20), Free(bottom + 140), Alloc(130));
    var xs, ys := [Alloc(100), Alloc(100), Alloc(10)], [Free(bottom + 140), Alloc(10), Alloc(70)];
    OpsConcat(b0, xs, ys);
    OpsConcat(b0, xs + ys, [Free(bottom + 20), Free(bottom + 140), Alloc(130)]);
  }

  lemma TrapOwners(bottom: int, top: int)
    ensures OwnerOf(Three(bottom, top), bottom + 120, 0) == 1 && OwnerOf(Pieces(bottom, top), bottom, 0) == 0
    ensures Tearable(Trap(bottom, top), Free(bottom + 260))
  {
    var b3, b9 := Three(bottom, top), Trap(bottom, top);
    assert OwnerOf(b3, bottom + 120, 1) == 1;
    assert OwnerOf(b9, bottom + 240, 2) == 2 && OwnerOf(b9, bottom + 240, 1) == 2 && OwnerOf(b9, bottom + 240, 0) == 2;
    assert InsideBuffer(b9[0], bottom + 120, HEADER);
  }

  /** Calls of heap_alloc, and of heap_free on pointers into the heap, are always in order. */
  lemma {:induction false} CallsLegal(h: Heap, ops: seq<Op>)
    requires Inv(h) && forall i :: 0 <= i < |ops| ==> IsCall(ops[i], h.blocks[0].addr, |h.mem|)
    ensures LegalRun(h, ops)
    decreases |ops|
  {
    hide Inv, Legal, Apply, IsCall;
    if |ops| > 0 {
      CallLegal(h, ops[0]);
      ApplyInv(h, ops[0]);
      CallsLegal(Apply(h, ops[0]), ops[1..]);
    }
  }

  /** Nine calls after heap_init, on any blank region, a release can be torn: the block's back link leads to a control
      block that was absorbed and lies in a buffer handed out since. Client writes that forge nothing then make
      heap_free store into that buffer. */
  lemma TornAfterNineCalls(m: seq<byte>, bottom: int) returns (acts: seq<Act>)
    requires 0 < bottom && bottom + 1000 <= |m| <= ADDRESS_LIMIT && Blank(m, bottom)
    ensures Inv(InitHeap(m, bottom)) && LegalRun(InitHeap(m, bottom), TrapCalls(bottom))
    ensures var h, call := Run(InitHeap(m, bottom), TrapCalls(bottom)), Free(bottom + 260);
      && Inv(h) && IsCall(call, h.blocks[0].addr, |h.mem|) && Tearable(h.blocks, call)
      && Plays(Opening(h, call), acts) && !Harmless(h.blocks, Played(Opening(h, call), acts).ph)
  {
    hide Inv, Run, LegalRun, Tearable, Plays, Played, Harmless, WriteHeader, OpsBlocks;
    var h0, ops := InitHeap(m, bottom), TrapCalls(bottom);
    InitInv(m, bottom);
    CallsLegal(h0, ops);
    RunInv(h0, ops);
    RunBlocks(h0, ops);
    TrapBlocks(bottom, |m|);
    TrapOwners(bottom, |m|);
    acts := TornRun(Run(h0, ops), Free(bottom + 260));
  }
}
