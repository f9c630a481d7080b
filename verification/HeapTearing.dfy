/** When a client's writes can fall between the loads of one test and make it pass on what never was a header. */
module HeapTearing {
  import opened Bytes
  import opened Sequences
  import opened HeapLayout
  import opened HeapModel
  import opened HeapRuns
  import opened HeapTests
  import opened HeapStores
  import opened HeapSteps
  import opened HeapClients

  /** The header behind the released block's back link lies in a buffer in use; or, when the pointer is no buffer in
      use, the two words in front of it do. */
  ghost predicate Tearable(bs: seq<Block>, call: Op) {
    call.Free? &&
    var i := OwnerOf(bs, call.ptr - HEADER, 0);
    if i < |bs| then Exposed(bs, bs[i].prev, HEADER) else Exposed(bs, call.ptr - HEADER, 8)
  }

  // ----- One critical section among client writes

  datatype Act = Go | Put(at: int, data: seq<byte>)

  /** The heap without the call in progress, the memory, and where the call is. */
  datatype Scene = Scene(pre: Heap, m: seq<byte>, ph: Phase)

  ghost predicate Playable(c: Scene, act: Act) {
    match act
    case Go => Runnable(c.m, c.ph)
    case Put(at, data) => Inv(c.pre) && Legal(c.pre, Write(at, data)) && |c.m| == |c.pre.mem|
  }

  ghost function Play(c: Scene, act: Act): (d: Scene)
    requires Playable(c, act)
  {
    match act
    case Go => Scene(c.pre, MoveMem(c.m, c.ph), Move(c.m, c.ph))
    case Put(at, data) => Scene(Written(c.pre, at, data), Splice(c.m, at, data), c.ph)
  }

  ghost predicate Plays(c: Scene, acts: seq<Act>)
    decreases |acts|
  {
    |acts| == 0 || (Playable(c, acts[0]) && Plays(Play(c, acts[0]), acts[1..]))
  }

  ghost function Played(c: Scene, acts: seq<Act>): (d: Scene)
    requires Plays(c, acts)
    decreases |acts|
  {
    if |acts| == 0 then c else Played(Play(c, acts[0]), acts[1..])
  }

  function Opening(pre: Heap, call: Op): Scene
    requires |pre.blocks| > 0 && !call.Write?
  {
    Scene(pre, pre.mem, StartOf(call, pre.blocks[0].addr))
  }

  /** The words that the call is about to store stay out of the buffers in use. */
  predicate Harmless(bs: seq<Block>, ph: Phase) {
    ph.Storing? ==> AvoidsBuffers(ph.ws, bs)
  }

  lemma {:induction false} PlaysOn(c: Scene, xs: seq<Act>, ys: seq<Act>)
    requires Plays(c, xs) && Plays(Played(c, xs), ys)
    ensures Plays(c, xs + ys) && Played(c, xs + ys) == Played(Played(c, xs), ys)
    decreases |xs|
  {
    hide Playable, Play;
    if |xs| == 0 {
      assert xs + ys == ys;
    } else {
      assert (xs + ys)[0] == xs[0] && (xs + ys)[1..] == xs[1..] + ys;
      PlaysOn(Play(c, xs[0]), xs[1..], ys);
    }
  }

  lemma {:induction false} PlaysFirst(c: Scene, act: Act, ys: seq<Act>)
    requires Playable(c, act) && Plays(Play(c, act), ys)
    ensures Plays(c, [act] + ys) && Played(c, [act] + ys) == Played(Play(c, act), ys)
  {
    hide Playable, Play;
    assert ([act] + ys)[0] == act && ([act] + ys)[1..] == ys;
  }

  lemma {:induction false} PlaysNone(c: Scene)
    ensures Plays(c, []) && Played(c, []) == c
  {
  }

  // ----- Calls that cannot be torn

  /** The call is on the way that the sequential heap before it prescribes. */
  ghost predicate OnTrack(bs: seq<Block>, top: int, call: Op, c: Scene) {
    Inv(c.pre) && c.pre.blocks == bs && |c.pre.mem| == |c.m| == top && IsCall(call, bs[0].addr, top) &&
    Legal(c.pre, call) && PhaseInv(c.pre, call, c.m, c.ph)
  }

  lemma LiveNotExposed(bs: seq<Block>, top: int, i: int, n: int)
    requires Tiled(bs, top) && 0 <= i < |bs| && 0 < n
    ensures !Exposed(bs, bs[i].addr, n)
  {
    forall k | 0 <= k < |bs| ensures !InsideBuffer(bs[k], bs[i].addr, n) {
      if k != i {
        Apart(bs, top, k, i);
      }
    }
  }

  /** In a call that cannot be torn, no client write disturbs a test. */
  lemma NotDisturbed(pre: Heap, call: Op, m: seq<byte>, ph: Phase, at: int, len: int)
    requires Inv(pre) && Legal(pre, call) && !call.Write? && PhaseInv(pre, call, m, ph) && !Tearable(pre.blocks, call)
    ensures !Disturbs(pre.blocks, ph, at, len)
  {
    hide Inv, Legal, Exposed, Freed, Merged, Apply, StoreAll, AvoidsBuffers, Tiled;
    TiledOf(pre);
    match ph
    case CheckStatus(ptr) =>
      var i := OwnerOf(pre.blocks, ptr - HEADER, 0);
      if i < |pre.blocks| {
        LiveNotExposed(pre.blocks, |pre.mem|, i, 8);
      }
    case Probe(head, tail, s, goal) =>
      if goal.MergePrev? {
        LiveNotExposed(pre.blocks, |pre.mem|, OwnerOf(pre.blocks, head, 0), HEADER);
      } else {
        var i := OwnerOf(pre.blocks, tail, 0);
        MergedBelow(pre, tail, i);
        MergedBelow(pre, tail, i - 1);
        LiveNotExposed(pre.blocks, |pre.mem|, i - 1, HEADER);
      }
    case _ =>
  }

  lemma StaysOnTrack(bs: seq<Block>, top: int, call: Op, c: Scene, act: Act)
    requires OnTrack(bs, top, call, c) && Playable(c, act)
    requires act.Put? ==> !Disturbs(bs, c.ph, act.at, |act.data|)
    ensures OnTrack(bs, top, call, Play(c, act))
  {
    match act
    case Go =>
      hide Inv, Legal, PhaseInv, Move, MoveMem, Runnable;
      LeaveStays(c.m, c.ph);
      MoveInv(c.pre, call, c.m, c.ph);
    case Put(at, data) =>
      ApplyInv(c.pre, Write(at, data));
      var i :| 0 <= i < |c.pre.blocks| && InsideBuffer(c.pre.blocks[i], at, |data|);
      hide Inv, PhaseInv, Splice;
      WriteKeepsPhase(c.pre, call, c.m, c.ph, i, at, data);
  }

  lemma LeaveStays(m: seq<byte>, ph: Phase)
    requires Runnable(m, ph)
    ensures !ph.Leave?
  {
  }

  /** Whatever clients write and whenever, a call that cannot be torn goes the way of the sequential call. */
  lemma {:induction false} UntornRun(bs: seq<Block>, top: int, call: Op, c: Scene, acts: seq<Act>)
    requires OnTrack(bs, top, call, c) && Plays(c, acts) && !Tearable(bs, call)
    ensures OnTrack(bs, top, call, Played(c, acts))
    decreases |acts|
  {
    hide Playable, Play, Tearable, Disturbs;
    if |acts| > 0 {
      if acts[0].Put? {
        NotDisturbed(c.pre, call, c.m, c.ph, acts[0].at, |acts[0].data|);
      }
      StaysOnTrack(bs, top, call, c, acts[0]);
      UntornRun(bs, top, call, Play(c, acts[0]), acts[1..]);
    }
  }

  lemma OpeningOnTrack(pre: Heap, call: Op)
    requires Inv(pre) && IsCall(call, pre.blocks[0].addr, |pre.mem|)
    ensures OnTrack(pre.blocks, |pre.mem|, call, Opening(pre, call))
  {
    CallLegal(pre, call);
    assert call.Alloc? ==> ReachedAt(pre.blocks, call.size, pre.blocks[0].addr, 0);
  }

  lemma OnTrackHarmless(bs: seq<Block>, top: int, call: Op, c: Scene)
    requires OnTrack(bs, top, call, c)
    ensures Harmless(bs, c.ph)
  {
  }
}
