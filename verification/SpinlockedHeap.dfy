/** Any number of processors share the heap behind one spinlock; every interleaving equals a sequential run. */
module SpinlockedHeap {
  import opened Bytes
  import opened Sequences
  import opened HeapLayout
  import opened HeapModel
  import opened HeapRuns
  import opened HeapHistories
  import opened HeapStores
  import opened HeapSteps
  import opened HeapClients
  import opened HeapTearing
  import opened HeapTorn

  /** A processor is outside, spinning on the lock, or inside its critical section. */
  datatype Cpu = Idle | Spinning(call: Op) | Inside(call: Op, phase: Phase)

  /** A call that has returned, or a client's write. */
  datatype Finished = Finished(op: Op, result: int)

  /** The lock word, the processors and the memory; done only serves to state what happened. */
  datatype System = System(locked: int, cpus: seq<Cpu>, mem: seq<byte>, done: seq<Finished>)

  datatype Event =
    | Enter(cpu: int, call: Op)
    | Exchange(cpu: int)
    | Advance(cpu: int)
    | Release(cpu: int)
    | ClientWrite(cpu: int, at: int, data: seq<byte>)

  function Ops(done: seq<Finished>): (ops: seq<Op>)
    ensures |ops| == |done| && forall k :: 0 <= k < |ops| ==> ops[k] == done[k].op
  {
    seq(|done|, k requires 0 <= k < |done| => done[k].op)
  }

  /** The write stays in a buffer that has been handed out, and forges no control block. */
  ghost predicate ClientMay(h: Heap, done: seq<Finished>, at: int, data: seq<byte>) {
    Inv(h) && LegalRun(h, Ops(done)) && Legal(Run(h, Ops(done)), Write(at, data))
  }

  /** One atomic step: the lock word changes by exchange only, and a processor inside makes one move at a time. Clients
      write at any moment, also while another processor is inside. */
  ghost predicate Step(h: Heap, s: System, ev: Event, t: System) {
    0 <= ev.cpu < |s.cpus| && |h.blocks| > 0 &&
    var cpu := s.cpus[ev.cpu];
    match ev
    case Enter(c, op) =>
      cpu.Idle? && IsCall(op, h.blocks[0].addr, |h.mem|) && t == s.(cpus := s.cpus[c := Spinning(op)])
    case Exchange(c) =>
      cpu.Spinning? && !cpu.call.Write? &&
      var inside := Inside(cpu.call, StartOf(cpu.call, h.blocks[0].addr));
      t == s.(locked := 1, cpus := if s.locked != 0 then s.cpus else s.cpus[c := inside])
    case Advance(c) =>
      cpu.Inside? && Runnable(s.mem, cpu.phase) &&
      t == s.(mem := MoveMem(s.mem, cpu.phase), cpus := s.cpus[c := cpu.(phase := Move(s.mem, cpu.phase))])
    case Release(c) =>
      cpu.Inside? && cpu.phase.Leave? &&
      t == s.(locked := 0, cpus := s.cpus[c := Idle], done := s.done + [Finished(cpu.call, cpu.phase.result)])
    case ClientWrite(_, at, data) =>
      cpu.Idle? && ClientMay(h, s.done, at, data) && 0 <= at && at + |data| <= |s.mem| &&
      t == s.(mem := Splice(s.mem, at, data), done := s.done + [Finished(Write(at, data), 0)])
  }

  /** A client's write hits the header that a processor is just testing, all of which lies in a buffer in use. */
  ghost predicate Disturbing(h: Heap, s: System, ev: Event) {
    ev.ClientWrite? && ClientMay(h, s.done, ev.at, ev.data) &&
    exists c :: 0 <= c < |s.cpus| && DisturbsCpu(Run(h, Ops(s.done)).blocks, s.cpus[c], ev.at, |ev.data|)
  }

  ghost predicate DisturbsCpu(bs: seq<Block>, cpu: Cpu, at: int, len: int) {
    cpu.Inside? && Disturbs(bs, cpu.phase, at, len)
  }

  /** No processor has called yet, and the heap is as heap_init left it or as any run left it. */
  ghost predicate Start(h: Heap, s: System) {
    Inv(h) && s.locked == 0 && s.mem == h.mem && s.done == [] && forall c :: 0 <= c < |s.cpus| ==> s.cpus[c].Idle?
  }

  ghost predicate AtMostOneInside(s: System) {
    forall c, d :: 0 <= c < |s.cpus| && 0 <= d < |s.cpus| && s.cpus[c].Inside? && s.cpus[d].Inside? ==> c == d
  }

  ghost predicate SomeInside(s: System) {
    exists c :: 0 <= c < |s.cpus| && s.cpus[c].Inside?
  }

  /** A processor that waits has a proper call; one that is inside is on its way from the sequential heap pre. */
  ghost predicate CpuOk(pre: Heap, m: seq<byte>, cpu: Cpu) {
    Inv(pre) &&
    match cpu
    case Idle => true
    case Spinning(call) => IsCall(call, pre.blocks[0].addr, |pre.mem|)
    case Inside(call, ph) =>
      IsCall(call, pre.blocks[0].addr, |pre.mem|) && Legal(pre, call) && PhaseInv(pre, call, m, ph)
  }

  ghost predicate CpusOk(pre: Heap, s: System) {
    |s.mem| == |pre.mem| && (s.locked == 0 ==> s.mem == pre.mem) &&
    forall c :: 0 <= c < |s.cpus| ==> CpuOk(pre, s.mem, s.cpus[c])
  }

  ghost predicate LockOk(s: System) {
    AtMostOneInside(s) && (s.locked == 0 || s.locked == 1) && (s.locked == 1 <==> SomeInside(s))
  }

  /** Every call returned what it returns in the sequential run. */
  ghost predicate ResultsOk(h: Heap, done: seq<Finished>)
    requires Inv(h) && LegalRun(h, Ops(done))
  {
    forall k :: 0 <= k < |done| ==> done[k].result == ResultAt(h, Ops(done), k)
  }

  ghost predicate SysInv(h: Heap, s: System) {
    Inv(h) && LegalRun(h, Ops(s.done)) && ResultsOk(h, s.done) && LockOk(s) && CpusOk(Run(h, Ops(s.done)), s)
  }

  // ----- Every step keeps the invariant

  lemma StartInv(h: Heap, s: System)
    requires Start(h, s)
    ensures SysInv(h, s)
  {
    assert Ops(s.done) == [];
  }

  /** A call or write that comes last in the history. */
  lemma Finish(h: Heap, done: seq<Finished>, op: Op, result: int)
    requires Inv(h) && LegalRun(h, Ops(done)) && ResultsOk(h, done) && Inv(Run(h, Ops(done)))
    requires Legal(Run(h, Ops(done)), op) && result == CallResult(Run(h, Ops(done)), op)
    ensures var more := done + [Finished(op, result)];
      && LegalRun(h, Ops(more)) && Run(h, Ops(more)) == Apply(Run(h, Ops(done)), op) && ResultsOk(h, more)
  {
    hide Inv, Legal, Apply, LegalRun, Run, CallResult;
    var more := done + [Finished(op, result)];
    assert Ops(more) == Ops(done) + [op];
    RunExtend(h, Ops(done), op);
    forall k | 0 <= k < |more| ensures more[k].result == ResultAt(h, Ops(more), k) {
      assert Ops(more)[..k] == Ops(done)[..k] && (k == |done| ==> Ops(done)[..k] == Ops(done));
    }
  }

  lemma AcquireInv(pre: Heap, s: System, c: int, t: System)
    requires CpusOk(pre, s) && LockOk(s) && s.locked == 0 && 0 <= c < |s.cpus| && s.cpus[c].Spinning?
    requires Inv(pre) && !s.cpus[c].call.Write?
    requires var inside := Inside(s.cpus[c].call, StartOf(s.cpus[c].call, pre.blocks[0].addr));
      t == s.(locked := 1, cpus := s.cpus[c := inside])
    ensures CpusOk(pre, t) && LockOk(t)
  {
    var call := s.cpus[c].call;
    assert CpuOk(pre, s.mem, s.cpus[c]);
    assert call.Alloc? ==> ReachedAt(pre.blocks, call.size, pre.blocks[0].addr, 0);
    hide Inv;
    CallLegal(pre, call);
    assert CpuOk(pre, t.mem, t.cpus[c]) && t.cpus[c].Inside?;
    hide CpuOk;
  }

  /** Only the processor inside depends on the memory. */
  lemma OutsideOk(pre: Heap, m: seq<byte>, r: seq<byte>, cpu: Cpu)
    requires CpuOk(pre, m, cpu) && !cpu.Inside?
    ensures CpuOk(pre, r, cpu)
  {
  }

  lemma AdvanceInv(pre: Heap, s: System, c: int, t: System)
    requires CpusOk(pre, s) && LockOk(s) && 0 <= c < |s.cpus| && s.cpus[c].Inside? && Runnable(s.mem, s.cpus[c].phase)
    requires t == s.(mem := MoveMem(s.mem, s.cpus[c].phase),
                     cpus := s.cpus[c := s.cpus[c].(phase := Move(s.mem, s.cpus[c].phase))])
    ensures CpusOk(pre, t) && LockOk(t)
  {
    var call, ph := s.cpus[c].call, s.cpus[c].phase;
    assert CpuOk(pre, s.mem, s.cpus[c]) && !ph.Leave?;
    hide Inv, Legal, PhaseInv, Move, MoveMem, Runnable;
    MoveInv(pre, call, s.mem, ph);
    assert CpuOk(pre, t.mem, t.cpus[c]) && t.cpus[c].Inside?;
    hide CpuOk;
    forall d | 0 <= d < |t.cpus| ensures CpuOk(pre, t.mem, t.cpus[d]) {
      if d != c {
        OutsideOk(pre, s.mem, t.mem, s.cpus[d]);
      }
    }
  }

  /** A processor outside stays as it is when the heap moves on. */
  lemma CallStays(pre: Heap, post: Heap, m: seq<byte>, r: seq<byte>, cpu: Cpu)
    requires CpuOk(pre, m, cpu) && !cpu.Inside?
    requires Inv(post) && |post.mem| == |pre.mem| && post.blocks[0].addr == pre.blocks[0].addr
    ensures CpuOk(post, r, cpu)
  {
  }

  lemma ReleaseInv(h: Heap, s: System, c: int, t: System)
    requires SysInv(h, s) && Step(h, s, Release(c), t)
    ensures SysInv(h, t)
  {
    hide LegalRun, Run, Legal, Apply, ResultsOk, Inv, Ops;
    RunInv(h, Ops(s.done));
    var pre, call := Run(h, Ops(s.done)), s.cpus[c].call;
    assert CpuOk(pre, s.mem, s.cpus[c]);
    ApplyInv(pre, call);
    Finish(h, s.done, call, s.cpus[c].phase.result);
    forall d | 0 <= d < |t.cpus| ensures CpuOk(Apply(pre, call), t.mem, t.cpus[d]) {
      if d != c {
        CallStays(pre, Apply(pre, call), s.mem, t.mem, s.cpus[d]);
      }
    }
  }

  lemma WrittenCpu(pre: Heap, m: seq<byte>, cpu: Cpu, at: int, data: seq<byte>)
    requires CpuOk(pre, m, cpu) && |m| == |pre.mem| && Inv(pre) && Legal(pre, Write(at, data))
    requires !DisturbsCpu(pre.blocks, cpu, at, |data|)
    ensures 0 <= at && at + |data| <= |pre.mem| && CpuOk(Written(pre, at, data), Splice(m, at, data), cpu)
  {
    ApplyInv(pre, Write(at, data));
    var i :| 0 <= i < |pre.blocks| && InsideBuffer(pre.blocks[i], at, |data|);
    hide Inv, PhaseInv, Splice, Disturbs;
    if cpu.Inside? {
      WriteKeepsPhase(pre, cpu.call, m, cpu.phase, i, at, data);
    }
  }

  lemma ClientInv(h: Heap, s: System, c: int, at: int, data: seq<byte>, t: System)
    requires SysInv(h, s) && Step(h, s, ClientWrite(c, at, data), t) && !Disturbing(h, s, ClientWrite(c, at, data))
    ensures SysInv(h, t)
  {
    hide LegalRun, Run, Legal, ResultsOk, Inv, Ops, CpuOk, Splice, DisturbsCpu;
    RunInv(h, Ops(s.done));
    var pre := Run(h, Ops(s.done));
    Finish(h, s.done, Write(at, data), 0);
    forall d | 0 <= d < |t.cpus| ensures CpuOk(Written(pre, at, data), t.mem, t.cpus[d]) {
      WrittenCpu(pre, s.mem, s.cpus[d], at, data);
    }
  }

  lemma EnterInv(pre: Heap, s: System, c: int, op: Op, t: System)
    requires CpusOk(pre, s) && LockOk(s) && Inv(pre) && 0 <= c < |s.cpus| && s.cpus[c].Idle?
    requires IsCall(op, pre.blocks[0].addr, |pre.mem|) && t == s.(cpus := s.cpus[c := Spinning(op)])
    ensures CpusOk(pre, t) && LockOk(t)
  {
    assert CpuOk(pre, t.mem, t.cpus[c]);
    hide CpuOk, Inv;
    assert forall d :: 0 <= d < |s.cpus| && s.cpus[d].Inside? ==> t.cpus[d].Inside?;
  }

  lemma StepInv(h: Heap, s: System, ev: Event, t: System)
    requires SysInv(h, s) && Step(h, s, ev, t) && !Disturbing(h, s, ev)
    ensures SysInv(h, t)
  {
    hide Inv, LegalRun, Run, ResultsOk, CpusOk, LockOk, Runnable, Move, MoveMem, ClientMay, Ops,
      Disturbing;
    RunInv(h, Ops(s.done));
    var pre := Run(h, Ops(s.done));
    match ev
    case Enter(c, op) => EnterInv(pre, s, c, op, t);
    case Exchange(c) =>
      if s.locked == 0 {
        AcquireInv(pre, s, c, t);
      } else {
        AlreadyLocked(s);
      }
    case Advance(c) => AdvanceInv(pre, s, c, t);
    case Release(c) => ReleaseInv(h, s, c, t);
    case ClientWrite(c, at, data) => ClientInv(h, s, c, at, data, t);
  }

  lemma AlreadyLocked(s: System)
    requires LockOk(s) && s.locked != 0
    ensures s.(locked := 1) == s
  {
  }

  // ----- Every interleaving

  /** States visited by a run: consecutive ones are one step apart, and no write disturbs a test. */
  ghost predicate Trace(h: Heap, states: seq<System>, events: seq<Event>) {
    |states| == |events| + 1 && forall i :: 0 <= i < |events| ==> Calm(h, states[i], events[i], states[i + 1])
  }

  ghost predicate Calm(h: Heap, s: System, ev: Event, t: System) {
    Step(h, s, ev, t) && !Disturbing(h, s, ev)
  }

  lemma {:induction false} TraceInv(h: Heap, states: seq<System>, events: seq<Event>, n: int)
    requires |states| > 0 && Start(h, states[0]) && Trace(h, states, events) && 0 <= n < |states|
    ensures SysInv(h, states[n])
    decreases n
  {
    hide SysInv, Step, Disturbing;
    if n == 0 {
      StartInv(h, states[0]);
    } else {
      TraceInv(h, states, events, n - 1);
      assert Calm(h, states[n - 1], events[n - 1], states[n - 1 + 1]);
      StepInv(h, states[n - 1], events[n - 1], states[n]);
    }
  }

  /** In every interleaving without such writes: mutual exclusion, an exact lock word, a heap that is the one the calls
      and writes would have produced one after another in the order in which the calls got the lock, and the same
      results. */
  lemma Linearizable(h: Heap, states: seq<System>, events: seq<Event>, n: int)
    requires |states| > 0 && Start(h, states[0]) && Trace(h, states, events) && 0 <= n < |states|
    ensures var s := states[n];
      && AtMostOneInside(s) && (s.locked == 0 || s.locked == 1) && (s.locked == 1 <==> SomeInside(s))
      && LegalRun(h, Ops(s.done))
      && (forall k :: 0 <= k < |s.done| ==> s.done[k].result == ResultAt(h, Ops(s.done), k))
      && Inv(Run(h, Ops(s.done))) && (s.locked == 0 ==> s.mem == Run(h, Ops(s.done)).mem)
  {
    hide Inv, LegalRun, Run, Step, Trace;
    TraceInv(h, states, events, n);
    RunInv(h, Ops(states[n].done));
  }

  /** Two processors never hold overlapping buffers: what two calls of heap_alloc returned shares no byte, unless the
      first was freed in between. */
  lemma HandedOutDisjoint(h: Heap, states: seq<System>, events: seq<Event>, n: int, j: int, k: int)
    requires |states| > 0 && Start(h, states[0]) && Trace(h, states, events) && 0 <= n < |states|
    requires var done := states[n].done;
      && 0 <= j < k < |done| && done[j].op.Alloc? && done[k].op.Alloc? && done[j].result != 0 && done[k].result != 0
      && forall i :: j < i < k ==> done[i].op != Free(done[j].result)
    ensures var a, b := states[n].done[j], states[n].done[k];
      a.result + a.op.size <= b.result || b.result + b.op.size <= a.result
  {
    hide Inv, LegalRun, Run, Step, Trace, ResultAt;
    Linearizable(h, states, events, n);
    OutstandingDisjoint(h, Ops(states[n].done), j, k);
  }

  /** A processor inside never stores into a buffer in use. */
  lemma AdvanceLeavesBuffers(h: Heap, s: System, c: int, t: System, i: int)
    requires SysInv(h, s) && Step(h, s, Advance(c), t)
    requires var bs := Run(h, Ops(s.done)).blocks; 0 <= i < |bs| && bs[i].used
    ensures var b := Run(h, Ops(s.done)).blocks[i]; SameData(s.mem, t.mem, b.addr, b.size)
  {
    hide Inv, LegalRun, Run, Legal, StoreAll, Clear;
    var pre, ph := Run(h, Ops(s.done)), s.cpus[c].phase;
    assert CpuOk(pre, s.mem, s.cpus[c]);
    if ph.Storing? && ph.ws.Then? {
      ClearOf(pre.blocks, i, ph.ws.at);
    }
  }

  lemma ClearOf(bs: seq<Block>, i: int, x: int)
    requires Clear(bs, x) && 0 <= i < |bs|
    ensures OutsideData(bs[i], x)
  {
  }

  // ----- Progress

  /** A processor that finds the lock free gets in at its first exchange. */
  lemma FreeLockIsTaken(h: Heap, s: System, c: int)
    requires SysInv(h, s) && 0 <= c < |s.cpus| && s.locked == 0 && s.cpus[c].Spinning?
    ensures exists t :: Step(h, s, Exchange(c), t) && |t.cpus| == |s.cpus| && t.cpus[c].Inside?
  {
    var call := s.cpus[c].call;
    assert CpuOk(Run(h, Ops(s.done)), s.mem, s.cpus[c]) && |h.blocks| > 0;
    hide Inv, LegalRun, Run;
    var t := s.(locked := 1, cpus := s.cpus[c := Inside(call, StartOf(call, h.blocks[0].addr))]);
    assert Step(h, s, Exchange(c), t) && t.cpus[c].Inside?;
  }

  /** The processor inside can always go on, and never leaves memory. */
  lemma HolderCanMove(h: Heap, s: System)
    requires SysInv(h, s) && s.locked == 1
    ensures exists c, t :: Step(h, s, Release(c), t) || Step(h, s, Advance(c), t)
  {
    var d :| 0 <= d < |s.cpus| && s.cpus[d].Inside?;
    var pre, call, ph := Run(h, Ops(s.done)), s.cpus[d].call, s.cpus[d].phase;
    assert CpuOk(pre, s.mem, s.cpus[d]) && |h.blocks| > 0;
    hide Inv, LegalRun, Run, Legal, PhaseInv, Runnable, Move, MoveMem;
    if ph.Leave? {
      var t := s.(locked := 0, cpus := s.cpus[d := Idle], done := s.done + [Finished(call, ph.result)]);
      assert Step(h, s, Release(d), t);
    } else {
      MoveInv(pre, call, s.mem, ph);
      var t := s.(mem := MoveMem(s.mem, ph), cpus := s.cpus[d := s.cpus[d].(phase := Move(s.mem, ph))]);
      assert Step(h, s, Advance(d), t);
    }
  }

  /** The moves left to the processor c inside. */
  ghost function WorkLeft(h: Heap, s: System, c: int): nat
    requires SysInv(h, s) && 0 <= c < |s.cpus| && s.cpus[c].Inside?
  {
    Work(Run(h, Ops(s.done)).blocks, s.cpus[c].phase)
  }

  /** Whatever the others do, the processor inside keeps its place, and its own moves bring its release nearer. */
  lemma HolderGetsOut(h: Heap, s: System, ev: Event, t: System, c: int)
    requires SysInv(h, s) && Step(h, s, ev, t) && SysInv(h, t) && 0 <= c < |s.cpus| && s.cpus[c].Inside? &&
      ev != Release(c)
    ensures |t.cpus| == |s.cpus| && t.cpus[c].Inside? && WorkLeft(h, t, c) <= WorkLeft(h, s, c)
    ensures ev == Advance(c) ==> WorkLeft(h, t, c) < WorkLeft(h, s, c)
  {
    var pre := Run(h, Ops(s.done));
    assert CpuOk(pre, s.mem, s.cpus[c]);
    hide Inv, LegalRun, Run, Legal, PhaseInv, Runnable, Move, MoveMem, Work, Splice, CpusOk, ResultsOk, Ops;
    match ev
    case Advance(_) =>
      MoveShortens(pre, s.cpus[c].call, s.mem, s.cpus[c].phase);
    case ClientWrite(_, at, data) =>
      Finish(h, s.done, Write(at, data), 0);
    case _ =>
  }

  // ----- Why calm is needed

  /** One processor inside its call, and one that is a client. */
  function Pair(call: Op, c: Scene, done: seq<Finished>): System {
    System(1, [Inside(call, c.ph), Idle], c.m, done)
  }

  /** The heap of the scene is the one that the history leads to. */
  ghost predicate Backed(h: Heap, c: Scene, done: seq<Finished>) {
    Inv(h) && LegalRun(h, Ops(done)) && ResultsOk(h, done) && Run(h, Ops(done)) == c.pre && Inv(c.pre) &&
    |h.blocks| > 0 && |c.m| == |c.pre.mem|
  }

  /** What is played in a scene happens in the system. */
  lemma SceneIsStep(h: Heap, call: Op, c: Scene, act: Act, done: seq<Finished>) returns (ev: Event, more: seq<Finished>)
    requires Backed(h, c, done) && Playable(c, act)
    ensures Step(h, Pair(call, c, done), ev, Pair(call, Play(c, act), more)) && Backed(h, Play(c, act), more)
    ensures c.pre.blocks == Play(c, act).pre.blocks
  {
    hide Inv, LegalRun, Run, ResultsOk, Ops, Splice, Move, MoveMem, Runnable;
    var s := Pair(call, c, done);
    match act
    case Go =>
      GoPlays(c);
      ev, more := Advance(0), done;
      assert s.cpus[0 := s.cpus[0].(phase := Move(c.m, c.ph))] == [Inside(call, Move(c.m, c.ph)), Idle];
    case Put(at, data) =>
      ev, more := ClientWrite(1, at, data), done + [Finished(Write(at, data), 0)];
      ApplyInv(c.pre, Write(at, data));
      Finish(h, done, Write(at, data), 0);
  }

  /** States visited by a run in which clients write as they like. */
  ghost predicate AnyTrace(h: Heap, states: seq<System>, events: seq<Event>) {
    |states| == |events| + 1 && forall i :: 0 <= i < |events| ==> Step(h, states[i], events[i], states[i + 1])
  }

  lemma TraceCons(h: Heap, s: System, ev: Event, states: seq<System>, events: seq<Event>)
    requires AnyTrace(h, states, events) && Step(h, s, ev, states[0])
    ensures AnyTrace(h, [s] + states, [ev] + events)
  {
    hide Step;
    var ss, es := [s] + states, [ev] + events;
    forall i | 0 <= i < |es| ensures Step(h, ss[i], es[i], ss[i + 1]) {
      if i > 0 {
        assert ss[i] == states[i - 1] && ss[i + 1] == states[i - 1 + 1] && es[i] == events[i - 1];
      }
    }
  }

  lemma {:induction false} SceneIsTrace(h: Heap, call: Op, c: Scene, acts: seq<Act>, done: seq<Finished>)
    returns (states: seq<System>, events: seq<Event>, more: seq<Finished>)
    requires Backed(h, c, done) && Plays(c, acts)
    ensures AnyTrace(h, states, events) && states[0] == Pair(call, c, done)
    ensures LegalRun(h, Ops(more)) && Run(h, Ops(more)).blocks == c.pre.blocks
    ensures states[|states| - 1] == Pair(call, Played(c, acts), more)
    decreases |acts|
  {
    hide Step, Playable, Play, Ops;
    if |acts| == 0 {
      states, events, more := [Pair(call, c, done)], [], done;
    } else {
      var ev, next := SceneIsStep(h, call, c, acts[0], done);
      states, events, more := SceneIsTrace(h, call, Play(c, acts[0]), acts[1..], next);
      TraceCons(h, Pair(call, c, done), ev, states, events);
      states, events := [Pair(call, c, done)] + states, [ev] + events;
    }
  }

  /** Without calm, mutual exclusion does not protect the buffers: nine calls after heap_init, on any blank region, one
      processor releases a block while a client writes what forges nothing into its own buffer, and the processor comes
      to store into that buffer. */
  lemma UncalmRun(m: seq<byte>, bottom: int) returns (h: Heap, states: seq<System>, events: seq<Event>)
    requires 0 < bottom && bottom + 1000 <= |m| <= ADDRESS_LIMIT && Blank(m, bottom)
    ensures Inv(InitHeap(m, bottom)) && LegalRun(InitHeap(m, bottom), TrapCalls(bottom))
    ensures h == Run(InitHeap(m, bottom), TrapCalls(bottom)) && Inv(h) && AnyTrace(h, states, events)
    ensures states[0] == System(1, [Inside(Free(bottom + 260), Check(bottom + 260)), Idle], h.mem, [])
    ensures var last := states[|states| - 1];
      |last.cpus| == 2 && last.cpus[0].Inside? && LegalRun(h, Ops(last.done)) &&
      !Harmless(Run(h, Ops(last.done)).blocks, last.cpus[0].phase)
  {
    hide Plays, Played, Harmless, Tearable, AnyTrace, TrapCalls, InitHeap, IsCall;
    var acts := TornAfterNineCalls(m, bottom);
    h := Run(InitHeap(m, bottom), TrapCalls(bottom));
    var call := Free(bottom + 260);
    NothingDone(h);
    var more;
    states, events, more := SceneIsTrace(h, call, Opening(h, call), acts, []);
  }

  lemma NothingDone(h: Heap)
    requires Inv(h)
    ensures Ops([]) == [] && LegalRun(h, Ops([])) && ResultsOk(h, []) && Run(h, Ops([])) == h && |h.blocks| > 0
  {
  }
}
