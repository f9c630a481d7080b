/** The overwrite-oldest byte queue behind the keyboard and the serial port. */
module RingBuffer {
  import opened Bytes

  const RINGBUF_FUL: bv8 := 1
  const RINGBUF_OVF: bv8 := 2

  /** The bytes waiting to be read, oldest first, and whether one was dropped since the last read. */
  datatype Queue = Queue(pending: seq<byte>, lost: bool)

  function Push(q: Queue, size: int, b: byte): (r: Queue)
    requires 0 < size && |q.pending| <= size
    ensures |r.pending| <= size
  {
    if |q.pending| == size then Queue(q.pending[1..] + [b], true) else q.(pending := q.pending + [b])
  }

  function Pop(q: Queue): (r: Queue)
    requires |q.pending| > 0
  {
    Queue(q.pending[1..], false)
  }

  /** Position i places after r in a ring of the given size. */
  function Slot(r: int, i: int, size: int): (s: int)
    requires 0 <= r < size && 0 <= i <= size
    ensures 0 <= s < size
  {
    if r + i < size then r + i else r + i - size
  }

  /** ++p, back to 0 at the end of the ring. */
  function Advance(p: int, size: int): (q: int)
    requires 0 <= p < size
    ensures 0 <= q < size
  {
    if p + 1 == size then 0 else p + 1
  }

  lemma SlotStep(r: int, n: int, size: int)
    requires 0 <= r < size && 0 <= n < size
    ensures Slot(r, n + 1, size) == Advance(Slot(r, n, size), size)
    ensures Slot(r, n + 1, size) == Slot(Advance(r, size), n, size)
  {
  }

  /** The two pointers meet when nothing waits and when the ring is full, and only then. */
  lemma SlotMeets(r: int, n: int, size: int)
    requires 0 <= r < size && 0 <= n <= size
    ensures Slot(r, n, size) == r <==> n == 0 || n == size
  {
  }

  /** The pending bytes lie in the ring one after another, starting at r. */
  ghost predicate Holds(ring: seq<byte>, r: int, pending: seq<byte>) {
    0 <= r < |ring| && |pending| <= |ring| && forall i :: 0 <= i < |pending| ==> pending[i] == ring[Slot(r, i, |ring|)]
  }

  lemma HoldsPush(ring: seq<byte>, r: int, pending: seq<byte>, b: byte)
    requires Holds(ring, r, pending) && |pending| < |ring|
    ensures Holds(ring[Slot(r, |pending|, |ring|) := b], r, pending + [b])
  {
  }

  lemma HoldsPop(ring: seq<byte>, r: int, pending: seq<byte>)
    requires Holds(ring, r, pending) && |pending| > 0
    ensures Holds(ring, Advance(r, |ring|), pending[1..]) && pending[0] == ring[r]
  {
    forall i | 0 <= i < |pending| - 1 ensures pending[1..][i] == ring[Slot(Advance(r, |ring|), i, |ring|)] {
      assert pending[i + 1] == ring[Slot(r, i + 1, |ring|)];
    }
  }

  predicate HasFlag(s: bv8, flag: bv8) {
    s & flag != 0
  }

  function WithFlag(s: bv8, flag: bv8): bv8 {
    s | flag
  }

  /** The two status bits are set independently of each other. */
  lemma FlagBits(s: bv8)
    ensures HasFlag(WithFlag(s, RINGBUF_OVF), RINGBUF_FUL) == HasFlag(s, RINGBUF_FUL)
    ensures HasFlag(WithFlag(s, RINGBUF_FUL), RINGBUF_OVF) == HasFlag(s, RINGBUF_OVF)
    ensures HasFlag(WithFlag(s, RINGBUF_OVF), RINGBUF_OVF) && HasFlag(WithFlag(s, RINGBUF_FUL), RINGBUF_FUL)
  {
  }

  class RingBuf {
    const buffer: array<byte>
    var writeptr: int
    var readptr: int
    var status: bv8
    ghost var queue: Queue

    ghost predicate Valid()
      reads this, buffer
    {
      0 < buffer.Length && 0 <= readptr < buffer.Length && |queue.pending| <= buffer.Length &&
      writeptr == Slot(readptr, |queue.pending|, buffer.Length) &&
      Holds(buffer[..], readptr, queue.pending) &&
      (HasFlag(status, RINGBUF_FUL) <==> |queue.pending| == buffer.Length) &&
      (HasFlag(status, RINGBUF_OVF) <==> queue.lost)
    }

    /** ringbuf_alloc, which leaves the status as it finds it in memory: the buffer is a proper empty one exactly when
        neither flag happens to be set there. */
    constructor (buffer: array<byte>, unset: bv8)
      requires buffer.Length > 0
      ensures this.buffer == buffer && queue == Queue([], false)
      ensures Valid() <==> !HasFlag(unset, RINGBUF_FUL) && !HasFlag(unset, RINGBUF_OVF)
    {
      this.buffer := buffer;
      writeptr, readptr, status := 0, 0, unset;
      queue := Queue([], false);
    }

    method Write(b: byte)
      requires Valid()
      modifies this, buffer
      ensures Valid() && queue == Push(old(queue), buffer.Length, b)
    {
      hide Holds, Slot, HasFlag, WithFlag;
      FlagBits(status);
      FlagBits(WithFlag(status, RINGBUF_OVF));
      ghost var ring, kept := buffer[..], queue.pending;
      SlotMeets(readptr, |kept|, buffer.Length);
      if writeptr == readptr && HasFlag(status, RINGBUF_FUL) {
        status := WithFlag(status, RINGBUF_OVF);
        HoldsPop(ring, readptr, kept);
        SlotStep(readptr, |kept| - 1, buffer.Length);
        readptr := Advance(readptr, buffer.Length);
        kept := kept[1..];
      }
      HoldsPush(ring, readptr, kept, b);
      SlotStep(readptr, |kept|, buffer.Length);
      SlotMeets(readptr, |kept| + 1, buffer.Length);
      buffer[writeptr] := b;
      assert buffer[..] == ring[writeptr := b];
      writeptr := Advance(writeptr, buffer.Length);
      if writeptr == readptr {
        status := WithFlag(status, RINGBUF_FUL);
      }
      queue := Push(queue, buffer.Length, b);
    }

    method TestOverflow() returns (overflow: bool)
      requires Valid()
      ensures (overflow <==> queue.lost) && (overflow <==> status & 2 != 0)
    {
      return HasFlag(status, RINGBUF_OVF);
    }

    method TestReady() returns (ready: bool)
      requires Valid()
      ensures (ready <==> |queue.pending| > 0) && (ready <==> readptr != writeptr || status & 1 != 0)
    {
      SlotMeets(readptr, |queue.pending|, buffer.Length);
      return writeptr != readptr || HasFlag(status, RINGBUF_FUL);
    }

    /** Readers ask TestReady first. */
    method Read() returns (b: byte)
      requires Valid() && |queue.pending| > 0
      modifies this
      ensures Valid() && b == old(queue).pending[0] && queue == Pop(old(queue))
    {
      hide Holds, Slot;
      HoldsPop(buffer[..], readptr, queue.pending);
      SlotStep(readptr, |queue.pending| - 1, buffer.Length);
      b := buffer[readptr];
      readptr := Advance(readptr, buffer.Length);
      status := 0;
      queue := Pop(queue);
    }

    /** Any sequence of writes and of reads for which something waits. */
    method Perform(es: seq<Event>) returns (read: seq<byte>)
      requires Valid() && queue == Queue([], false) && Legal(buffer.Length, es)
      modifies this, buffer
      ensures Valid() && queue == After(buffer.Length, es) && read == Outputs(buffer.Length, es)
    {
      hide Holds, Slot, HasFlag, Push, Pop;
      read := [];
      var k := 0;
      Prefixes(buffer.Length, es, 0);
      while k < |es|
        invariant 0 <= k <= |es| && Valid() && Legal(buffer.Length, es[..k])
        invariant queue == After(buffer.Length, es[..k]) && read == Outputs(buffer.Length, es[..k])
      {
        Prefixes(buffer.Length, es, k + 1);
        assert es[..k + 1][..k] == es[..k];
        match es[k] {
          case Wrote(b) =>
            Write(b);
          case Read =>
            var b := Read();
            read := read + [b];
        }
        k := k + 1;
      }
      assert es[..k] == es;
    }
  }

  // ----- Histories

  datatype Event = Wrote(b: byte) | Read

  /** Reads happen only when something is waiting. */
  predicate Legal(size: int, es: seq<Event>)
    requires 0 < size
    decreases |es|, 0
  {
    |es| == 0 ||
    (Legal(size, es[..|es| - 1]) && (es[|es| - 1].Read? ==> |After(size, es[..|es| - 1]).pending| > 0))
  }

  lemma {:induction false} Prefixes(size: int, es: seq<Event>, k: int)
    requires 0 < size && Legal(size, es) && 0 <= k <= |es|
    ensures Legal(size, es[..k])
    decreases |es|
  {
    if k < |es| {
      assert es[..|es| - 1][..k] == es[..k];
      Prefixes(size, es[..|es| - 1], k);
    } else {
      assert es[..k] == es;
    }
  }

  function After(size: int, es: seq<Event>): (q: Queue)
    requires 0 < size && Legal(size, es)
    ensures |q.pending| <= size
    decreases |es|, 1
  {
    if |es| == 0 then Queue([], false)
    else
      var q := After(size, es[..|es| - 1]);
      match es[|es| - 1]
      case Wrote(b) => Push(q, size, b)
      case Read => Pop(q)
  }

  /** All bytes ever written. */
  function Written(es: seq<Event>): seq<byte> {
    if |es| == 0 then []
    else Written(es[..|es| - 1]) + (if es[|es| - 1].Wrote? then [es[|es| - 1].b] else [])
  }

  /** All bytes ever read. */
  function Outputs(size: int, es: seq<Event>): seq<byte>
    requires 0 < size && Legal(size, es)
  {
    if |es| == 0 then []
    else
      var before := es[..|es| - 1];
      Outputs(size, before) + (if es[|es| - 1].Read? then [After(size, before).pending[0]] else [])
  }

  /** How many writes found the buffer full, ever, and since the last read. */
  function Dropped(size: int, es: seq<Event>): (n: nat)
    requires 0 < size && Legal(size, es)
  {
    if |es| == 0 then 0
    else
      var before := es[..|es| - 1];
      Dropped(size, before) + (if es[|es| - 1].Wrote? && |After(size, before).pending| == size then 1 else 0)
  }

  function DroppedLately(size: int, es: seq<Event>): (n: nat)
    requires 0 < size && Legal(size, es)
  {
    if |es| == 0 || es[|es| - 1].Read? then 0
    else
      var before := es[..|es| - 1];
      DroppedLately(size, before) + (if |After(size, before).pending| == size then 1 else 0)
  }

  predicate IsSuffix(p: seq<byte>, w: seq<byte>) {
    |p| <= |w| && p == w[|w| - |p|..]
  }

  lemma PushSuffix(q: Queue, size: int, b: byte, w: seq<byte>)
    requires 0 < size && |q.pending| <= size && IsSuffix(q.pending, w)
    ensures IsSuffix(Push(q, size, b).pending, w + [b])
  {
    var p := q.pending;
    assert p + [b] == (w + [b])[|w| - |p|..];
    assert |p| == size ==> p[1..] + [b] == (w + [b])[|w| - |p| + 1..];
  }

  lemma PopSuffix(q: Queue, w: seq<byte>)
    requires |q.pending| > 0 && IsSuffix(q.pending, w)
    ensures IsSuffix(Pop(q).pending, w)
  {
  }

  /** What waits is always the last bytes written. */
  lemma {:induction false} LastWritten(size: int, es: seq<Event>)
    requires 0 < size && Legal(size, es)
    ensures IsSuffix(After(size, es).pending, Written(es))
    decreases |es|
  {
    hide IsSuffix, Push, Pop;
    if |es| == 0 {
      NothingYet(size);
    } else {
      var before := es[..|es| - 1];
      LastWritten(size, before);
      match es[|es| - 1]
      case Wrote(b) =>
        PushSuffix(After(size, before), size, b, Written(before));
      case Read =>
        PopSuffix(After(size, before), Written(before));
        assert Written(before) + [] == Written(before);
    }
  }

  lemma NothingYet(size: int)
    requires 0 < size
    ensures IsSuffix(After(size, []).pending, Written([]))
  {
  }

  /** Every byte written was read, was dropped or still waits. */
  lemma {:induction false} Accounted(size: int, es: seq<Event>)
    requires 0 < size && Legal(size, es)
    ensures |Written(es)| == |Outputs(size, es)| + Dropped(size, es) + |After(size, es).pending|
    decreases |es|
  {
    if |es| > 0 {
      Accounted(size, es[..|es| - 1]);
    }
  }

  /** The overflow flag tells exactly whether a byte was dropped since the last read. */
  lemma {:induction false} LossKnown(size: int, es: seq<Event>)
    requires 0 < size && Legal(size, es)
    ensures After(size, es).lost <==> DroppedLately(size, es) > 0
    decreases |es|
  {
    if |es| > 0 {
      LossKnown(size, es[..|es| - 1]);
    }
  }

  /** What holds after every history. */
  lemma History(size: int, es: seq<Event>)
    requires 0 < size && Legal(size, es)
    ensures var q, w := After(size, es), Written(es);
      && |w| == |Outputs(size, es)| + Dropped(size, es) + |q.pending|
      && q.pending == w[|w| - |q.pending|..]
      && (q.lost <==> DroppedLately(size, es) > 0)
  {
    hide After, Written, Outputs, Dropped, DroppedLately;
    LastWritten(size, es);
    Accounted(size, es);
    LossKnown(size, es);
  }

  /** As long as nothing has been dropped, what was read followed by what waits is what was written. */
  lemma {:induction false} LosslessFifo(size: int, es: seq<Event>)
    requires 0 < size && Legal(size, es) && Dropped(size, es) == 0
    ensures Outputs(size, es) + After(size, es).pending == Written(es)
    decreases |es|
  {
    if |es| > 0 {
      var before := es[..|es| - 1];
      LosslessFifo(size, before);
      var o, p := Outputs(size, before), After(size, before).pending;
      match es[|es| - 1]
      case Wrote(b) =>
        assert o + (p + [b]) == (o + p) + [b];
      case Read =>
        assert (o + [p[0]]) + p[1..] == o + p;
    }
  }
}
