/** irq_handler as producer and device_read as consumer, as a value model of their histories. */
module IrDriverModel {
  import opened Bytes
  import opened MsgQueue

  /** The handler keeps the low two bytes of the register. */
  function Split(raw: nat): Msg {
    Msg(raw % 256, raw / 256 % 256)
  }

  /** What the user program makes of two buffer bytes: a little-endian short masked with 0xfff. */
  function Recombine(low: byte, high: byte): nat {
    var lo: int, hi: int := low, high;
    (hi * 256 + lo) % 4096
  }

  lemma DropMultiple(x: nat, c: nat)
    ensures (65536 * c + x) % 4096 == x % 4096
  {
  }

  lemma RecombineSplit(raw: nat)
    ensures Recombine(Split(raw).low, Split(raw).high) == raw % 4096
  {
    var a, b, c := raw % 256, raw / 256 % 256, raw / 65536;
    assert raw == 65536 * c + (b * 256 + a);
    DropMultiple(b * 256 + a, c);
  }

  datatype Event = Interrupt(raw: nat) | Read(length: nat)

  /** accepted, taken, dropped: histories; queue: what waits; out: the messages handed to the reader. */
  datatype Driver = Driver(queue: seq<Msg>, accepted: seq<nat>, taken: seq<Msg>, out: seq<Msg>, dropped: nat)

  const OPENED := Driver([], [], [], [], 0)

  /** What a reader gets for messages taken as numbers first, first + 1, ...: each capacity-th is not its own. */
  function Delivered(msgs: seq<Msg>, first: nat, capacity: nat, beyond: nat -> Msg): (r: seq<Msg>)
    requires capacity > 0
    ensures |r| == |msgs|
  {
    seq(|msgs|, j requires 0 <= j < |msgs| =>
      if !ReadsPast(first + j, capacity) then msgs[j] else beyond(first + j))
  }

  function Handle(capacity: nat, beyond: nat -> Msg, d: Driver, e: Event): Driver
    requires capacity > 0
  {
    match e
    case Interrupt(raw) =>
      if |d.queue| == capacity then d.(dropped := d.dropped + 1)
      else d.(queue := d.queue + [Split(raw)], accepted := d.accepted + [raw])
    case Read(length) =>
      var k := Min(length, |d.queue|);
      d.(queue := d.queue[k..], taken := d.taken + d.queue[..k],
         out := d.out + Delivered(d.queue[..k], |d.taken|, capacity, beyond))
  }

  function HandleAll(capacity: nat, beyond: nat -> Msg, events: seq<Event>): Driver
    requires capacity > 0
  {
    if events == [] then OPENED
    else var n := |events| - 1; Handle(capacity, beyond, HandleAll(capacity, beyond, events[..n]), events[n])
  }

  function SplitAll(raws: seq<nat>): (r: seq<Msg>)
    ensures |r| == |raws|
  {
    seq(|raws|, i requires 0 <= i < |raws| => Split(raws[i]))
  }

  function Interrupts(events: seq<Event>): nat {
    if events == [] then 0
    else var n := |events| - 1; Interrupts(events[..n]) + if events[n].Interrupt? then 1 else 0
  }

  lemma DeliveredAppend(a: seq<Msg>, b: seq<Msg>, capacity: nat, beyond: nat -> Msg)
    requires capacity > 0
    ensures Delivered(a + b, 0, capacity, beyond)
            == Delivered(a, 0, capacity, beyond) + Delivered(b, |a|, capacity, beyond)
  {
    var l, m := Delivered(a + b, 0, capacity, beyond), Delivered(b, |a|, capacity, beyond);
    forall j | 0 <= j < |b| ensures l[|a| + j] == m[j] {
      assert 0 + (|a| + j) == |a| + j;
    }
  }

  /** Accepted frames = frames taken, in order, followed by the queue; the reader has the taken ones except each
      capacity-th. */
  ghost predicate Conserved(capacity: nat, beyond: nat -> Msg, d: Driver)
    requires capacity > 0
  {
    && SplitAll(d.accepted) == d.taken + d.queue
    && |d.queue| <= capacity
    && d.out == Delivered(d.taken, 0, capacity, beyond)
  }

  lemma InterruptConserves(capacity: nat, beyond: nat -> Msg, d: Driver, raw: nat)
    requires capacity > 0 && Conserved(capacity, beyond, d)
    ensures Conserved(capacity, beyond, Handle(capacity, beyond, d, Interrupt(raw)))
  {
    assert SplitAll(d.accepted + [raw]) == SplitAll(d.accepted) + [Split(raw)];
    assert d.taken + d.queue + [Split(raw)] == d.taken + (d.queue + [Split(raw)]);
  }

  lemma ReadConserves(capacity: nat, beyond: nat -> Msg, d: Driver, length: nat)
    requires capacity > 0 && Conserved(capacity, beyond, d)
    ensures Conserved(capacity, beyond, Handle(capacity, beyond, d, Read(length)))
  {
    var k := Min(length, |d.queue|);
    DeliveredAppend(d.taken, d.queue[..k], capacity, beyond);
    assert d.queue == d.queue[..k] + d.queue[k..];
    assert d.taken + d.queue == (d.taken + d.queue[..k]) + d.queue[k..];
  }

  /** Over every interleaving of interrupts and reads the frames are conserved, and every interrupt was accepted or
      dropped. */
  lemma {:induction false} FramesConserved(capacity: nat, beyond: nat -> Msg, events: seq<Event>)
    requires capacity > 0
    ensures var d := HandleAll(capacity, beyond, events);
            Conserved(capacity, beyond, d) && Interrupts(events) == |d.accepted| + d.dropped
  {
    if events != [] {
      var n := |events| - 1;
      FramesConserved(capacity, beyond, events[..n]);
      var d := HandleAll(capacity, beyond, events[..n]);
      match events[n]
      case Interrupt(raw) => InterruptConserves(capacity, beyond, d, raw);
      case Read(length) => ReadConserves(capacity, beyond, d, length);
    }
  }

  /** The frames the interrupts brought, in order. */
  function Raws(events: seq<Event>): (r: seq<nat>)
    ensures |r| == Interrupts(events)
  {
    if events == [] then []
    else var n := |events| - 1; Raws(events[..n]) + if events[n].Interrupt? then [events[n].raw] else []
  }

  lemma {:induction false} AcceptedWereBrought(capacity: nat, beyond: nat -> Msg, events: seq<Event>, i: nat)
    requires capacity > 0 && i < |HandleAll(capacity, beyond, events).accepted|
    ensures HandleAll(capacity, beyond, events).accepted[i] in Raws(events)
  {
    var n := |events| - 1;
    if i < |HandleAll(capacity, beyond, events[..n]).accepted| {
      AcceptedWereBrought(capacity, beyond, events[..n], i);
    }
  }

  /** The k-th event is an interrupt that finds the queue full. */
  predicate FoundFull(capacity: nat, beyond: nat -> Msg, events: seq<Event>, k: nat)
    requires capacity > 0
  {
    k < |events| && events[k].Interrupt? && |HandleAll(capacity, beyond, events[..k]).queue| == capacity
  }

  lemma FoundFullLater(capacity: nat, beyond: nat -> Msg, events: seq<Event>, k: nat)
    requires capacity > 0 && events != [] && k < |events| - 1
    ensures FoundFull(capacity, beyond, events, k) == FoundFull(capacity, beyond, events[..|events| - 1], k)
  {
    assert events[..|events| - 1][..k] == events[..k];
  }

  /** Over every interleaving all frames are accepted, in order, exactly when no interrupt found the queue full. */
  lemma {:induction false} DroppedOnlyWhenFull(capacity: nat, beyond: nat -> Msg, events: seq<Event>)
    requires capacity > 0
    ensures var d := HandleAll(capacity, beyond, events);
            && (d.accepted == Raws(events) <==> d.dropped == 0)
            && (d.dropped == 0 <==> forall k :: !FoundFull(capacity, beyond, events, k))
  {
    FramesConserved(capacity, beyond, events);
    if events != [] {
      var n := |events| - 1;
      DroppedOnlyWhenFull(capacity, beyond, events[..n]);
      forall k: nat | k < n
        ensures FoundFull(capacity, beyond, events, k) == FoundFull(capacity, beyond, events[..n], k)
      {
        FoundFullLater(capacity, beyond, events, k);
      }
      if k: nat :| FoundFull(capacity, beyond, events[..n], k) {
        assert FoundFull(capacity, beyond, events, k);
      }
      var d := HandleAll(capacity, beyond, events[..n]);
      if Handle(capacity, beyond, d, events[n]).dropped > d.dropped {
        assert FoundFull(capacity, beyond, events, n);
      }
    }
  }

  /** The i-th word the reader recombines is the i-th accepted frame unless (i + 1) is a multiple of the capacity. */
  lemma ReaderGetsAcceptedFrames(capacity: nat, beyond: nat -> Msg, events: seq<Event>, i: nat)
    requires capacity > 0 && i < |HandleAll(capacity, beyond, events).out|
    ensures var d := HandleAll(capacity, beyond, events);
            && i < |d.accepted|
            && if (i + 1) % capacity != 0 then Recombine(d.out[i].low, d.out[i].high) == d.accepted[i] % 4096
               else d.out[i] == beyond(i)
  {
    FramesConserved(capacity, beyond, events);
    var d := HandleAll(capacity, beyond, events);
    assert d.taken[i] == (d.taken + d.queue)[i] == SplitAll(d.accepted)[i];
    RecombineSplit(d.accepted[i]);
    ReadsPastExactly(i, capacity);
  }

  /** The same byte by byte. */
  lemma ReaderGetsSplitFrames(capacity: nat, beyond: nat -> Msg, events: seq<Event>, i: nat)
    requires capacity > 0 && i < |HandleAll(capacity, beyond, events).out| && (i + 1) % capacity != 0
    ensures var d := HandleAll(capacity, beyond, events);
            && i < |d.accepted|
            && d.out[i].low as int == d.accepted[i] % 256 && d.out[i].high as int == d.accepted[i] / 256 % 256
  {
    FramesConserved(capacity, beyond, events);
    var d := HandleAll(capacity, beyond, events);
    assert d.taken[i] == (d.taken + d.queue)[i] == SplitAll(d.accepted)[i];
    ReadsPastExactly(i, capacity);
  }

  /** What the reader was handed is what was taken, whatever lies past the queue. */
  ghost predicate ReadsCorrectly(capacity: nat, events: seq<Event>)
    requires capacity > 0
  {
    forall beyond: nat -> Msg :: HandleAll(capacity, beyond, events).out == HandleAll(capacity, beyond, events).taken
  }

  /** Only `out` depends on the memory past the queue. */
  lemma {:induction false} QueueIgnoresBeyond(capacity: nat, b: nat -> Msg, c: nat -> Msg, events: seq<Event>)
    requires capacity > 0
    ensures var d, e := HandleAll(capacity, b, events), HandleAll(capacity, c, events);
            d.queue == e.queue && d.taken == e.taken && d.accepted == e.accepted && d.dropped == e.dropped
  {
    if events != [] {
      QueueIgnoresBeyond(capacity, b, c, events[..|events| - 1]);
    }
  }

  function Constant(m: Msg): nat -> Msg {
    (_: nat) => m
  }

  lemma FewReadsAreCorrect(capacity: nat, b: nat -> Msg, events: seq<Event>)
    requires capacity > 0 && |HandleAll(capacity, b, events).taken| < capacity
    ensures HandleAll(capacity, b, events).out == HandleAll(capacity, b, events).taken
  {
    FramesConserved(capacity, b, events);
    forall j: nat | j < capacity - 1 ensures !ReadsPast(j, capacity) {
      ReadsPastExactly(j, capacity);
      ModUnique(j + 1, capacity, 0, j + 1);
    }
  }

  /** The message in the capacity-th place is whatever lies past the queue. */
  lemma LaterReadIsForeign(capacity: nat, b: nat -> Msg, events: seq<Event>)
    requires capacity > 0 && |HandleAll(capacity, b, events).taken| >= capacity
    ensures var d := HandleAll(capacity, b, events);
            |d.out| == |d.taken| && d.out[capacity - 1] == b(capacity - 1)
  {
    FramesConserved(capacity, b, events);
    ModUnique(capacity, capacity, 1, 0);
    ReadsPastExactly(capacity - 1, capacity);
  }

  /** The missing wrap at msg_queue.h:115 shows exactly when as many messages as the capacity have been read. */
  lemma ReadsCorrectlyExactly(capacity: nat, beyond: nat -> Msg, events: seq<Event>)
    requires capacity > 0
    ensures ReadsCorrectly(capacity, events) <==> |HandleAll(capacity, beyond, events).taken| < capacity
  {
    var taken := HandleAll(capacity, beyond, events).taken;
    if |taken| < capacity {
      forall b: nat -> Msg ensures HandleAll(capacity, b, events).out == HandleAll(capacity, b, events).taken {
        QueueIgnoresBeyond(capacity, b, beyond, events);
        FewReadsAreCorrect(capacity, b, events);
      }
    } else {
      var b := Constant(if taken[capacity - 1].low == 0 then Msg(1, 0) else Msg(0, 0));
      QueueIgnoresBeyond(capacity, b, beyond, events);
      LaterReadIsForeign(capacity, b, events);
    }
  }
}

/** The character device: its interrupt handler and read entry point over the shared queue. */
module IrDriver {
  import opened Bytes
  import opened MsgQueue
  import opened IrDriverModel

  /** The user buffer: low byte first. */
  function BytesOf(msgs: seq<Msg>): (r: seq<byte>)
    ensures |r| == 2 * |msgs|
  {
    if msgs == [] then []
    else var n := |msgs| - 1; BytesOf(msgs[..n]) + [msgs[n].low, msgs[n].high]
  }

  lemma {:induction false} BytesOfAppend(a: seq<Msg>, b: seq<Msg>)
    ensures BytesOf(a + b) == BytesOf(a) + BytesOf(b)
  {
    if b == [] {
      assert a + b == a;
    } else {
      var n := |b| - 1;
      assert (a + b)[..|a| + n] == a + b[..n];
      BytesOfAppend(a, b[..n]);
    }
  }

  lemma {:induction false} BytesOfAt(msgs: seq<Msg>, i: nat)
    requires i < |msgs|
    ensures BytesOf(msgs)[2 * i] == msgs[i].low && BytesOf(msgs)[2 * i + 1] == msgs[i].high
  {
    if i < |msgs| - 1 {
      BytesOfAt(msgs[..|msgs| - 1], i);
    }
  }

  /** Bytes 2i and 2i+1 of the reader's buffer are the low and the high byte of the i-th accepted frame, and the user
      program makes that frame of them; or they are foreign memory, at each capacity-th place. */
  predicate WordArrives(capacity: nat, beyond: nat -> Msg, d: Driver, i: nat)
    requires capacity > 0 && i < |d.out|
  {
    var low, high := BytesOf(d.out)[2 * i], BytesOf(d.out)[2 * i + 1];
    && i < |d.accepted|
    && if (i + 1) % capacity != 0
       then low as int == d.accepted[i] % 256 && high as int == d.accepted[i] / 256
            && Recombine(low, high) == d.accepted[i]
       else Msg(low, high) == beyond(i)
  }

  lemma AcceptedFrameArrives(capacity: nat, beyond: nat -> Msg, events: seq<Event>, i: nat)
    requires capacity > 0 && i < |HandleAll(capacity, beyond, events).out|
    requires forall raw :: raw in Raws(events) ==> raw < 4096
    ensures WordArrives(capacity, beyond, HandleAll(capacity, beyond, events), i)
  {
    ReaderGetsAcceptedFrames(capacity, beyond, events, i);
    AcceptedWereBrought(capacity, beyond, events, i);
    if (i + 1) % capacity != 0 {
      ReaderGetsSplitFrames(capacity, beyond, events, i);
    }
    BytesOfAt(HandleAll(capacity, beyond, events).out, i);
  }

  class CharDevice {
    const queue: Queue
    var interruptCounter: nat

    ghost predicate Valid()
      reads this, queue
    {
      queue.Valid() && queue.capacity == queue.msgs.Length > 0
    }

    /** The heap agrees with a value of the model. */
    ghost predicate Models(d: Driver)
      reads this, queue, queue.msgs
    {
      Valid() && queue.Contents() == d.queue && queue.taken == |d.taken|
    }

    /** device_open makes a queue whose capacity is the array's length, 100; any positive length behaves alike. */
    constructor (capacity: nat)
      requires capacity > 0
      ensures Models(OPENED) && queue.capacity == capacity && interruptCounter == 0
      ensures fresh(queue) && fresh(queue.msgs)
    {
      queue := new Queue(capacity, capacity);
      interruptCounter := 0;
    }

    /** Reads slv_reg0, splits it and enqueues it; a full queue drops it silently. */
    method IrqHandler(raw: nat, ghost d: Driver, ghost beyond: nat -> Msg)
      requires Models(d)
      modifies this, queue, queue.msgs
      ensures Models(Handle(queue.capacity, beyond, d, Interrupt(raw)))
      ensures interruptCounter == old(interruptCounter) + 1
      ensures queue.Contents() == old(queue.Contents())
                + if |old(queue.Contents())| == queue.capacity then [] else [Split(raw)]
    {
      interruptCounter := interruptCounter + 1;
      var r := queue.Enqueue(Msg(raw % 256, raw / 256 % 256));
    }

    /** Dequeues up to `length` messages, two bytes each, into the user buffer: the bytes stay within `length` exactly
        when nothing was asked for or it is at least twice the messages waiting. memory(k) is what lies past the array
        at pass k. */
    method DeviceRead(length: nat, memory: nat -> Msg, ghost d: Driver, ghost beyond: nat -> Msg)
      returns (buffer: seq<byte>, messages: nat)
      requires Models(d) && forall k: nat :: memory(k) == beyond(|d.taken| + k)
      modifies queue
      ensures Models(Handle(queue.capacity, beyond, d, Read(length)))
      ensures messages == Min(length, |d.queue|)
      ensures buffer == BytesOf(Delivered(d.queue[..messages], |d.taken|, queue.capacity, beyond))
      ensures |buffer| <= length <==> length == 0 || 2 * |d.queue| <= length
    {
      buffer, messages := [], 0;
      while messages < length
        invariant messages <= length && ReadSoFar(d, messages, buffer, beyond)
      {
        var more, pair := ReadOne(memory(messages), d, messages, buffer, beyond);
        if !more {
          break;
        }
        buffer, messages := buffer + pair, messages + 1;
      }
    }

    /** k messages of the queue d.queue have gone to the buffer. */
    ghost predicate ReadSoFar(d: Driver, k: nat, buffer: seq<byte>, beyond: nat -> Msg)
      reads this, queue, queue.msgs
    {
      && Valid() && k <= |d.queue| && queue.Contents() == d.queue[k..] && queue.taken == |d.taken| + k
      && buffer == BytesOf(Delivered(d.queue[..k], |d.taken|, queue.capacity, beyond))
    }

    /** One pass of the read loop: a dequeued message becomes two bytes, low first. */
    method ReadOne(past: Msg, ghost d: Driver, ghost k: nat, ghost buffer: seq<byte>, ghost beyond: nat -> Msg)
      returns (more: bool, pair: seq<byte>)
      requires ReadSoFar(d, k, buffer, beyond) && past == beyond(|d.taken| + k)
      modifies queue
      ensures if more then ReadSoFar(d, k + 1, buffer + pair, beyond)
              else k == |d.queue| && ReadSoFar(d, k, buffer, beyond)
    {
      var r, m := queue.Dequeue(past);
      more, pair := r >= 0, [m.low, m.high];
      if more {
        DeliveredOne(d.queue, k, |d.taken|, queue.capacity, beyond, m);
      }
    }

    /** One interrupt or one read call; `total` messages have been read before. */
    method HandleEvent(e: Event, total: nat, beyond: nat -> Msg, ghost d: Driver) returns (buffer: seq<byte>)
      requires Models(d) && total == |d.taken|
      modifies this, queue, queue.msgs
      ensures Models(Handle(queue.capacity, beyond, d, e))
      ensures BytesOf(Handle(queue.capacity, beyond, d, e).out) == BytesOf(d.out) + buffer
    {
      match e
      case Interrupt(raw) =>
        IrqHandler(raw, d, beyond);
        buffer := [];
        assert BytesOf(d.out) + [] == BytesOf(d.out);
      case Read(length) =>
        var messages;
        buffer, messages := DeviceRead(length, (k: nat) => beyond(total + k), d, beyond);
        BytesOfAppend(d.out, Delivered(d.queue[..messages], |d.taken|, queue.capacity, beyond));
    }

    /** Any interleaving of interrupts and reads. */
    method Serve(events: seq<Event>, beyond: nat -> Msg) returns (bytes: seq<byte>)
      requires Models(OPENED)
      modifies this, queue, queue.msgs
      ensures Models(HandleAll(queue.capacity, beyond, events))
      ensures bytes == BytesOf(HandleAll(queue.capacity, beyond, events).out)
    {
      bytes := [];
      for n := 0 to |events|
        invariant Models(HandleAll(queue.capacity, beyond, events[..n]))
        invariant bytes == BytesOf(HandleAll(queue.capacity, beyond, events[..n]).out)
      {
        ghost var d := HandleAll(queue.capacity, beyond, events[..n]);
        FramesConserved(queue.capacity, beyond, events[..n]);
        assert events[..n + 1][..n] == events[..n];
        var buffer := HandleEvent(events[n], |bytes| / 2, beyond, d);
        bytes := bytes + buffer;
      }
      assert events[..|events|] == events;
    }
  }

  /** One more message taken appends one more pair of bytes. */
  lemma DeliveredOne(all: seq<Msg>, k: nat, first: nat, capacity: nat, beyond: nat -> Msg, m: Msg)
    requires k < |all| && capacity > 0
    requires m == if !ReadsPast(first + k, capacity) then all[k] else beyond(first + k)
    ensures BytesOf(Delivered(all[..k + 1], first, capacity, beyond))
            == BytesOf(Delivered(all[..k], first, capacity, beyond)) + [m.low, m.high]
  {
    var longer := Delivered(all[..k + 1], first, capacity, beyond);
    var shorter := Delivered(all[..k], first, capacity, beyond);
    assert longer[..k] == shorter && longer[k] == m;
  }
}
