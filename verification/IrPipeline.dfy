/** From the infrared signal to the reader: demodulator, interrupt line, bus, handler, queue and read calls together. */
module IrPipeline {
  import opened Bytes
  import opened IrDecode
  import opened IrDevice
  import opened IrHandler
  import opened IrPeripheral
  import opened MsgQueue
  import opened IrDriverModel
  import opened IrDriver

  /** A word arrives on the signal, the signal pauses, or the reader reads. An interrupt still waiting from the word
      before is served during the word or the pause, at the clocks the timing says. */
  datatype Action =
    | Receive(word: nat, pulses: seq<Pulse>, timing: Timing)
    | Pause(clocks: nat, timing: Timing)
    | UserRead(length: nat)

  datatype System = System(device: Device, driver: Driver)

  /** Words are rendered inside the windows; the handler is done before the next word is published, or in the pause. */
  predicate WellTimed(a: Action) {
    match a
    case Receive(word, pulses, timing) =>
      word < 4096 && RendersAll(pulses, FrameOf(word)) && InTime(timing, Wave(pulses))
    case Pause(clocks, timing) => Ordered(timing, |Level(clocks, true)|)
    case UserRead(_) => true
  }

  predicate AllWellTimed(actions: seq<Action>) {
    forall k :: 0 <= k < |actions| ==> WellTimed(actions[k])
  }

  function RegisterValue(r: Option<nat>): nat {
    if r.Some? then r.value else 0
  }

  /** A stretch of signal, in which the handler serves the interrupt that is waiting, if one is. */
  function During(capacity: nat, beyond: nat -> Msg, s: System, t: Timing, wave: seq<bool>): System
    requires capacity > 0
  {
    if !s.device.irq then System(Run(s.device, true, QuietWave(wave)), s.driver)
    else
      System(Run(s.device, true, HandlerInputs(t, wave)),
             Handle(capacity, beyond, s.driver, Interrupt(RegisterValue(DataRead(s.device, t, wave)))))
  }

  function StretchOf(a: Action): seq<bool>
    requires !a.UserRead?
  {
    match a
    case Receive(_, pulses, _) => Wave(pulses)
    case Pause(clocks, _) => Level(clocks, true)
  }

  function Act(capacity: nat, beyond: nat -> Msg, s: System, a: Action): System
    requires capacity > 0
  {
    match a
    case Receive(_, pulses, timing) => During(capacity, beyond, s, timing, Wave(pulses))
    case Pause(clocks, timing) => During(capacity, beyond, s, timing, Level(clocks, true))
    case UserRead(length) => System(s.device, Handle(capacity, beyond, s.driver, Read(length)))
  }

  function ActAll(capacity: nat, beyond: nat -> Msg, device: Device, actions: seq<Action>): System
    requires capacity > 0
  {
    if actions == [] then System(device, OPENED)
    else var n := |actions| - 1; Act(capacity, beyond, ActAll(capacity, beyond, device, actions[..n]), actions[n])
  }

  // ----- the reference: words handed over without device, line and bus

  /** What the driver has seen, the word that waits for the handler, and whether words are heard at all yet. */
  datatype Handed = Handed(events: seq<Event>, waiting: Option<nat>, hears: bool)

  function Flushed(h: Handed): seq<Event> {
    h.events + if h.waiting.Some? then [Interrupt(h.waiting.value)] else []
  }

  function HandOver(h: Handed, a: Action): Handed {
    match a
    case Receive(word, _, _) => Handed(Flushed(h), if h.hears then Some(word) else None, true)
    case Pause(_, _) => Handed(Flushed(h), None, h.hears)
    case UserRead(length) => h.(events := h.events + [Read(length)])
  }

  function HandOverAll(known: bool, actions: seq<Action>): Handed {
    if actions == [] then Handed([], None, known)
    else var n := |actions| - 1; HandOver(HandOverAll(known, actions[..n]), actions[n])
  }

  /** The words put on the signal. */
  function Sent(actions: seq<Action>): seq<nat> {
    if actions == [] then []
    else var n := |actions| - 1; Sent(actions[..n]) + if actions[n].Receive? then [actions[n].word] else []
  }

  /** The words that interrupt: all of them, but for the first one when slv_reg1 is not known at the start. */
  function Heard(known: bool, actions: seq<Action>): seq<nat> {
    if known || Sent(actions) == [] then Sent(actions) else Sent(actions)[1..]
  }

  function Waiting(h: Handed): seq<nat> {
    if h.waiting.Some? then [h.waiting.value] else []
  }

  lemma RawsOneMore(events: seq<Event>, e: Event)
    ensures Raws(events + [e]) == Raws(events) + if e.Interrupt? then [e.raw] else []
  {
    assert (events + [e])[..|events|] == events;
  }

  lemma HandOverBrings(h: Handed, a: Action)
    ensures var g := HandOver(h, a);
            Raws(g.events) + Waiting(g) == Raws(h.events) + Waiting(h) + if a.Receive? && h.hears then [a.word] else []
  {
    if h.waiting.Some? {
      RawsOneMore(h.events, Interrupt(h.waiting.value));
    } else {
      assert h.events + [] == h.events;
    }
    if a.UserRead? {
      RawsOneMore(h.events, Read(a.length));
    }
  }

  lemma HeardOneMore(known: bool, actions: seq<Action>)
    requires actions != []
    ensures var n := |actions| - 1;
            Heard(known, actions) == Heard(known, actions[..n])
              + if actions[n].Receive? && (known || Sent(actions[..n]) != []) then [actions[n].word] else []
  {
  }

  /** The words handed over, then the one still waiting, are the words heard. */
  lemma {:induction false} HandOverBringsHeard(known: bool, actions: seq<Action>)
    ensures var h := HandOverAll(known, actions);
            Raws(h.events) + Waiting(h) == Heard(known, actions) && h.hears == (known || Sent(actions) != [])
  {
    if actions != [] {
      var n := |actions| - 1;
      HandOverBringsHeard(known, actions[..n]);
      HandOverBrings(HandOverAll(known, actions[..n]), actions[n]);
      HeardOneMore(known, actions);
    }
  }

  // ----- the system hands over the same words

  /** The device between two actions, with the word waiting in it. */
  predicate Between(d: Device, waiting: Option<nat>, hears: bool) {
    && Settled(d) && !Acknowledged(d) && d.irq == waiting.Some? && d.demod.frame.reg1.Some? == hears
    && (waiting.Some? ==> hears && Reg0(d.demod.frame) == waiting)
  }

  lemma FrameServed(d: Device, waiting: Option<nat>, t: Timing, word: nat, ps: seq<Pulse>)
    requires Between(d, waiting, true) && d.irq && word < 4096 && RendersAll(ps, FrameOf(word)) && InTime(t, Wave(ps))
    ensures Between(Run(d, true, HandlerInputs(t, Wave(ps))), Some(word), true)
    ensures DataRead(d, t, Wave(ps)) == waiting
  {
    FrameWhileServing(d, t, word, ps);
    DataReadIsState(d, t, Wave(ps));
  }

  lemma FrameUnserved(d: Device, hears: bool, word: nat, ps: seq<Pulse>)
    requires Between(d, None, hears) && word < 4096 && RendersAll(ps, FrameOf(word))
    ensures Between(Run(d, true, QuietWave(Wave(ps))), if hears then Some(word) else None, true)
  {
    FrameAtReadyDevice(d, word, ps);
  }

  lemma PauseServed(d: Device, waiting: Option<nat>, hears: bool, t: Timing, clocks: nat)
    requires Between(d, waiting, hears) && d.irq && Ordered(t, |Level(clocks, true)|)
    ensures Between(Run(d, true, HandlerInputs(t, Level(clocks, true))), None, hears)
    ensures DataRead(d, t, Level(clocks, true)) == waiting
  {
    PauseWhileServing(d, t, clocks);
    DataReadIsState(d, t, Level(clocks, true));
  }

  lemma PauseUnserved(d: Device, hears: bool, clocks: nat)
    requires Between(d, None, hears)
    ensures Between(Run(d, true, QuietWave(Level(clocks, true))), None, hears)
  {
    QuietPause(d, clocks);
  }

  lemma HandleOneMore(capacity: nat, beyond: nat -> Msg, events: seq<Event>, e: Event)
    requires capacity > 0
    ensures HandleAll(capacity, beyond, events + [e])
            == Handle(capacity, beyond, HandleAll(capacity, beyond, events), e)
  {
    assert (events + [e])[..|events|] == events;
  }

  lemma FlushStep(capacity: nat, beyond: nat -> Msg, h: Handed)
    requires capacity > 0
    ensures var d := HandleAll(capacity, beyond, h.events);
            HandleAll(capacity, beyond, Flushed(h))
            == if h.waiting.Some? then Handle(capacity, beyond, d, Interrupt(h.waiting.value)) else d
  {
    if h.waiting.Some? {
      HandleOneMore(capacity, beyond, h.events, Interrupt(h.waiting.value));
    } else {
      assert h.events + [] == h.events;
    }
  }

  /** Device and driver stand where the reference stands. */
  ghost predicate Agrees(capacity: nat, beyond: nat -> Msg, s: System, h: Handed)
    requires capacity > 0
  {
    Between(s.device, h.waiting, h.hears) && s.driver == HandleAll(capacity, beyond, h.events)
  }

  lemma PathStep(capacity: nat, beyond: nat -> Msg, s: System, h: Handed, a: Action)
    requires capacity > 0 && Agrees(capacity, beyond, s, h) && WellTimed(a)
    ensures Agrees(capacity, beyond, Act(capacity, beyond, s, a), HandOver(h, a))
  {
    FlushStep(capacity, beyond, h);
    match a
    case Receive(word, pulses, timing) =>
      if s.device.irq {
        FrameServed(s.device, h.waiting, timing, word, pulses);
      } else {
        FrameUnserved(s.device, h.hears, word, pulses);
      }
    case Pause(clocks, timing) =>
      if s.device.irq {
        PauseServed(s.device, h.waiting, h.hears, timing, clocks);
      } else {
        PauseUnserved(s.device, h.hears, clocks);
      }
    case UserRead(length) => HandleOneMore(capacity, beyond, h.events, Read(length));
  }

  /** Decoder, interrupt line, bus and handler together hand the driver exactly the words heard, in order among the
      reads, wherever the handler's accesses fall in the signal. */
  lemma {:induction false} SignalPathIsTransparent(
      capacity: nat, beyond: nat -> Msg, device: Device, actions: seq<Action>)
    requires capacity > 0 && Ready(device) && AllWellTimed(actions)
    ensures Agrees(capacity, beyond, ActAll(capacity, beyond, device, actions),
                   HandOverAll(device.demod.frame.reg1.Some?, actions))
  {
    if actions != [] {
      var n, known := |actions| - 1, device.demod.frame.reg1.Some?;
      SignalPathIsTransparent(capacity, beyond, device, actions[..n]);
      assert WellTimed(actions[n]);
      PathStep(capacity, beyond, ActAll(capacity, beyond, device, actions[..n]), HandOverAll(known, actions[..n]),
               actions[n]);
    }
  }

  // ----- what the reader gets

  lemma {:induction false} SentFit(actions: seq<Action>, word: nat)
    requires AllWellTimed(actions) && word in Sent(actions)
    ensures word < 4096
  {
    var n := |actions| - 1;
    assert WellTimed(actions[n]);
    if word in Sent(actions[..n]) {
      SentFit(actions[..n], word);
    }
  }

  lemma HandedFit(known: bool, actions: seq<Action>)
    requires AllWellTimed(actions)
    ensures forall raw :: raw in Raws(HandOverAll(known, actions).events) ==> raw < 4096
  {
    HandOverBringsHeard(known, actions);
    var h := HandOverAll(known, actions);
    forall raw | raw in Raws(h.events) ensures raw < 4096 {
      assert raw in Raws(h.events) + Waiting(h);
      SentFit(actions, raw);
    }
  }

  /** From the signal to the user buffer, for every mix of words, pauses and reads on a ready device: word i the reader
      recombines is the i-th accepted one, unless i + 1 is a multiple of the queue's capacity, when it is foreign
      memory. */
  lemma ReaderGetsWordsSent(capacity: nat, beyond: nat -> Msg, device: Device, actions: seq<Action>, i: nat)
    requires capacity > 0 && Ready(device) && AllWellTimed(actions)
    requires i < |ActAll(capacity, beyond, device, actions).driver.out|
    ensures WordArrives(capacity, beyond, ActAll(capacity, beyond, device, actions).driver, i)
  {
    var known := device.demod.frame.reg1.Some?;
    SignalPathIsTransparent(capacity, beyond, device, actions);
    HandedFit(known, actions);
    AcceptedFrameArrives(capacity, beyond, HandOverAll(known, actions).events, i);
  }

  /** The words accepted, and then the one still waiting for the handler, are the words heard, in order, exactly when no
      word found the queue full; in any case heard = accepted + dropped + waiting. */
  lemma AcceptedAreHeard(capacity: nat, beyond: nat -> Msg, device: Device, actions: seq<Action>)
    requires capacity > 0 && Ready(device) && AllWellTimed(actions)
    ensures var d, known := ActAll(capacity, beyond, device, actions).driver, device.demod.frame.reg1.Some?;
            var h := HandOverAll(known, actions);
            && (d.accepted + Waiting(h) == Heard(known, actions) <==> d.dropped == 0)
            && (d.dropped == 0 <==> forall k :: !FoundFull(capacity, beyond, h.events, k))
            && |Heard(known, actions)| == |d.accepted| + d.dropped + |Waiting(h)| && |d.out| == |d.taken|
  {
    var h := HandOverAll(device.demod.frame.reg1.Some?, actions);
    SignalPathIsTransparent(capacity, beyond, device, actions);
    HandOverBringsHeard(device.demod.frame.reg1.Some?, actions);
    DroppedOnlyWhenFull(capacity, beyond, h.events);
    FramesConserved(capacity, beyond, h.events);
    SameWithTail(HandleAll(capacity, beyond, h.events).accepted, Raws(h.events), Waiting(h));
  }

  lemma SameWithTail(a: seq<nat>, b: seq<nat>, tail: seq<nat>)
    ensures a + tail == b + tail <==> a == b
  {
    if a + tail == b + tail {
      assert a == (a + tail)[..|a|] && b == (b + tail)[..|b|];
    }
  }

  /** Every word sent is accepted in order, or is the last one and waits for the handler, exactly when none found the
      queue full and slv_reg1 was known at the start (or nothing was sent). */
  lemma AllWordsAcceptedExactly(capacity: nat, beyond: nat -> Msg, device: Device, actions: seq<Action>)
    requires capacity > 0 && Ready(device) && AllWellTimed(actions)
    ensures var known := device.demod.frame.reg1.Some?;
            var h := HandOverAll(known, actions);
            ActAll(capacity, beyond, device, actions).driver.accepted + Waiting(h) == Sent(actions) <==>
              (known || Sent(actions) == []) && forall k :: !FoundFull(capacity, beyond, h.events, k)
  {
    AcceptedAreHeard(capacity, beyond, device, actions);
  }

  /** After power-up with slv_reg1 unknown, which reset does not change, the first word sent never reaches the driver;
      the others do. */
  lemma PowerUpLosesFirstWord(capacity: nat, beyond: nat -> Msg, d: Device, reset: Inputs, actions: seq<Action>)
    requires capacity > 0 && d.demod.frame.reg1 == None && !reset.resetn && reset.ir
    requires AllWellTimed(actions) && Sent(actions) != []
    ensures var driver := ActAll(capacity, beyond, Run(d, true, [reset, Quiet(true)]), actions).driver;
            var waiting := Waiting(HandOverAll(false, actions));
            && |Sent(actions)| == 1 + |driver.accepted| + driver.dropped + |waiting|
            && (driver.dropped == 0 <==> driver.accepted + waiting == Sent(actions)[1..])
  {
    ResetMakesReady(d, reset);
    AcceptedAreHeard(capacity, beyond, Run(d, true, [reset, Quiet(true)]), actions);
  }

  // ----- the same on the heap

  lemma ActAllStep(capacity: nat, beyond: nat -> Msg, device: Device, actions: seq<Action>, n: nat) returns (h: Handed)
    requires capacity > 0 && Ready(device) && AllWellTimed(actions) && n < |actions|
    ensures var s := ActAll(capacity, beyond, device, actions[..n]);
            && ActAll(capacity, beyond, device, actions[..n + 1]) == Act(capacity, beyond, s, actions[n])
            && |BytesOf(s.driver.out)| / 2 == |s.driver.taken| && WellTimed(actions[n])
            && Between(s.device, h.waiting, h.hears)
  {
    assert actions[..n + 1][..n] == actions[..n];
    h := HandOverAll(device.demod.frame.reg1.Some?, actions[..n]);
    SignalPathIsTransparent(capacity, beyond, device, actions[..n]);
    AcceptedAreHeard(capacity, beyond, device, actions[..n]);
  }

  lemma StretchEndsHigh(a: Action)
    requires WellTimed(a) && !a.UserRead?
    ensures var wave := StretchOf(a);
            wave != [] ==> wave[|wave| - 1]
  {
    if a.Receive? {
      WaveDecodes(a.pulses, FrameOf(a.word));
      if Wave(a.pulses) != [] {
        LowsZeroIsHigh(Wave(a.pulses), 0);
      }
    } else {
      LevelLength(a.clocks, true);
    }
  }

  lemma {:induction false} LowsZeroIsHigh(wave: seq<bool>, lows: nat)
    requires LowsAtEnd(wave, lows) == 0 && wave != []
    ensures wave[|wave| - 1]
    decreases |wave|
  {
    if |wave| > 1 {
      LowsZeroIsHigh(wave[1..], if wave[0] then 0 else lows + 1);
    }
  }

  /** The peripheral and the driver's memory together. */
  class Board {
    const peripheral: Peripheral
    const driver: CharDevice

    constructor (peripheral: Peripheral, driver: CharDevice)
      ensures this.peripheral == peripheral && this.driver == driver
    {
      this.peripheral, this.driver := peripheral, driver;
    }

    /** The heap agrees with a value of the model. */
    ghost predicate Models(s: System)
      reads this, peripheral, driver, driver.queue, driver.queue.msgs
    {
      peripheral.Registers() == s.device && peripheral.irSignal && driver.Models(s.driver)
    }

    /** irq_handler with its bus accesses, spread over a stretch of signal. Its wait loop ends with the first poll. */
    method IrqHandler(t: Timing, wave: seq<bool>, ghost ins: seq<Inputs>, ghost s: seq<Device>, ghost levels: seq<bool>,
                      ghost d: Driver, ghost beyond: nat -> Msg)
      requires IsTrace(s, levels, ins) && Signal(ins) == wave && peripheral.At(s, levels, 0) && driver.Models(d)
      requires HandlerOn(t, ins, t.release + 3) && QuietOn(ins, t.release + 3, |ins|)
      requires !Bit15(s[t.poll + 3].readSide.rdata)
      modifies peripheral, driver, driver.queue, driver.queue.msgs
      ensures peripheral.At(s, levels, |ins|)
      ensures driver.Models(Handle(driver.queue.capacity, beyond, d,
                                   Interrupt(RegisterValue(s[t.read + 3].readSide.rdata))))
    {
      Acknowledge(t, wave, ins, s, levels, d, beyond);
      Release(t.ack + 3, t.poll, t.release, wave, ins, s, levels);
      peripheral.IdleTo(wave, t.release + 3, |wave|, ins, s, levels);
    }

    /** The read, the enqueue and the first write. */
    method Acknowledge(t: Timing, wave: seq<bool>, ghost ins: seq<Inputs>, ghost s: seq<Device>,
                       ghost levels: seq<bool>, ghost d: Driver, ghost beyond: nat -> Msg)
      requires IsTrace(s, levels, ins) && Signal(ins) == wave && peripheral.At(s, levels, 0) && driver.Models(d)
      requires PairOn(ins, 0, t.read, 0, t.ack, 1)
      modifies peripheral, driver, driver.queue, driver.queue.msgs
      ensures peripheral.At(s, levels, t.ack + 3)
      ensures driver.Models(Handle(driver.queue.capacity, beyond, d,
                                   Interrupt(RegisterValue(s[t.read + 3].readSide.rdata))))
    {
      peripheral.IdleTo(wave, 0, t.read, ins, s, levels);
      var raw := peripheral.IoRead32(0, wave, t.read, ins, s, levels);
      driver.IrqHandler(RegisterValue(raw), d, beyond);
      peripheral.IdleTo(wave, t.read + 3, t.ack, ins, s, levels);
      peripheral.IoWrite16(1, wave, t.ack, ins, s, levels);
    }

    /** The poll and the second write. */
    method Release(i: nat, poll: nat, release: nat, wave: seq<bool>, ghost ins: seq<Inputs>, ghost s: seq<Device>,
                   ghost levels: seq<bool>)
      requires IsTrace(s, levels, ins) && Signal(ins) == wave && peripheral.At(s, levels, i)
      requires PairOn(ins, i, poll, 8, release, 0) && !Bit15(s[poll + 3].readSide.rdata)
      modifies peripheral
      ensures peripheral.At(s, levels, release + 3)
    {
      peripheral.IdleTo(wave, i, poll, ins, s, levels);
      var status := peripheral.IoRead32(8, wave, poll, ins, s, levels);
      assert !Bit15(status);
      peripheral.IdleTo(wave, poll + 3, release, ins, s, levels);
      peripheral.IoWrite16(0, wave, release, ins, s, levels);
    }

    /** A stretch of signal with the handler at work in it. */
    method ServeDuring(t: Timing, wave: seq<bool>, ghost c: System, ghost beyond: nat -> Msg)
      requires Models(c) && c.device.irq && Ordered(t, |wave|) && (wave != [] ==> wave[|wave| - 1])
      requires HandlerDone(c.device, t, States(c.device, HandlerInputs(t, wave), t.release + 3))
      modifies peripheral, driver, driver.queue, driver.queue.msgs
      ensures Models(During(driver.queue.capacity, beyond, c, t, wave))
    {
      ghost var ins := HandlerInputs(t, wave);
      ghost var s, levels := MakeTrace(c.device, ins);
      HandlerInputsOn(t, wave);
      HandlerInputsEnd(t, wave);
      TraceEnds(c.device, ins, s, levels, wave);
      TraceReads(c.device, t, ins, s);
      DataReadIsState(c.device, t, wave);
      IrqHandler(t, wave, ins, s, levels, c.driver, beyond);
    }

    /** A stretch of signal with nothing to serve. */
    method QuietDuring(wave: seq<bool>, ghost t: Timing, ghost c: System, ghost beyond: nat -> Msg)
      requires Models(c) && !c.device.irq && (wave != [] ==> wave[|wave| - 1])
      modifies peripheral
      ensures Models(During(driver.queue.capacity, beyond, c, t, wave))
    {
      peripheral.RunClocks(QuietWave(wave));
    }

    /** A stretch of signal, whether or not an interrupt waits. */
    method SignalStretch(t: Timing, wave: seq<bool>, ghost a: Action, ghost c: System, ghost h: Handed,
                         ghost beyond: nat -> Msg)
      requires Models(c) && Between(c.device, h.waiting, h.hears) && WellTimed(a) && !a.UserRead?
      requires t == a.timing && wave == StretchOf(a)
      modifies peripheral, driver, driver.queue, driver.queue.msgs
      ensures Models(During(driver.queue.capacity, beyond, c, t, wave))
    {
      StretchEndsHigh(a);
      if peripheral.irq {
        ServedInAction(c.device, h, a);
        ServeDuring(t, wave, c, beyond);
      } else {
        QuietDuring(wave, t, c, beyond);
      }
    }

    /** One action; `total` messages have been read before. */
    method ActOne(a: Action, total: nat, beyond: nat -> Msg, ghost c: System, ghost h: Handed)
      returns (buffer: seq<byte>)
      requires Models(c) && Between(c.device, h.waiting, h.hears) && WellTimed(a) && total == |c.driver.taken|
      modifies peripheral, driver, driver.queue, driver.queue.msgs
      ensures Models(Act(driver.queue.capacity, beyond, c, a))
      ensures BytesOf(Act(driver.queue.capacity, beyond, c, a).driver.out) == BytesOf(c.driver.out) + buffer
    {
      match a
      case Receive(word, pulses, timing) =>
        SignalStretch(timing, Wave(pulses), a, c, h, beyond);
        buffer := [];
      case Pause(clocks, timing) =>
        SignalStretch(timing, Level(clocks, true), a, c, h, beyond);
        buffer := [];
      case UserRead(length) =>
        buffer := driver.HandleEvent(Read(length), total, beyond, c.driver);
    }

    /** Any mix of words, pauses and reads; returns all bytes the reader got. */
    method RunAll(actions: seq<Action>, beyond: nat -> Msg, ghost device: Device) returns (bytes: seq<byte>)
      requires Models(System(device, OPENED)) && Ready(device) && AllWellTimed(actions)
      modifies peripheral, driver, driver.queue, driver.queue.msgs
      ensures Models(ActAll(driver.queue.capacity, beyond, device, actions))
      ensures bytes == BytesOf(ActAll(driver.queue.capacity, beyond, device, actions).driver.out)
    {
      bytes := [];
      for n := 0 to |actions|
        invariant Models(ActAll(driver.queue.capacity, beyond, device, actions[..n]))
        invariant bytes == BytesOf(ActAll(driver.queue.capacity, beyond, device, actions[..n]).driver.out)
      {
        ghost var c := ActAll(driver.queue.capacity, beyond, device, actions[..n]);
        ghost var h := ActAllStep(driver.queue.capacity, beyond, device, actions, n);
        var buffer := ActOne(actions[n], |bytes| / 2, beyond, c, h);
        bytes := bytes + buffer;
      }
      assert actions[..|actions|] == actions;
    }
  }

  lemma TraceEnds(d: Device, ins: seq<Inputs>, s: seq<Device>, levels: seq<bool>, wave: seq<bool>)
    requires IsTrace(s, levels, ins) && s == States(d, ins, |ins|) && levels[0]
    requires Signal(ins) == wave && (wave != [] ==> wave[|wave| - 1])
    ensures s[0] == d && levels[|ins|] && s[|ins|] == Run(d, true, ins)
  {
    StatesStart(d, ins, |ins|);
    assert ins[0..|ins|] == ins;
  }

  lemma StatesAgree(d: Device, ins: seq<Inputs>, end: nat, k: nat)
    requires k <= end <= |ins|
    ensures States(d, ins, |ins|)[k] == States(d, ins, end)[k]
  {
  }

  lemma TraceReads(d: Device, t: Timing, ins: seq<Inputs>, s: seq<Device>)
    requires s == States(d, ins, |ins|) && Ordered(t, |ins|) && HandlerDone(d, t, States(d, ins, t.release + 3))
    ensures s[t.read + 3].readSide.rdata == States(d, ins, t.release + 3)[t.read + 3].readSide.rdata
    ensures !Bit15(s[t.poll + 3].readSide.rdata)
  {
    StatesAgree(d, ins, t.release + 3, t.read + 3);
    StatesAgree(d, ins, t.release + 3, t.poll + 3);
  }

  lemma ServedInAction(d: Device, h: Handed, a: Action)
    requires Between(d, h.waiting, h.hears) && d.irq && WellTimed(a) && !a.UserRead?
    ensures var wave := StretchOf(a);
            Ordered(a.timing, |wave|)
            && HandlerDone(d, a.timing, States(d, HandlerInputs(a.timing, wave), a.timing.release + 3))
  {
    if a.Receive? {
      FrameWhileServing(d, a.timing, a.word, a.pulses);
    } else {
      PauseWhileServing(d, a.timing, a.clocks);
    }
  }
}
