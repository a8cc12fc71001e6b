/** The bus transactions of the interrupt handler, clock by clock, on the peripheral, while the signal goes on. */
module IrHandler {
  import opened Bytes
  import opened IrDecode
  import opened IrDevice

  /** A clock in which the master does nothing. */
  function Quiet(ir: bool): Inputs {
    Inputs(true, ir, false, false, 0, 0, 0, false, false, false, false, 0, false)
  }

  function QuietWave(wave: seq<bool>): (r: seq<Inputs>)
    ensures |r| == |wave| && Signal(r) == wave && NoReset(r)
  {
    seq(|wave|, k requires 0 <= k < |wave| => Quiet(wave[k]))
  }

  /** ioread32: the address is offered for two clocks, in the second of which it is accepted; then the response is
      taken. */
  function ReadClock(addr: nat, phase: nat, ir: bool): Inputs {
    if phase < 2 then Quiet(ir).(arvalid := true, araddr := addr) else Quiet(ir).(rready := true)
  }

  function ReadScript(addr: nat, wave: seq<bool>): seq<Inputs>
    requires |wave| == 3
  {
    [ReadClock(addr, 0, wave[0]), ReadClock(addr, 1, wave[1]), ReadClock(addr, 2, wave[2])]
  }

  /** iowrite16 of a small value to slv_reg2: both low byte lanes are strobed. */
  function WriteClock(value: byte, phase: nat, ir: bool): Inputs {
    if phase < 2 then
      Quiet(ir).(awvalid := true, wvalid := true, awaddr := 8, dataLo := value, strbLo := true, strbHi := true)
    else Quiet(ir).(bready := true)
  }

  function WriteScript(value: byte, wave: seq<bool>): seq<Inputs>
    requires |wave| == 3
  {
    [WriteClock(value, 0, wave[0]), WriteClock(value, 1, wave[1]), WriteClock(value, 2, wave[2])]
  }

  // ----- single accesses

  predicate BusIdle(d: Device) {
    && !d.writeSide.awready && !d.writeSide.wready && !d.writeSide.bvalid
    && !d.readSide.arready && !d.readSide.rvalid
  }

  /** No transaction under way and the frame counter remembered. */
  predicate Orderly(d: Device) {
    BusIdle(d) && d.reg1Prev == d.demod.frame.reg1
  }

  predicate SameWord(d: Device, e: Device) {
    d.demod.frame.reg0 == e.demod.frame.reg0 && d.demod.frame.reg1 == e.demod.frame.reg1
  }

  /** No word is published during these clocks. */
  predicate Steady(d: Device, before: bool, ins: seq<Inputs>) {
    forall k :: 0 <= k <= |ins| ==> SameWord(d, Run(d, before, ins[..k]))
  }

  lemma RunThree(d: Device, before: bool, i: Inputs, j: Inputs, k: Inputs)
    ensures Run(d, before, [i, j, k]) == Step(Step(Step(d, before, i), i.ir, j), j.ir, k)
  {
    assert [i, j, k] == ([i] + [j]) + [k];
    RunAppend(d, before, [i] + [j], [k]);
    RunAppend(d, before, [i], [j]);
    RunOne(d, before, i);
    RunOne(Step(d, before, i), i.ir, j);
    RunOne(Step(Step(d, before, i), i.ir, j), j.ir, k);
  }

  lemma SteadyThree(d: Device, before: bool, i: Inputs, j: Inputs, k: Inputs)
    requires Steady(d, before, [i, j, k])
    ensures var e := Step(d, before, i);
            SameWord(d, e) && SameWord(d, Step(e, i.ir, j)) && SameWord(d, Step(Step(e, i.ir, j), j.ir, k))
  {
    var ins := [i, j, k];
    assert ins[..1] == [i] && ins[..2] == [i] + [j] && ins[..3] == ins;
    RunOne(d, before, i);
    RunSnoc(d, before, [i], j);
    RunThree(d, before, i, j, k);
  }

  lemma ReadOffered(d: Device, before: bool, addr: nat, ir: bool)
    requires Orderly(d) && SameWord(d, Step(d, before, ReadClock(addr, 0, ir)))
    ensures var e := Step(d, before, ReadClock(addr, 0, ir));
            && e.readSide == d.readSide.(arready := true, araddr := addr)
            && Tidy(d, e) && e.reg2.bit31 == d.irq
  {
  }

  lemma ReadAnswered(d: Device, before: bool, addr: nat, ir: bool)
    requires SameWord(d, Step(d, before, ReadClock(addr, 1, ir))) && d.reg1Prev == d.demod.frame.reg1
    requires d.readSide.arready && d.readSide.araddr == addr && !d.readSide.rvalid
    requires !d.writeSide.awready && !d.writeSide.wready && !d.writeSide.bvalid
    ensures var e := Step(d, before, ReadClock(addr, 1, ir));
            && e.readSide == ReadSide(false, addr, true, ReadRegister(d, addr))
            && Tidy(d, e)
  {
  }

  lemma ReadTaken(d: Device, before: bool, addr: nat, ir: bool)
    requires SameWord(d, Step(d, before, ReadClock(addr, 2, ir))) && d.reg1Prev == d.demod.frame.reg1
    requires !d.readSide.arready && d.readSide.rvalid
    requires !d.writeSide.awready && !d.writeSide.wready && !d.writeSide.bvalid
    ensures var e := Step(d, before, ReadClock(addr, 2, ir));
            e.readSide == d.readSide.(rvalid := false) && Tidy(d, e)
  {
  }

  /** What no clock of a read disturbs. */
  predicate Tidy(d: Device, e: Device) {
    && !e.writeSide.awready && !e.writeSide.wready && !e.writeSide.bvalid
    && e.reg1Prev == e.demod.frame.reg1 && e.reg2.hi == d.reg2.hi && e.reg2.lo == d.reg2.lo
    && e.irq == (d.irq && !Acknowledged(d))
  }

  /** A whole read returns the addressed register and leaves the device as it is; the line drops only for an earlier
      acknowledge. */
  lemma ReadRuns(d: Device, before: bool, addr: nat, wave: seq<bool>)
    requires Orderly(d) && |wave| == 3 && Steady(d, before, ReadScript(addr, wave))
    ensures var e := Run(d, before, ReadScript(addr, wave));
            && Orderly(e) && SameWord(d, e)
            && e.reg2.hi == d.reg2.hi && e.reg2.lo == d.reg2.lo
            && e.irq == (d.irq && !Acknowledged(d))
            && e.readSide.rdata == ReadRegister(d.(reg2 := d.reg2.(bit31 := d.irq)), addr)
  {
    var s := ReadScript(addr, wave);
    RunThree(d, before, s[0], s[1], s[2]);
    SteadyThree(d, before, s[0], s[1], s[2]);
    var e := Step(d, before, s[0]);
    ReadOffered(d, before, addr, wave[0]);
    ReadAnswered(e, s[0].ir, addr, wave[1]);
    ReadTaken(Step(e, s[0].ir, s[1]), s[1].ir, addr, wave[2]);
  }

  /** A whole write leaves slv_reg2 with that low half; a value with bit 0 set drops the line within it. */
  lemma WriteRuns(d: Device, before: bool, value: byte, wave: seq<bool>)
    requires Orderly(d) && |wave| == 3 && Steady(d, before, WriteScript(value, wave))
    ensures var e := Run(d, before, WriteScript(value, wave));
            && Orderly(e) && SameWord(d, e)
            && e.reg2.hi == 0 && e.reg2.lo == value
            && e.irq == (d.irq && !Acknowledged(d) && value % 2 == 0)
  {
    var s := WriteScript(value, wave);
    RunThree(d, before, s[0], s[1], s[2]);
    SteadyThree(d, before, s[0], s[1], s[2]);
  }

  lemma SteadyPrefix(d: Device, before: bool, ins: seq<Inputs>, n: nat)
    requires n <= |ins| && Steady(d, before, ins)
    ensures Steady(d, before, ins[..n])
  {
    forall k | 0 <= k <= n ensures ins[..n][..k] == ins[..k] {
    }
  }

  /** Idle clocks in between change nothing. */
  lemma {:induction false} QuietRuns(d: Device, before: bool, wave: seq<bool>)
    requires Orderly(d) && Steady(d, before, QuietWave(wave))
    ensures var e := Run(d, before, QuietWave(wave));
            && Orderly(e) && SameWord(d, e)
            && e.reg2.hi == d.reg2.hi && e.reg2.lo == d.reg2.lo
            && (!Acknowledged(d) || !d.irq ==> e.irq == d.irq)
    decreases |wave|
  {
    var ins := QuietWave(wave);
    assert ins[..|ins|] == ins;
    if wave != [] {
      var n := |wave| - 1;
      assert ins[..n] == QuietWave(wave[..n]);
      SteadyPrefix(d, before, ins, n);
      QuietRuns(d, before, wave[..n]);
      RunSnoc(d, before, ins[..n], ins[n]);
      assert ins == ins[..n] + [ins[n]];
      QuietStep(Run(d, before, ins[..n]), LevelAfter(before, ins[..n]), wave[n]);
    }
  }

  lemma QuietStep(d: Device, before: bool, ir: bool)
    requires Orderly(d) && SameWord(d, Step(d, before, Quiet(ir)))
    ensures var e := Step(d, before, Quiet(ir));
            && Orderly(e) && e.reg2.hi == d.reg2.hi && e.reg2.lo == d.reg2.lo
            && (!Acknowledged(d) || !d.irq ==> e.irq == d.irq)
  {
  }

  // ----- the handler within a stretch of signal

  /** The clocks, counted from the start of the stretch, at which the handler's four accesses begin. */
  datatype Timing = Timing(read: nat, ack: nat, poll: nat, release: nat)

  /** One access after another, the last done by clock `end`. */
  predicate Ordered(t: Timing, end: nat) {
    t.read + 3 <= t.ack && t.ack + 3 <= t.poll && t.poll + 3 <= t.release && t.release + 3 <= end
  }

  /** irq_handler: slv_reg0 is read, slv_reg2 set to 1, polled, and set to 0. */
  function BusAt(t: Timing, k: nat, ir: bool): Inputs {
    if t.read <= k < t.read + 3 then ReadClock(0, k - t.read, ir)
    else if t.ack <= k < t.ack + 3 then WriteClock(1, k - t.ack, ir)
    else if t.poll <= k < t.poll + 3 then ReadClock(8, k - t.poll, ir)
    else if t.release <= k < t.release + 3 then WriteClock(0, k - t.release, ir)
    else Quiet(ir)
  }

  function HandlerInputs(t: Timing, wave: seq<bool>): (r: seq<Inputs>)
    ensures |r| == |wave| && Signal(r) == wave && NoReset(r)
  {
    seq(|wave|, k requires 0 <= k < |wave| => BusAt(t, k, wave[k]))
  }

  /** All the handler puts on the bus, in numbers: a read of address 0, a write of 1 to address 8, a read of address 8
      and a write of 0 to address 8, each offered for two clocks. */
  lemma HandlerTraffic(t: Timing, wave: seq<bool>, k: nat)
    requires Ordered(t, |wave|) && k < |wave|
    ensures var i := HandlerInputs(t, wave)[k];
            && (i.arvalid <==> t.read <= k < t.read + 2 || t.poll <= k < t.poll + 2)
            && (i.arvalid ==> i.araddr == if k < t.ack then 0 else 8)
            && (i.awvalid == i.wvalid) && (i.awvalid <==> t.ack <= k < t.ack + 2 || t.release <= k < t.release + 2)
            && (i.awvalid ==> i.awaddr == 8 && i.strbLo && i.strbHi && i.dataHi == 0
                              && i.dataLo == if k < t.poll then 1 else 0)
  {
  }

  /** The master does nothing from clock i to clock j. */
  predicate QuietOn(ins: seq<Inputs>, i: nat, j: nat) {
    i <= j <= |ins| && forall k :: i <= k < j ==> ins[k] == Quiet(ins[k].ir)
  }

  predicate ReadOn(ins: seq<Inputs>, i: nat, addr: nat) {
    i + 3 <= |ins| && forall k :: i <= k < i + 3 ==> ins[k] == ReadClock(addr, k - i, ins[k].ir)
  }

  predicate WriteOn(ins: seq<Inputs>, i: nat, value: byte) {
    i + 3 <= |ins| && forall k :: i <= k < i + 3 ==> ins[k] == WriteClock(value, k - i, ins[k].ir)
  }

  /** The device after the first k clocks. */
  function Reached(d: Device, ins: seq<Inputs>, k: nat): Device
    requires k <= |ins|
  {
    Run(d, true, ins[..k])
  }

  lemma RunTo(d: Device, ins: seq<Inputs>, i: nat, j: nat) returns (before: bool)
    requires i <= j <= |ins|
    ensures before == LevelAfter(true, ins[..i]) && Run(Reached(d, ins, i), before, ins[i..j]) == Reached(d, ins, j)
  {
    before := LevelAfter(true, ins[..i]);
    assert ins[..j] == ins[..i] + ins[i..j];
    RunAppend(d, true, ins[..i], ins[i..j]);
  }

  lemma SteadyAt(d: Device, ins: seq<Inputs>, k: nat, end: nat)
    requires k <= end <= |ins| && Steady(d, true, ins[..end])
    ensures SameWord(d, Reached(d, ins, k))
  {
    assert ins[..end][..k] == ins[..k];
  }

  lemma StretchIsSteady(d: Device, ins: seq<Inputs>, i: nat, j: nat, end: nat)
    requires i <= j <= end <= |ins| && Steady(d, true, ins[..end])
    ensures Steady(Reached(d, ins, i), LevelAfter(true, ins[..i]), ins[i..j])
  {
    var c, before, part := Reached(d, ins, i), LevelAfter(true, ins[..i]), ins[i..j];
    forall k | 0 <= k <= |part| ensures SameWord(c, Run(c, before, part[..k])) {
      assert part[..k] == ins[i..i + k];
      StretchAt(d, ins, i, i + k, end);
    }
  }

  lemma Stretch(d: Device, ins: seq<Inputs>, i: nat, j: nat, end: nat) returns (before: bool)
    requires i <= j <= end <= |ins| && Steady(d, true, ins[..end])
    ensures Reached(d, ins, j) == Run(Reached(d, ins, i), before, ins[i..j])
    ensures Steady(Reached(d, ins, i), before, ins[i..j])
  {
    StretchIsSteady(d, ins, i, j, end);
    before := RunTo(d, ins, i, j);
  }

  lemma StretchAt(d: Device, ins: seq<Inputs>, i: nat, j: nat, end: nat)
    requires i <= j <= end <= |ins| && Steady(d, true, ins[..end])
    ensures SameWord(Reached(d, ins, i), Run(Reached(d, ins, i), LevelAfter(true, ins[..i]), ins[i..j]))
  {
    var before := RunTo(d, ins, i, j);
    SteadyAt(d, ins, i, end);
    SteadyAt(d, ins, j, end);
  }

  /** What idle clocks leave of a device. */
  predicate Kept(c: Device, e: Device) {
    && Orderly(e) && SameWord(c, e) && e.reg2.hi == c.reg2.hi && e.reg2.lo == c.reg2.lo
    && (!Acknowledged(c) || !c.irq ==> e.irq == c.irq)
  }

  /** What a read leaves. */
  predicate ReadDone(c: Device, e: Device, addr: nat) {
    && Kept(c, e) && e.irq == (c.irq && !Acknowledged(c))
    && e.readSide.rdata == ReadRegister(c.(reg2 := c.reg2.(bit31 := c.irq)), addr)
  }

  /** What a write leaves. */
  predicate WriteDone(c: Device, e: Device, value: byte) {
    && Orderly(e) && SameWord(c, e) && e.reg2.hi == 0 && e.reg2.lo == value
    && e.irq == (c.irq && !Acknowledged(c) && value % 2 == 0)
  }

  lemma QuietPart(d: Device, ins: seq<Inputs>, i: nat, j: nat, end: nat)
    requires j <= end <= |ins| && Steady(d, true, ins[..end]) && QuietOn(ins, i, j) && Orderly(Reached(d, ins, i))
    ensures Kept(Reached(d, ins, i), Reached(d, ins, j))
  {
    var before := Stretch(d, ins, i, j, end);
    var wave := Signal(ins[i..j]);
    assert ins[i..j] == QuietWave(wave);
    QuietRuns(Reached(d, ins, i), before, wave);
  }

  lemma ReadPart(d: Device, ins: seq<Inputs>, i: nat, addr: nat, end: nat)
    requires i + 3 <= end <= |ins| && Steady(d, true, ins[..end]) && ReadOn(ins, i, addr) && Orderly(Reached(d, ins, i))
    ensures ReadDone(Reached(d, ins, i), Reached(d, ins, i + 3), addr)
  {
    var before := Stretch(d, ins, i, i + 3, end);
    var wave := [ins[i].ir, ins[i + 1].ir, ins[i + 2].ir];
    assert ins[i..i + 3] == ReadScript(addr, wave);
    ReadRuns(Reached(d, ins, i), before, addr, wave);
  }

  lemma WritePart(d: Device, ins: seq<Inputs>, i: nat, value: byte, end: nat)
    requires i + 3 <= end <= |ins| && Steady(d, true, ins[..end]) && WriteOn(ins, i, value)
    requires Orderly(Reached(d, ins, i))
    ensures WriteDone(Reached(d, ins, i), Reached(d, ins, i + 3), value)
  {
    var before := Stretch(d, ins, i, i + 3, end);
    var wave := [ins[i].ir, ins[i + 1].ir, ins[i + 2].ir];
    assert ins[i..i + 3] == WriteScript(value, wave);
    WriteRuns(Reached(d, ins, i), before, value, wave);
  }

  /** From clock i on: idle clocks, a read at j, idle clocks, a write at k. */
  predicate PairOn(ins: seq<Inputs>, i: nat, j: nat, addr: nat, k: nat, value: byte) {
    QuietOn(ins, i, j) && ReadOn(ins, j, addr) && QuietOn(ins, j + 3, k) && WriteOn(ins, k, value)
  }

  /** The handler's accesses, done by clock `end`: slv_reg0 is read, slv_reg2 set to 1, polled, and set to 0. */
  predicate HandlerOn(t: Timing, ins: seq<Inputs>, end: nat) {
    && t.release + 3 <= end <= |ins|
    && PairOn(ins, 0, t.read, 0, t.ack, 1) && PairOn(ins, t.ack + 3, t.poll, 8, t.release, 0)
  }

  /** Bit 15, which the handler's wait loop tests. */
  predicate Bit15(r: Option<nat>) {
    r.Some? && r.value / 0x8000 % 2 == 1
  }

  lemma Bit15IsInHighByte(c: Control)
    ensures Bit15(Some(ControlValue(c))) <==> c.hi >= 128
  {
    var b, q, hi: int, lo: int := if c.bit31 then 1 else 0, if c.hi >= 128 then 1 else 0, c.hi, c.lo;
    var rest := (hi - 128 * q) * 256 + lo;
    assert ControlValue(c) == 0x8000 * (0x1_0000 * b + q) + rest && 0 <= rest < 0x8000;
    Quotient(ControlValue(c), 0x1_0000 * b + q, rest);
  }

  lemma Quotient(v: nat, q: nat, r: nat)
    requires v == 0x8000 * q + r && r < 0x8000
    ensures v / 0x8000 == q
  {
  }

  /** How idle clocks, reads and writes take one state of a run to the next. */
  ghost predicate BusLaws(s: seq<Device>, ins: seq<Inputs>, end: nat) {
    && end <= |ins| && |s| == end + 1
    && (forall i: nat, j: nat {:trigger QuietOn(ins, i, j)} :: j <= end && QuietOn(ins, i, j) && Orderly(s[i]) ==>
          Kept(s[i], s[j]))
    && (forall i: nat, addr: nat {:trigger ReadOn(ins, i, addr)} ::
          i + 3 <= end && ReadOn(ins, i, addr) && Orderly(s[i]) ==> ReadDone(s[i], s[i + 3], addr))
    && (forall i: nat, value: byte {:trigger WriteOn(ins, i, value)} ::
          i + 3 <= end && WriteOn(ins, i, value) && Orderly(s[i]) ==> WriteDone(s[i], s[i + 3], value))
  }

  function States(d: Device, ins: seq<Inputs>, end: nat): (r: seq<Device>)
    requires end <= |ins|
    ensures |r| == end + 1
  {
    seq(end + 1, k requires 0 <= k <= end => Reached(d, ins, k))
  }

  lemma LawsHold(d: Device, ins: seq<Inputs>, end: nat)
    requires end <= |ins| && Steady(d, true, ins[..end])
    ensures BusLaws(States(d, ins, end), ins, end)
  {
    var s := States(d, ins, end);
    forall i: nat, j: nat | j <= end && QuietOn(ins, i, j) && Orderly(s[i]) ensures Kept(s[i], s[j]) {
      QuietPart(d, ins, i, j, end);
    }
    forall i: nat, addr: nat | i + 3 <= end && ReadOn(ins, i, addr) && Orderly(s[i])
      ensures ReadDone(s[i], s[i + 3], addr)
    {
      ReadPart(d, ins, i, addr, end);
    }
    forall i: nat, value: byte | i + 3 <= end && WriteOn(ins, i, value) && Orderly(s[i])
      ensures WriteDone(s[i], s[i + 3], value)
    {
      WritePart(d, ins, i, value, end);
    }
  }

  /** What a read and then a write leave. */
  predicate PairDone(c: Device, r: Device, e: Device, addr: nat, value: byte) {
    && Orderly(e) && SameWord(c, e) && e.reg2.hi == 0 && e.reg2.lo == value
    && (!Acknowledged(c) || !c.irq ==> e.irq == (c.irq && value % 2 == 0))
    && (addr == 0 ==> r.readSide.rdata == Reg0(c.demod.frame))
    && (addr == 8 ==> (Bit15(r.readSide.rdata) <==> c.reg2.hi >= 128))
  }

  lemma ReadThenWrite(c: Device, c1: Device, c2: Device, c3: Device, e: Device, addr: nat, value: byte)
    requires Kept(c, c1) && ReadDone(c1, c2, addr) && Kept(c2, c3) && WriteDone(c3, e, value)
    ensures PairDone(c, c2, e, addr, value)
  {
    Bit15IsInHighByte(c1.reg2.(bit31 := c1.irq));
  }

  lemma PairRuns(s: seq<Device>, ins: seq<Inputs>, end: nat, i: nat, j: nat, addr: nat, k: nat, value: byte)
    requires BusLaws(s, ins, end) && PairOn(ins, i, j, addr, k, value) && k + 3 <= end && Orderly(s[i])
    ensures PairDone(s[i], s[j + 3], s[k + 3], addr, value)
  {
    assert Kept(s[i], s[j]);
    assert ReadDone(s[j], s[j + 3], addr);
    assert Kept(s[j + 3], s[k]);
    assert WriteDone(s[k], s[k + 3], value);
    ReadThenWrite(s[i], s[j], s[j + 3], s[k], s[k + 3], addr, value);
  }

  /** The handler got slv_reg0, its wait loop ended with the first poll, and it left the line low and the next interrupt
      free; no word was published. */
  predicate HandlerDone(d: Device, t: Timing, s: seq<Device>) {
    && t.read + 3 < |s| && t.poll + 3 < |s| && t.release + 3 < |s|
    && s[t.read + 3].readSide.rdata == Reg0(d.demod.frame) && !Bit15(s[t.poll + 3].readSide.rdata)
    && var e := s[t.release + 3];
       Orderly(e) && SameWord(d, e) && !e.irq && !Acknowledged(e)
  }

  lemma TwoPairs(c: Device, r: Device, m: Device, p: Device, e: Device)
    requires PairDone(c, r, m, 0, 1) && PairDone(m, p, e, 8, 0) && !Acknowledged(c)
    ensures r.readSide.rdata == Reg0(c.demod.frame) && !Bit15(p.readSide.rdata)
    ensures Orderly(e) && SameWord(c, e) && !e.irq && !Acknowledged(e)
  {
  }

  lemma HandlerRuns(s: seq<Device>, t: Timing, ins: seq<Inputs>, end: nat)
    requires BusLaws(s, ins, end) && HandlerOn(t, ins, end) && Orderly(s[0]) && !Acknowledged(s[0])
    ensures HandlerDone(s[0], t, s)
  {
    PairRuns(s, ins, end, 0, t.read, 0, t.ack, 1);
    PairRuns(s, ins, end, t.ack + 3, t.poll, 8, t.release, 0);
    TwoPairs(s[0], s[t.read + 3], s[t.ack + 3], s[t.poll + 3], s[t.release + 3]);
  }

  lemma StatesStart(d: Device, ins: seq<Inputs>, end: nat)
    requires end <= |ins|
    ensures States(d, ins, end)[0] == d
  {
    assert ins[..0] == [];
  }

  /** Whenever its accesses come, with whatever signal as long as no word is published meanwhile, the handler does its
      work. */
  lemma HandlerServes(d: Device, t: Timing, ins: seq<Inputs>, end: nat)
    requires HandlerOn(t, ins, end) && Steady(d, true, ins[..end]) && Orderly(d) && !Acknowledged(d)
    ensures HandlerDone(d, t, States(d, ins, end))
  {
    LawsHold(d, ins, end);
    StatesStart(d, ins, end);
    HandlerRuns(States(d, ins, end), t, ins, end);
  }

  // ----- frames and pauses, with or without an interrupt to serve

  /** Between two frames. */
  predicate Settled(d: Device) {
    Orderly(d) && d.demod.counter == 0
  }

  /** Settled, no interrupt waiting and none held off: the next frame will be noticed. */
  predicate Ready(d: Device) {
    Settled(d) && !d.irq && !Acknowledged(d)
  }

  lemma HandlerInputsOn(t: Timing, wave: seq<bool>)
    requires Ordered(t, |wave|)
    ensures HandlerOn(t, HandlerInputs(t, wave), t.release + 3)
  {
    var ins := HandlerInputs(t, wave);
    assert PairOn(ins, 0, t.read, 0, t.ack, 1);
    assert PairOn(ins, t.ack + 3, t.poll, 8, t.release, 0);
  }

  lemma HandlerInputsEnd(t: Timing, wave: seq<bool>)
    requires Ordered(t, |wave|)
    ensures QuietOn(HandlerInputs(t, wave), t.release + 3, |wave|)
  {
  }

  /** The registers a frame writes, seen through the demodulator alone. */
  predicate SignalHolds(d: Demod, wave: seq<bool>, k: nat) {
    k <= |wave|
    && var f := Clocks(d, true, wave[..k]).frame;
       f.reg0 == d.frame.reg0 && f.reg1 == d.frame.reg1
  }

  lemma SteadyFromSignal(d: Device, ins: seq<Inputs>, end: nat)
    requires end <= |ins| && NoReset(ins) && forall k :: 0 <= k <= end ==> SignalHolds(d.demod, Signal(ins), k)
    ensures Steady(d, true, ins[..end])
  {
    forall k | 0 <= k <= end ensures SameWord(d, Run(d, true, ins[..end][..k])) {
      assert ins[..end][..k] == ins[..k] && Signal(ins[..k]) == Signal(ins)[..k];
      DemodIgnoresBus(d, true, ins[..k]);
      assert SignalHolds(d.demod, Signal(ins), k);
    }
  }

  /** The handler within a stretch of signal that publishes nothing before it is done. */
  lemma HandlerInStretch(d: Device, t: Timing, wave: seq<bool>)
    requires Orderly(d) && !Acknowledged(d) && Ordered(t, |wave|)
    requires forall k :: 0 <= k <= t.release + 3 ==> SignalHolds(d.demod, wave, k)
    ensures HandlerDone(d, t, States(d, HandlerInputs(t, wave), t.release + 3))
  {
    var ins := HandlerInputs(t, wave);
    HandlerInputsOn(t, wave);
    SteadyFromSignal(d, ins, t.release + 3);
    HandlerServes(d, t, ins, t.release + 3);
  }

  /** Idle clocks to the end of the stretch do not touch the acknowledge bit. */
  lemma {:induction false} QuietKeepsControl(d: Device, before: bool, ins: seq<Inputs>)
    requires BusIdle(d) && QuietOn(ins, 0, |ins|)
    ensures var e := Run(d, before, ins);
            BusIdle(e) && e.reg2.lo == d.reg2.lo
  {
    if ins != [] {
      var n := |ins| - 1;
      QuietKeepsControl(d, before, ins[..n]);
      RunSnoc(d, before, ins[..n], ins[n]);
      assert ins == ins[..n] + [ins[n]] && ins[n] == Quiet(ins[n].ir);
      QuietBusStep(Run(d, before, ins[..n]), LevelAfter(before, ins[..n]), ins[n].ir);
    }
  }

  lemma QuietBusStep(d: Device, before: bool, ir: bool)
    requires BusIdle(d)
    ensures BusIdle(Step(d, before, Quiet(ir))) && Step(d, before, Quiet(ir)).reg2.lo == d.reg2.lo
  {
  }

  lemma QuietUnacknowledged(d: Device, before: bool, ins: seq<Inputs>)
    requires BusIdle(d) && QuietOn(ins, 0, |ins|) && !Acknowledged(d)
    ensures Unacknowledged(d, before, ins) && !Acknowledged(Run(d, before, ins)) && BusIdle(Run(d, before, ins))
  {
    forall k | 0 <= k <= |ins| ensures !Acknowledged(Run(d, before, ins[..k])) && BusIdle(Run(d, before, ins[..k])) {
      QuietKeepsControl(d, before, ins[..k]);
    }
    assert ins[..|ins|] == ins;
  }

  /** What irq_handler reads from slv_reg0 during a stretch of signal. */
  function DataRead(d: Device, t: Timing, wave: seq<bool>): Option<nat> {
    if t.read + 3 <= |wave| then Run(d, true, HandlerInputs(t, wave)[..t.read + 3]).readSide.rdata else None
  }

  lemma DataReadIsState(d: Device, t: Timing, wave: seq<bool>)
    requires Ordered(t, |wave|)
    ensures DataRead(d, t, wave) == States(d, HandlerInputs(t, wave), t.release + 3)[t.read + 3].readSide.rdata
  {
  }

  /** A word arriving at a ready device interrupts exactly when slv_reg1 was known. */
  lemma FrameAtReadyDevice(d: Device, word: nat, ps: seq<Pulse>)
    requires Ready(d) && word < 4096 && RendersAll(ps, FrameOf(word))
    ensures var e := Run(d, true, QuietWave(Wave(ps)));
            && Settled(e) && !Acknowledged(e)
            && Reg0(e.demod.frame) == Some(word) && e.demod.frame.reg1 == Bump(d.demod.frame.reg1)
            && (e.irq <==> d.demod.frame.reg1.Some?)
  {
    QuietUnacknowledged(d, true, QuietWave(Wave(ps)));
    FrameInterrupts(d, QuietWave(Wave(ps)), word, ps);
  }

  /** The handler is done before the thirteenth pulse of the frame ends. */
  predicate InTime(t: Timing, wave: seq<bool>) {
    Ordered(t, |wave|) && |Pulses(wave[..t.release + 3], 0)| < 13
  }

  lemma FrameHolds(d: Demod, word: nat, ps: seq<Pulse>, end: nat)
    requires d.counter == 0 && RendersAll(ps, FrameOf(word)) && end <= |Wave(ps)|
    requires |Pulses(Wave(ps)[..end], 0)| < 13
    ensures forall k :: 0 <= k <= end ==> SignalHolds(d, Wave(ps), k)
  {
    var wave := Wave(ps);
    forall k | 0 <= k <= end ensures SignalHolds(d, wave, k) {
      PulsesPrefix(wave[..end], k, 0);
      assert wave[..end][..k] == wave[..k];
      RegistersHeldDuringFrame(d, word, ps, k);
    }
  }

  /** From the handler's end on nothing is acknowledged, so a word published in the rest interrupts. */
  lemma RestInterrupts(c: Device, before: bool, rest: seq<Inputs>)
    requires Orderly(c) && !Acknowledged(c) && c.demod.frame.reg1.Some? && QuietOn(rest, 0, |rest|)
    ensures var e := Run(c, before, rest);
            Orderly(e) && !Acknowledged(e) && (e.irq || e.demod.frame.reg1 == c.demod.frame.reg1)
  {
    QuietUnacknowledged(c, before, rest);
    CountChangeRaises(c, before, rest);
  }

  lemma SplitRun(d: Device, ins: seq<Inputs>, end: nat) returns (before: bool)
    requires end <= |ins|
    ensures Run(d, true, ins) == Run(States(d, ins, end)[end], before, ins[end..])
  {
    before := LevelAfter(true, ins[..end]);
    assert ins == ins[..end] + ins[end..];
    RunAppend(d, true, ins[..end], ins[end..]);
  }

  lemma QuietRest(ins: seq<Inputs>, end: nat)
    requires QuietOn(ins, end, |ins|)
    ensures QuietOn(ins[end..], 0, |ins[end..]|)
  {
  }

  lemma FrameEndsServing(d: Device, e: Device, c: Device, word: nat)
    requires d.demod.frame.reg1.Some? && SameWord(d, c) && Orderly(e) && !Acknowledged(e)
    requires e.irq || e.demod.frame.reg1 == c.demod.frame.reg1
    requires Reg0(e.demod.frame) == Some(word) && e.demod.frame.reg1 == Bump(d.demod.frame.reg1) && e.demod.counter == 0
    ensures Served(d, e, word)
  {
  }

  /** The next word has arrived and waits. */
  predicate Served(d: Device, e: Device, word: nat) {
    && Settled(e) && !Acknowledged(e) && e.irq
    && Reg0(e.demod.frame) == Some(word) && e.demod.frame.reg1 == Bump(d.demod.frame.reg1)
  }

  /** A word arriving while the handler still serves the one before: the handler gets the old word, and the new one
      interrupts. */
  lemma FrameWhileServing(d: Device, t: Timing, word: nat, ps: seq<Pulse>)
    requires Settled(d) && !Acknowledged(d) && d.demod.frame.reg1.Some?
    requires word < 4096 && RendersAll(ps, FrameOf(word)) && InTime(t, Wave(ps))
    ensures var ins := HandlerInputs(t, Wave(ps));
            HandlerDone(d, t, States(d, ins, t.release + 3)) && Served(d, Run(d, true, ins), word)
  {
    var end, ins := t.release + 3, HandlerInputs(t, Wave(ps));
    FrameHolds(d.demod, word, ps, end);
    HandlerInStretch(d, t, Wave(ps));
    HandlerInputsEnd(t, Wave(ps));
    ServedWithin(d, t, ins, word, ps);
  }

  lemma ServedWithin(d: Device, t: Timing, ins: seq<Inputs>, word: nat, ps: seq<Pulse>)
    requires Settled(d) && d.demod.frame.reg1.Some? && NoReset(ins) && Signal(ins) == Wave(ps)
    requires word < 4096 && RendersAll(ps, FrameOf(word)) && QuietOn(ins, t.release + 3, |ins|)
    requires HandlerDone(d, t, States(d, ins, t.release + 3))
    ensures Served(d, Run(d, true, ins), word)
  {
    var end := t.release + 3;
    var c := States(d, ins, end)[end];
    QuietRest(ins, end);
    var before := SplitRun(d, ins, end);
    RestInterrupts(c, before, ins[end..]);
    FrameDecodes(d, ins, word, ps);
    FrameEndsServing(d, Run(d, true, ins), c, word);
  }

  lemma PauseHolds(d: Demod, clocks: nat)
    requires d.counter == 0
    ensures var wave := Level(clocks, true);
            && (forall k :: 0 <= k <= |wave| ==> SignalHolds(d, wave, k))
            && Clocks(d, true, wave).counter == 0
  {
    var wave := Level(clocks, true);
    forall k | 0 <= k <= |wave| ensures SignalHolds(d, wave, k) {
      LevelPrefix(clocks, true, k);
      HighSignalIsSilent(d, k);
    }
    HighSignalIsSilent(d, clocks);
  }

  lemma RestIsSilent(d: Device, ins: seq<Inputs>, end: nat)
    requires QuietOn(ins, end, |ins|) && Steady(d, true, ins)
    requires var c := States(d, ins, end)[end];
             Orderly(c) && !c.irq && !Acknowledged(c)
    ensures var e := Run(d, true, ins);
            Orderly(e) && !e.irq && !Acknowledged(e) && SameWord(d, e)
  {
    assert ins[..|ins|] == ins;
    QuietPart(d, ins, end, |ins|, |ins|);
    assert SameWord(d, Run(d, true, ins[..end]));
  }

  lemma PauseDecodesNothing(d: Device, ins: seq<Inputs>, clocks: nat)
    requires NoReset(ins) && Signal(ins) == Level(clocks, true) && d.demod.counter == 0
    ensures Steady(d, true, ins) && Run(d, true, ins).demod.counter == 0
    ensures forall k :: 0 <= k <= |ins| ==> SignalHolds(d.demod, Signal(ins), k)
  {
    PauseHolds(d.demod, clocks);
    SteadyFromSignal(d, ins, |ins|);
    assert ins[..|ins|] == ins;
    DemodIgnoresBus(d, true, ins);
  }

  /** A pause long enough for the handler leaves the device ready. */
  lemma PauseWhileServing(d: Device, t: Timing, clocks: nat)
    requires Settled(d) && !Acknowledged(d) && Ordered(t, |Level(clocks, true)|)
    ensures var ins := HandlerInputs(t, Level(clocks, true));
            && HandlerDone(d, t, States(d, ins, t.release + 3))
            && Ready(Run(d, true, ins)) && SameWord(d, Run(d, true, ins))
  {
    var ins := HandlerInputs(t, Level(clocks, true));
    PauseHolds(d.demod, clocks);
    HandlerInStretch(d, t, Level(clocks, true));
    HandlerInputsEnd(t, Level(clocks, true));
    PausedWithin(d, t, ins, clocks);
  }

  lemma PausedWithin(d: Device, t: Timing, ins: seq<Inputs>, clocks: nat)
    requires Settled(d) && NoReset(ins) && Signal(ins) == Level(clocks, true) && QuietOn(ins, t.release + 3, |ins|)
    requires HandlerDone(d, t, States(d, ins, t.release + 3))
    ensures Ready(Run(d, true, ins)) && SameWord(d, Run(d, true, ins))
  {
    PauseDecodesNothing(d, ins, clocks);
    RestIsSilent(d, ins, t.release + 3);
  }

  /** A pause with nothing to serve changes nothing. */
  lemma QuietPause(d: Device, clocks: nat)
    requires Ready(d)
    ensures var e := Run(d, true, QuietWave(Level(clocks, true)));
            Ready(e) && SameWord(d, e)
  {
    var ins := QuietWave(Level(clocks, true));
    PauseDecodesNothing(d, ins, clocks);
    assert ins[..0] == [];
    StatesStart(d, ins, 0);
    RestIsSilent(d, ins, 0);
  }

  lemma ResetStep(d: Device, reset: Inputs)
    requires !reset.resetn && reset.ir
    ensures var e := Step(d, true, reset);
            && BusIdle(e) && !e.irq && !Acknowledged(e) && e.demod.counter == 0 && e.demod.state == OTHER
            && ControlValue(e.reg2) == 0 && e.readSide.rdata == Some(0) && e.readSide.araddr == e.writeSide.awaddr == 0
            && e.demod.frame == d.demod.frame && e.reg1Prev == d.reg1Prev
  {
  }

  lemma FirstQuietStep(d: Device)
    requires BusIdle(d) && !d.irq && !Acknowledged(d) && d.demod.counter == 0
    ensures var e := Step(d, true, Quiet(true));
            && Settled(e) && !Acknowledged(e) && (e.irq <==> Differ(d.demod.frame.reg1, d.reg1Prev))
            && e.demod.frame == d.demod.frame
  {
  }

  /** Reset with the signal high, then one idle clock, make a device ready unless its frame counter had changed
      unseen. */
  lemma ResetMakesReady(d: Device, reset: Inputs)
    requires !reset.resetn && reset.ir
    ensures var e := Run(d, true, [reset, Quiet(true)]);
            && (Ready(e) <==> !Differ(d.demod.frame.reg1, d.reg1Prev))
            && e.demod.frame == d.demod.frame
  {
    assert [reset, Quiet(true)] == [reset] + [Quiet(true)];
    RunSnoc(d, true, [reset], Quiet(true));
    RunOne(d, true, reset);
    ResetStep(d, reset);
    FirstQuietStep(Step(d, true, reset));
  }
}
