/** The whole AXI peripheral: demodulator, bus interface, control register and interrupt. */
module IrDevice {
  import opened Bytes
  import opened IrDecode
  import Channel = ResponseChannel
  import Latch = InterruptLatch
  import Register = RegisterByte

  /** What the peripheral samples at a clock edge. Of the write data only byte lanes 0 and 1 reach a register. */
  datatype Inputs = Inputs(
    resetn: bool, ir: bool,
    awvalid: bool, wvalid: bool, awaddr: nat, dataLo: byte, dataHi: byte, strbLo: bool, strbHi: bool, bready: bool,
    arvalid: bool, araddr: nat, rready: bool)

  datatype WriteSide = WriteSide(awready: bool, wready: bool, awaddr: nat, bvalid: bool)

  datatype ReadSide = ReadSide(arready: bool, araddr: nat, rvalid: bool, rdata: Option<nat>)

  /** slv_reg2: bit 31, bits 15..8 and bits 7..0; reset clears the rest and nothing sets it. */
  datatype Control = Control(bit31: bool, hi: byte, lo: byte)

  datatype Device = Device(
    demod: Demod, writeSide: WriteSide, readSide: ReadSide, irq: bool, reg1Prev: Option<nat>, reg2: Control)

  /** Address bits 3..2. */
  function Select(addr: nat): nat {
    addr / 4 % 4
  }

  function ControlValue(c: Control): nat {
    var hi: int, lo: int := c.hi, c.lo;
    (if c.bit31 then 0x8000_0000 else 0) + hi * 256 + lo
  }

  /** slv_reg3 is never written. */
  function ReadRegister(d: Device, addr: nat): Option<nat> {
    match Select(addr)
    case 0 => Reg0(d.demod.frame)
    case 1 => d.demod.frame.reg1
    case 2 => Some(ControlValue(d.reg2))
    case _ => None
  }

  predicate WriteAccepted(w: WriteSide, i: Inputs) {
    w.wready && i.wvalid && w.awready && i.awvalid
  }

  predicate ReadAccepted(r: ReadSide, i: Inputs) {
    r.arready && i.arvalid
  }

  function WriteTick(w: WriteSide, i: Inputs): WriteSide {
    if !i.resetn then WriteSide(false, false, 0, false)
    else
      WriteSide(!w.awready && i.awvalid && i.wvalid,
                !w.wready && i.wvalid && i.awvalid,
                if !w.awready && i.awvalid && i.wvalid then i.awaddr else w.awaddr,
                if WriteAccepted(w, i) && !w.bvalid then true else w.bvalid && !i.bready)
  }

  function ReadTick(r: ReadSide, i: Inputs, regOut: Option<nat>): ReadSide {
    if !i.resetn then ReadSide(false, 0, false, Some(0))
    else
      ReadSide(!r.arready && i.arvalid,
               if !r.arready && i.arvalid then i.araddr else r.araddr,
               if ReadAccepted(r, i) && !r.rvalid then true else r.rvalid && !i.rready,
               if ReadAccepted(r, i) && !r.rvalid then regOut else r.rdata)
  }

  function ControlTick(d: Device, i: Inputs): Control {
    if !i.resetn then Control(false, 0, 0)
    else
      var write := WriteAccepted(d.writeSide, i) && Select(d.writeSide.awaddr) == 2;
      Control(d.irq,
              if write && i.strbHi then i.dataHi else d.reg2.hi,
              if write && i.strbLo then i.dataLo else d.reg2.lo)
  }

  /** A comparison with an unknown register is unknown, and so not taken. */
  predicate Differ(a: Option<nat>, b: Option<nat>) {
    a.Some? && b.Some? && a != b
  }

  predicate Acknowledged(d: Device) {
    d.reg2.lo % 2 == 1
  }

  function IrqTick(d: Device, i: Inputs): bool {
    if !i.resetn || Acknowledged(d) then false
    else d.irq || Differ(d.demod.frame.reg1, d.reg1Prev)
  }

  /** The signal rises since the last clock. */
  function Rise(d: Device, before: bool, i: Inputs): Device {
    if i.ir && !before then d.(demod := d.demod.(frame := Edge(d.demod.frame, d.demod.state))) else d
  }

  function ClockEdge(d: Device, i: Inputs): Device {
    Device(Tick(d.demod, i.resetn, i.ir), WriteTick(d.writeSide, i),
           ReadTick(d.readSide, i, ReadRegister(d, d.readSide.araddr)), IrqTick(d, i),
           if i.resetn then d.demod.frame.reg1 else d.reg1Prev, ControlTick(d, i))
  }

  function Step(d: Device, before: bool, i: Inputs): Device {
    ClockEdge(Rise(d, before, i), i)
  }

  function LevelAfter(before: bool, ins: seq<Inputs>): bool {
    if ins == [] then before else ins[|ins| - 1].ir
  }

  function Run(d: Device, before: bool, ins: seq<Inputs>): Device {
    if ins == [] then d
    else var n := |ins| - 1; Step(Run(d, before, ins[..n]), LevelAfter(before, ins[..n]), ins[n])
  }

  predicate NoReset(ins: seq<Inputs>) {
    forall k :: 0 <= k < |ins| ==> ins[k].resetn
  }

  lemma LevelAppend(before: bool, xs: seq<Inputs>, ys: seq<Inputs>)
    ensures LevelAfter(before, xs + ys) == LevelAfter(LevelAfter(before, xs), ys)
  {
    if ys == [] {
      assert xs + ys == xs;
    }
  }

  lemma RunSnoc(d: Device, before: bool, init: seq<Inputs>, i: Inputs)
    ensures Run(d, before, init + [i]) == Step(Run(d, before, init), LevelAfter(before, init), i)
  {
    assert (init + [i])[..|init|] == init;
  }

  lemma {:induction false} RunAppend(d: Device, before: bool, xs: seq<Inputs>, ys: seq<Inputs>)
    ensures Run(d, before, xs + ys) == Run(Run(d, before, xs), LevelAfter(before, xs), ys)
    decreases |ys|
  {
    if ys == [] {
      assert xs + ys == xs;
    } else {
      var init, y := ys[..|ys| - 1], ys[|ys| - 1];
      var longer := xs + init;
      assert ys == init + [y] && xs + ys == longer + [y];
      RunAppend(d, before, xs, init);
      LevelAppend(before, xs, init);
      RunSnoc(d, before, longer, y);
      RunSnoc(Run(d, before, xs), LevelAfter(before, xs), init, y);
    }
  }

  lemma RunOne(d: Device, before: bool, i: Inputs)
    ensures Run(d, before, [i]) == Step(d, before, i)
  {
    assert [i][..0] == [];
  }

  // ----- the bus

  function WriteClocks(d: Device, before: bool, ins: seq<Inputs>): seq<Channel.Clock> {
    if ins == [] then []
    else
      var n := |ins| - 1;
      WriteClocks(d, before, ins[..n])
      + [Channel.Clock(WriteAccepted(Run(d, before, ins[..n]).writeSide, ins[n]), ins[n].bready)]
  }

  function ReadClocks(d: Device, before: bool, ins: seq<Inputs>): seq<Channel.Clock> {
    if ins == [] then []
    else
      var n := |ins| - 1;
      ReadClocks(d, before, ins[..n])
      + [Channel.Clock(ReadAccepted(Run(d, before, ins[..n]).readSide, ins[n]), ins[n].rready)]
  }

  lemma {:induction false} BusIsTwoChannels(d: Device, before: bool, ins: seq<Inputs>)
    requires NoReset(ins)
    ensures Run(d, before, ins).writeSide.bvalid == Channel.ValidAfter(d.writeSide.bvalid, WriteClocks(d, before, ins))
    ensures Run(d, before, ins).readSide.rvalid == Channel.ValidAfter(d.readSide.rvalid, ReadClocks(d, before, ins))
  {
    if ins != [] {
      var n := |ins| - 1;
      BusIsTwoChannels(d, before, ins[..n]);
      var w, r := WriteClocks(d, before, ins), ReadClocks(d, before, ins);
      assert w[..|w| - 1] == WriteClocks(d, before, ins[..n]);
      assert r[..|r| - 1] == ReadClocks(d, before, ins[..n]);
    }
  }

  /** Over every run from an idle bus: accepted = answered + pending on both channels exactly when the master never has
      a request accepted over a waiting response. */
  lemma TransactionsConserved(d: Device, before: bool, ins: seq<Inputs>)
    requires NoReset(ins) && !d.writeSide.bvalid && !d.readSide.rvalid
    ensures var w, r := WriteClocks(d, before, ins), ReadClocks(d, before, ins);
            var e := Run(d, before, ins);
            && (Channel.Accepted(w) == Channel.Completed(false, w) + Channel.Count(e.writeSide.bvalid)
                <==> Channel.Overlapped(false, w) == 0)
            && (Channel.Accepted(r) == Channel.Completed(false, r) + Channel.Count(e.readSide.rvalid)
                <==> Channel.Overlapped(false, r) == 0)
  {
    BusIsTwoChannels(d, before, ins);
    Channel.RequestsConserved(false, WriteClocks(d, before, ins));
    Channel.RequestsConserved(false, ReadClocks(d, before, ins));
  }

  lemma {:induction false} ClocksReady(d: Device, before: bool, ins: seq<Inputs>)
    ensures var w, r := WriteClocks(d, before, ins), ReadClocks(d, before, ins);
            && |w| == |r| == |ins|
            && forall k :: 0 <= k < |ins| ==> w[k].ready == ins[k].bready && r[k].ready == ins[k].rready
  {
    if ins != [] {
      ClocksReady(d, before, ins[..|ins| - 1]);
    }
  }

  /** BVALID, once high, stays high through any run in which the master does not take the response. */
  lemma WriteResponseHeld(d: Device, before: bool, ins: seq<Inputs>)
    requires NoReset(ins) && d.writeSide.bvalid && forall k :: 0 <= k < |ins| ==> !ins[k].bready
    ensures Run(d, before, ins).writeSide.bvalid
  {
    BusIsTwoChannels(d, before, ins);
    ClocksReady(d, before, ins);
    Channel.ResponseHeld(true, WriteClocks(d, before, ins));
  }

  /** The same for RVALID. */
  lemma ReadResponseHeld(d: Device, before: bool, ins: seq<Inputs>)
    requires NoReset(ins) && d.readSide.rvalid && forall k :: 0 <= k < |ins| ==> !ins[k].rready
    ensures Run(d, before, ins).readSide.rvalid
  {
    BusIsTwoChannels(d, before, ins);
    ClocksReady(d, before, ins);
    Channel.ResponseHeld(true, ReadClocks(d, before, ins));
  }

  /** A master with one transaction outstanding: it offers nothing while a response of that kind waits. */
  predicate Patient(d: Device, before: bool, ins: seq<Inputs>) {
    forall k :: 0 <= k < |ins| ==>
      && (Run(d, before, ins[..k]).writeSide.bvalid ==> !(ins[k].awvalid && ins[k].wvalid))
      && (Run(d, before, ins[..k]).readSide.rvalid ==> !ins[k].arvalid)
  }

  lemma PatientPrefix(d: Device, before: bool, ins: seq<Inputs>)
    requires ins != [] && Patient(d, before, ins)
    ensures Patient(d, before, ins[..|ins| - 1])
  {
    var n := |ins| - 1;
    forall k | 0 <= k < n ensures ins[..n][..k] == ins[..k] {
    }
  }

  lemma {:induction false} PatientNeverOverlaps(d: Device, before: bool, ins: seq<Inputs>)
    requires NoReset(ins) && !d.writeSide.bvalid && !d.readSide.rvalid && Patient(d, before, ins)
    ensures Channel.Overlapped(false, WriteClocks(d, before, ins)) == 0
    ensures Channel.Overlapped(false, ReadClocks(d, before, ins)) == 0
  {
    if ins != [] {
      var n := |ins| - 1;
      PatientPrefix(d, before, ins);
      PatientNeverOverlaps(d, before, ins[..n]);
      BusIsTwoChannels(d, before, ins[..n]);
      var w, r := WriteClocks(d, before, ins), ReadClocks(d, before, ins);
      assert w[..|w| - 1] == WriteClocks(d, before, ins[..n]);
      assert r[..|r| - 1] == ReadClocks(d, before, ins[..n]);
    }
  }

  /** Such a master loses nothing: every request accepted is answered or is the one pending. */
  lemma PatientMasterConserves(d: Device, before: bool, ins: seq<Inputs>)
    requires NoReset(ins) && !d.writeSide.bvalid && !d.readSide.rvalid && Patient(d, before, ins)
    ensures var w, r := WriteClocks(d, before, ins), ReadClocks(d, before, ins);
            var e := Run(d, before, ins);
            && Channel.Accepted(w) == Channel.Completed(false, w) + Channel.Count(e.writeSide.bvalid)
            && Channel.Accepted(r) == Channel.Completed(false, r) + Channel.Count(e.readSide.rvalid)
  {
    PatientNeverOverlaps(d, before, ins);
    TransactionsConserved(d, before, ins);
  }

  /** A master that keeps writing without taking responses does lose one: two writes accepted, one response. */
  lemma EagerMasterLosesResponse(d: Device, before: bool, i: Inputs)
    requires i.resetn && i.awvalid && i.wvalid && !i.bready
    requires !d.writeSide.awready && !d.writeSide.wready && !d.writeSide.bvalid
    ensures var w := WriteClocks(d, before, [i, i, i, i]);
            w == [Channel.Clock(false, false), Channel.Clock(true, false),
                  Channel.Clock(false, false), Channel.Clock(true, false)]
            && Channel.Accepted(w) == 2 && Channel.Completed(false, w) == 0 && Channel.Overlapped(false, w) == 1
  {
    Channel.SecondRequestOverlaps();
    var s0, s1, s2, s3: seq<Inputs> := [], [i], [i, i], [i, i, i];
    var s4 := [i, i, i, i];
    assert s1[..0] == s0 && s2[..1] == s1 && s3[..2] == s2 && s4[..3] == s3;
    var c0, c1 := Channel.Clock(false, false), Channel.Clock(true, false);
    assert Run(d, before, s1).writeSide.awready && !Run(d, before, s1).writeSide.bvalid;
    assert WriteClocks(d, before, s1) == [c0];
    assert !Run(d, before, s2).writeSide.awready && Run(d, before, s2).writeSide.bvalid;
    assert WriteClocks(d, before, s2) == [c0, c1];
    assert Run(d, before, s3).writeSide.awready && Run(d, before, s3).writeSide.bvalid;
    assert WriteClocks(d, before, s3) == [c0, c1, c0];
    assert WriteClocks(d, before, s4) == [c0, c1, c0, c1];
  }

  /** After reset the two write-ready lines never differ, so address and data are taken together. */
  lemma {:induction false} ReadyTogether(d: Device, before: bool, ins: seq<Inputs>)
    requires d.writeSide.awready == d.writeSide.wready || (ins != [] && !ins[0].resetn)
    ensures ins != [] || d.writeSide.awready == d.writeSide.wready ==>
              Run(d, before, ins).writeSide.awready == Run(d, before, ins).writeSide.wready
  {
    if |ins| > 1 {
      ReadyTogether(d, before, ins[..|ins| - 1]);
    }
  }

  /** A read taken on a free channel delivers the register as it was in that clock, and goes on delivering it, whatever
      happens to the registers, until the master takes it. */
  lemma {:induction false} ReadReturnsAcceptedValue(d: Device, before: bool, i: Inputs, later: seq<Inputs>)
    requires i.resetn && NoReset(later) && ReadAccepted(d.readSide, i) && !d.readSide.rvalid
    requires forall k :: 0 <= k < |later| ==> !later[k].rready
    ensures var e := Run(Step(d, before, i), i.ir, later).readSide;
            e.rvalid && e.rdata == ReadRegister(Rise(d, before, i), d.readSide.araddr)
  {
    if later != [] {
      ReadReturnsAcceptedValue(d, before, i, later[..|later| - 1]);
    }
  }

  /** Reads over a whole run: if after the clocks `ins` a read is accepted on a free channel, then from that clock until
      the master takes it the response is the register at the address offered in the clock before. */
  lemma ReadAnswersOffer(d: Device, before: bool, ins: seq<Inputs>, i: Inputs, later: seq<Inputs>)
    requires ins != [] && NoReset(ins + [i] + later)
    requires ReadAccepted(Run(d, before, ins).readSide, i) && !Run(d, before, ins).readSide.rvalid
    requires forall k :: 0 <= k < |later| ==> !later[k].rready
    ensures var e, offer := Run(d, before, ins + [i] + later).readSide, ins[|ins| - 1];
            && offer.arvalid && e.rvalid
            && e.rdata == ReadRegister(Rise(Run(d, before, ins), offer.ir, i), offer.araddr)
  {
    var all := ins + [i] + later;
    assert all[|ins|] == i && forall k :: 0 <= k < |later| ==> all[|ins| + 1 + k] == later[k];
    assert all[|ins| - 1] == ins[|ins| - 1];
    var c := Run(d, before, ins);
    RunAppend(d, before, ins + [i], later);
    RunAppend(d, before, ins, [i]);
    RunOne(c, LevelAfter(before, ins), i);
    assert LevelAfter(before, ins + [i]) == i.ir;
    ReadReturnsAcceptedValue(c, LevelAfter(before, ins), i, later);
  }

  // ----- the register map in numbers

  /** Addresses 0 to 3 are slv_reg0, 4 to 7 slv_reg1, 8 to 11 slv_reg2 (bit 31, then the two low bytes), and so on round
      every sixteen; slv_reg3 is never written. */
  lemma RegisterMap(d: Device, addr: nat)
    ensures var r, a := ReadRegister(d, addr), addr % 16;
            && (a < 4 ==> r == Reg0(d.demod.frame))
            && (4 <= a < 8 ==> r == d.demod.frame.reg1)
            && (8 <= a < 12 ==> r.Some? && r.value / 0x8000_0000 == Channel.Count(d.reg2.bit31)
                                && r.value % 0x8000_0000 == d.reg2.hi as int * 256 + d.reg2.lo as int)
            && (12 <= a ==> r == None)
  {
    AddressBits(addr);
  }

  lemma AddressBits(addr: nat)
    ensures Select(addr) == addr % 16 / 4
  {
    ModUnique(addr / 4, 4, addr / 16, addr % 16 / 4);
  }

  /** An accepted write to slv_reg2. */
  predicate WritesControl(d: Device, i: Inputs) {
    WriteAccepted(d.writeSide, i) && 8 <= d.writeSide.awaddr % 16 < 12
  }

  /** What a clock does to the low byte of slv_reg2: reset clears it, a write with its lane strobed sets it. */
  function LowClock(d: Device, i: Inputs): Register.Clock {
    Register.Clock(!i.resetn || (WritesControl(d, i) && i.strbLo), if i.resetn then i.dataLo else 0)
  }

  function HighClock(d: Device, i: Inputs): Register.Clock {
    Register.Clock(!i.resetn || (WritesControl(d, i) && i.strbHi), if i.resetn then i.dataHi else 0)
  }

  lemma ControlStep(d: Device, before: bool, i: Inputs)
    ensures var e, low, high := Step(d, before, i).reg2, LowClock(d, i), HighClock(d, i);
            && e.lo == (if low.writes then low.data else d.reg2.lo)
            && e.hi == (if high.writes then high.data else d.reg2.hi)
  {
    AddressBits(d.writeSide.awaddr);
  }

  function LowClocks(d: Device, before: bool, ins: seq<Inputs>): (r: seq<Register.Clock>)
    ensures |r| == |ins|
  {
    if ins == [] then []
    else var n := |ins| - 1; LowClocks(d, before, ins[..n]) + [LowClock(Run(d, before, ins[..n]), ins[n])]
  }

  function HighClocks(d: Device, before: bool, ins: seq<Inputs>): (r: seq<Register.Clock>)
    ensures |r| == |ins|
  {
    if ins == [] then []
    else var n := |ins| - 1; HighClocks(d, before, ins[..n]) + [HighClock(Run(d, before, ins[..n]), ins[n])]
  }

  lemma {:induction false} ControlIsTwoBytes(d: Device, before: bool, ins: seq<Inputs>)
    ensures Run(d, before, ins).reg2.lo == Register.After(d.reg2.lo, LowClocks(d, before, ins))
    ensures Run(d, before, ins).reg2.hi == Register.After(d.reg2.hi, HighClocks(d, before, ins))
  {
    if ins != [] {
      var n := |ins| - 1;
      ControlIsTwoBytes(d, before, ins[..n]);
      ControlStep(Run(d, before, ins[..n]), LevelAfter(before, ins[..n]), ins[n]);
      var l, h := LowClocks(d, before, ins), HighClocks(d, before, ins);
      assert l[..n] == LowClocks(d, before, ins[..n]) && h[..n] == HighClocks(d, before, ins[..n]);
    }
  }

  /** Over every run each low byte of slv_reg2 holds the data of the last accepted write to addresses 8 to 11 with its
      lane strobed (or 0 from a later reset), and what it held before when there was none; nothing else changes it. */
  lemma ControlHoldsLastWritten(d: Device, before: bool, ins: seq<Inputs>)
    ensures var l, h := LowClocks(d, before, ins), HighClocks(d, before, ins);
            var e := Run(d, before, ins).reg2;
            && (forall k: nat :: Register.LastWrite(l, k) ==> e.lo == l[k].data)
            && (forall k: nat :: Register.LastWrite(h, k) ==> e.hi == h[k].data)
            && ((forall k :: 0 <= k < |l| ==> !l[k].writes) ==> e.lo == d.reg2.lo)
            && ((forall k :: 0 <= k < |h| ==> !h[k].writes) ==> e.hi == d.reg2.hi)
  {
    ControlIsTwoBytes(d, before, ins);
    Register.HoldsLastWritten(d.reg2.lo, LowClocks(d, before, ins));
    Register.HoldsLastWritten(d.reg2.hi, HighClocks(d, before, ins));
  }

  // ----- the interrupt

  /** What a clock does to the latch: reset and the acknowledge bit clear it, a change of slv_reg1 raises it. */
  function LatchClock(d: Device, before: bool, i: Inputs): Latch.Clock {
    Latch.Clock(Differ(Rise(d, before, i).demod.frame.reg1, d.reg1Prev), !i.resetn || Acknowledged(d))
  }

  function LatchClocks(d: Device, before: bool, ins: seq<Inputs>): (r: seq<Latch.Clock>)
    ensures |r| == |ins|
  {
    if ins == [] then []
    else
      var n := |ins| - 1;
      LatchClocks(d, before, ins[..n]) + [LatchClock(Run(d, before, ins[..n]), LevelAfter(before, ins[..n]), ins[n])]
  }

  lemma IrqIsLatch(d: Device, before: bool, i: Inputs)
    ensures var c := LatchClock(d, before, i);
            Step(d, before, i).irq == (!c.clears && (d.irq || c.raises))
  {
  }

  lemma {:induction false} RunIsLatch(d: Device, before: bool, ins: seq<Inputs>)
    ensures Run(d, before, ins).irq == Latch.Level(d.irq, LatchClocks(d, before, ins))
  {
    if ins != [] {
      var n := |ins| - 1;
      RunIsLatch(d, before, ins[..n]);
      IrqIsLatch(Run(d, before, ins[..n]), LevelAfter(before, ins[..n]), ins[n]);
      var cs := LatchClocks(d, before, ins);
      assert cs[..n] == LatchClocks(d, before, ins[..n]);
    }
  }

  /** Over every run, the line is high exactly when some clock saw slv_reg1 change (or the line was high at the start)
      and no clock from then on saw the acknowledge bit or reset. */
  lemma InterruptExactly(d: Device, before: bool, ins: seq<Inputs>)
    ensures var cs := LatchClocks(d, before, ins);
            Run(d, before, ins).irq <==>
              (exists t :: Latch.RaisedAndKept(cs, t)) || (d.irq && forall u :: 0 <= u < |cs| ==> !cs[u].clears)
  {
    RunIsLatch(d, before, ins);
    Latch.LevelExactly(d.irq, LatchClocks(d, before, ins));
  }

  /** Bit 31 of slv_reg2 after any run, whatever the bus wrote: high exactly when the line was high one clock before,
      that is when some clock but the last raised it and no clock but the last has cleared it since. */
  lemma StatusBitFollowsInterrupt(d: Device, before: bool, ins: seq<Inputs>)
    requires ins != [] && ins[|ins| - 1].resetn
    ensures var n := |ins| - 1;
            var cs := LatchClocks(d, before, ins[..n]);
            ControlValue(Run(d, before, ins).reg2) >= 0x8000_0000 <==>
              (exists t :: Latch.RaisedAndKept(cs, t)) || (d.irq && forall u :: 0 <= u < |cs| ==> !cs[u].clears)
  {
    InterruptExactly(d, before, ins[..|ins| - 1]);
  }

  /** The driver's acknowledgement: once a write sets bit 0, the next clock drops the line, and no second write can
      take the bit back before it has. */
  lemma AcknowledgeClears(d: Device, before: bool, i: Inputs, j: Inputs)
    requires i.resetn && j.resetn && d.writeSide.awready == d.writeSide.wready
    requires WriteAccepted(d.writeSide, i) && Select(d.writeSide.awaddr) == 2 && i.strbLo && i.dataLo % 2 == 1
    ensures var e := Run(d, before, [i, j]);
            !e.irq && Acknowledged(e)
  {
    assert [i, j][..1] == [i] && [i][..0] == [];
    assert Run(d, before, [i]) == Step(d, before, i);
    assert Run(d, before, [i, j]) == Step(Step(d, before, i), i.ir, j);
  }

  // ----- a frame on the wire, with the bus in use

  function Signal(ins: seq<Inputs>): seq<bool> {
    seq(|ins|, k requires 0 <= k < |ins| => ins[k].ir)
  }

  lemma SignalLast(before: bool, ins: seq<Inputs>)
    requires ins != []
    ensures var n := |ins| - 1;
            var wave := Signal(ins[..n]);
            && Signal(ins) == wave + [ins[n].ir]
            && LevelAfter(before, ins[..n]) == if wave == [] then before else wave[|wave| - 1]
  {
  }

  lemma {:induction false} ClocksAppend(d: Demod, before: bool, wave: seq<bool>, x: bool)
    ensures Clocks(d, before, wave + [x])
            == Cycle(Clocks(d, before, wave), if wave == [] then before else wave[|wave| - 1], true, x)
    decreases |wave|
  {
    if wave == [] {
      assert (wave + [x])[1..] == [];
    } else {
      assert (wave + [x])[1..] == wave[1..] + [x];
      ClocksAppend(Cycle(d, before, true, wave[0]), wave[0], wave[1..], x);
    }
  }

  lemma DemodStep(d: Device, before: bool, i: Inputs)
    ensures Step(d, before, i).demod == Cycle(d.demod, before, i.resetn, i.ir)
  {
  }

  /** The demodulator does not see the bus. */
  lemma {:induction false} DemodIgnoresBus(d: Device, before: bool, ins: seq<Inputs>)
    requires NoReset(ins)
    ensures Run(d, before, ins).demod == Clocks(d.demod, before, Signal(ins))
  {
    if ins != [] {
      var n := |ins| - 1;
      DemodIgnoresBus(d, before, ins[..n]);
      SignalLast(before, ins);
      DemodStep(Run(d, before, ins[..n]), LevelAfter(before, ins[..n]), ins[n]);
      ClocksAppend(d.demod, before, Signal(ins[..n]), ins[n].ir);
    }
  }

  lemma EdgeKeepsCountKnown(f: Frame, c: Class)
    ensures f.reg1.Some? ==> Edge(f, c).reg1.Some?
  {
  }

  predicate Unacknowledged(d: Device, before: bool, ins: seq<Inputs>) {
    forall k :: 0 <= k < |ins| ==> !Acknowledged(Run(d, before, ins[..k]))
  }

  lemma UnacknowledgedPrefix(d: Device, before: bool, ins: seq<Inputs>)
    requires ins != [] && Unacknowledged(d, before, ins)
    ensures Unacknowledged(d, before, ins[..|ins| - 1])
  {
    var n := |ins| - 1;
    forall k | 0 <= k < n ensures !Acknowledged(Run(d, before, ins[..n][..k])) {
      assert ins[..n][..k] == ins[..k];
    }
  }

  /** While nothing acknowledges or resets, a line that is high stays high, and any change of a known frame counter
      leaves it high. */
  lemma {:induction false} CountChangeRaises(d: Device, before: bool, ins: seq<Inputs>)
    requires NoReset(ins) && d.reg1Prev == d.demod.frame.reg1 && Unacknowledged(d, before, ins)
    ensures var e := Run(d, before, ins);
            && e.reg1Prev == e.demod.frame.reg1 && (d.irq ==> e.irq)
            && (d.demod.frame.reg1.Some? ==>
                  e.demod.frame.reg1.Some? && (e.irq || e.demod.frame.reg1 == d.demod.frame.reg1))
  {
    if ins != [] {
      UnacknowledgedPrefix(d, before, ins);
      CountChangeRaises(d, before, ins[..|ins| - 1]);
      var e := Run(d, before, ins[..|ins| - 1]);
      EdgeKeepsCountKnown(e.demod.frame, e.demod.state);
    }
  }

  predicate CountAtMostOne(d: Device) {
    d.demod.frame.reg1 == None || d.demod.frame.reg1 == Some(1)
  }

  lemma SilentStep(d: Device, before: bool, i: Inputs)
    requires i.resetn && !d.irq && d.reg1Prev == d.demod.frame.reg1
    requires CountAtMostOne(d) && CountAtMostOne(Step(d, before, i))
    ensures !Step(d, before, i).irq && Step(d, before, i).reg1Prev == Step(d, before, i).demod.frame.reg1
  {
  }

  /** The line stays low as long as the frame counter goes no further than from unknown to 1. */
  lemma {:induction false} UnknownCountIsSilent(d: Device, before: bool, ins: seq<Inputs>, n: nat)
    requires NoReset(ins) && n <= |ins| && !d.irq && d.reg1Prev == d.demod.frame.reg1
    requires forall k :: 0 <= k <= |ins| ==> CountAtMostOne(Run(d, before, ins[..k]))
    ensures var e := Run(d, before, ins[..n]);
            !e.irq && e.reg1Prev == e.demod.frame.reg1
  {
    if n > 0 {
      UnknownCountIsSilent(d, before, ins, n - 1);
      var init, i := ins[..n - 1], ins[n - 1];
      assert ins[..n] == init + [i];
      RunSnoc(d, before, init, i);
      SilentStep(Run(d, before, init), LevelAfter(before, init), i);
    }
  }

  lemma FirstWordIsSilent(d: Device, ins: seq<Inputs>, word: nat, ps: seq<Pulse>)
    requires NoReset(ins) && Signal(ins) == Wave(ps)
    requires d.demod.counter == 0 && word < 4096 && RendersAll(ps, FrameOf(word))
    requires d.reg1Prev == d.demod.frame.reg1 == None && !d.irq
    ensures !Run(d, true, ins).irq
  {
    forall k | 0 <= k <= |ins| ensures CountAtMostOne(Run(d, true, ins[..k])) {
      assert Signal(ins[..k]) == Wave(ps)[..k];
      DemodIgnoresBus(d, true, ins[..k]);
      CountDuringFrame(d.demod, word, ps, k);
    }
    UnknownCountIsSilent(d, true, ins, |ins|);
    assert ins[..|ins|] == ins;
  }

  /** Whatever the bus does, a rendered word is decoded. */
  lemma FrameDecodes(d: Device, ins: seq<Inputs>, word: nat, ps: seq<Pulse>)
    requires NoReset(ins) && Signal(ins) == Wave(ps)
    requires d.demod.counter == 0 && word < 4096 && RendersAll(ps, FrameOf(word))
    ensures var e := Run(d, true, ins).demod;
            Reg0(e.frame) == Some(word) && e.frame.reg1 == Bump(d.demod.frame.reg1) && e.counter == 0
  {
    DemodIgnoresBus(d, true, ins);
    RoundTrip(d.demod, word, ps);
  }

  /** The round trip on the whole peripheral: a waveform rendering a word, under any bus traffic that does not
      acknowledge, leaves the word in slv_reg0 and slv_reg1 one higher, and ends with the interrupt raised exactly when
      it already was or slv_reg1 held a known count before. */
  lemma FrameInterrupts(d: Device, ins: seq<Inputs>, word: nat, ps: seq<Pulse>)
    requires NoReset(ins) && Signal(ins) == Wave(ps)
    requires d.demod.counter == 0 && word < 4096 && RendersAll(ps, FrameOf(word))
    requires d.reg1Prev == d.demod.frame.reg1 && Unacknowledged(d, true, ins)
    ensures var e := Run(d, true, ins);
            && Reg0(e.demod.frame) == Some(word) && e.demod.frame.reg1 == Bump(d.demod.frame.reg1)
            && (e.irq <==> d.irq || d.demod.frame.reg1.Some?)
            && e.demod.counter == 0 && e.reg1Prev == e.demod.frame.reg1
  {
    FrameDecodes(d, ins, word, ps);
    CountChangeRaises(d, true, ins);
    if !d.irq && d.demod.frame.reg1 == None {
      FirstWordIsSilent(d, ins, word, ps);
    }
  }

  /** slv_reg1 has no reset, so from power-up (count and remembered count unknown, anything else arbitrary) through
      reset the first word is published without an interrupt; any second word does raise it. */
  lemma FirstWordAfterPowerUp(d: Device, reset: Inputs, first: seq<Inputs>, word: nat, ps: seq<Pulse>,
                              second: seq<Inputs>, word2: nat, qs: seq<Pulse>)
    requires d.demod.frame.reg1 == None && d.reg1Prev == None && !reset.resetn && reset.ir
    requires NoReset(first) && Signal(first) == Wave(ps) && word < 4096 && RendersAll(ps, FrameOf(word))
    requires NoReset(second) && Signal(second) == Wave(qs) && word2 < 4096 && RendersAll(qs, FrameOf(word2))
    requires Unacknowledged(Step(d, true, reset), true, first)
    requires Unacknowledged(Run(Step(d, true, reset), true, first), true, second)
    ensures var e := Run(d, true, [reset] + first);
            && Reg0(e.demod.frame) == Some(word) && e.demod.frame.reg1 == Some(1) && !e.irq
            && Reg0(Run(e, true, second).demod.frame) == Some(word2) && Run(e, true, second).irq
  {
    var c := Step(d, true, reset);
    RunAppend(d, true, [reset], first);
    RunOne(d, true, reset);
    FrameInterrupts(c, first, word, ps);
    FrameInterrupts(Run(c, true, first), second, word2, qs);
  }
}
