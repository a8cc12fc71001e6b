/** The peripheral's registers as a clocked object, and the processor's accesses to it. */
module IrPeripheral {
  import opened Bytes
  import opened IrDecode
  import opened IrDevice
  import opened IrHandler
  import Channel = ResponseChannel
  import Latch = InterruptLatch

  class Peripheral {
    var irSignal: bool
    var pulseLengthCounter: nat
    var state: Class
    var frame: Frame
    var irq: bool
    var reg1Prev: Option<nat>
    var reg2: Control
    var writeSide: WriteSide
    var readSide: ReadSide

    ghost function Registers(): Device
      reads this
    {
      Device(Demod(pulseLengthCounter, state, frame), writeSide, readSide, irq, reg1Prev, reg2)
    }

    /** Power-up: the registers without reset are unknown, the others hold anything. */
    constructor (d: Device, irSignal: bool)
      ensures Registers() == d && this.irSignal == irSignal
    {
      this.irSignal := irSignal;
      pulseLengthCounter, state, frame := d.demod.counter, d.demod.state, d.demod.frame;
      irq, reg1Prev, reg2, writeSide, readSide := d.irq, d.reg1Prev, d.reg2, d.writeSide, d.readSide;
    }

    /** One clock period: the block on the rising signal, then the clocked blocks. */
    method Period(i: Inputs)
      modifies this
      ensures Registers() == Step(old(Registers()), old(irSignal), i) && irSignal == i.ir
    {
      if i.ir && !irSignal {
        SignalRises();
      }
      ghost var risen := Registers();
      assert risen == Rise(old(Registers()), old(irSignal), i);
      irSignal := i.ir;
      ClockRises(i);
    }

    /** Every clocked block, run one after another, comes to all of them reading the values before the clock. */
    method ClockRises(i: Inputs)
      modifies this`pulseLengthCounter, this`state, this`irq, this`reg1Prev, this`reg2, this`writeSide, this`readSide
      ensures Registers() == ClockEdge(old(Registers()), i)
    {
      if i.resetn {
        var wren := writeSide.wready && i.wvalid && writeSide.awready && i.awvalid;
        ClockReadSide(i);
        ClockControl(i, wren);
        ClockWriteSide(i, wren);
        state := Classify(pulseLengthCounter);
        pulseLengthCounter := if i.ir then 0 else (pulseLengthCounter + 1) % WORD32;
      } else {
        pulseLengthCounter, state := 0, OTHER;
        writeSide, readSide := WriteSide(false, false, 0, false), ReadSide(false, 0, false, Some(0));
        irq, reg2 := false, Control(false, 0, 0);
      }
    }

    method SignalRises()
      modifies this`frame
      ensures frame == Edge(old(frame), state)
    {
      var idx := frame.pulseIdx;
      if state == START {
        frame := frame.(temp := Zeros(12), pulseIdx := Some(0));
      } else if state == OTHER {
        frame := frame.(pulseIdx := Some(15));
      } else if idx.Some? && idx.value < 11 {
        frame := frame.(temp := frame.temp[idx.value := state == LEN1], pulseIdx := Some(idx.value + 1));
      } else if idx == Some(11) {
        frame := frame.(reg0 := Some(Latched(frame.temp, state == LEN1)), reg1 := Bump(frame.reg1));
      }
    }

    method ClockControl(i: Inputs, wren: bool)
      requires i.resetn && wren == WriteAccepted(writeSide, i)
      modifies this`irq, this`reg1Prev, this`reg2
      ensures irq == IrqTick(old(Registers()), i) && reg2 == ControlTick(old(Registers()), i)
      ensures reg1Prev == frame.reg1
    {
      var acknowledged, changed := reg2.lo % 2 == 1, Differ(frame.reg1, reg1Prev);
      reg2 := reg2.(bit31 := irq);
      if wren && Select(writeSide.awaddr) == 2 {
        if i.strbLo { reg2 := reg2.(lo := i.dataLo); }
        if i.strbHi { reg2 := reg2.(hi := i.dataHi); }
      }
      reg1Prev := frame.reg1;
      if acknowledged {
        irq := false;
      } else if changed {
        irq := true;
      }
    }

    method ClockWriteSide(i: Inputs, wren: bool)
      requires i.resetn && wren == WriteAccepted(writeSide, i)
      modifies this`writeSide
      ensures writeSide == WriteTick(old(writeSide), i)
    {
      var w := writeSide;
      if wren && !w.bvalid {
        writeSide := writeSide.(bvalid := true);
      } else if i.bready && w.bvalid {
        writeSide := writeSide.(bvalid := false);
      }
      var offered := i.awvalid && i.wvalid;
      if !w.awready && offered {
        writeSide := writeSide.(awaddr := i.awaddr);
      }
      writeSide := writeSide.(awready := !w.awready && offered, wready := !w.wready && offered);
    }

    method ClockReadSide(i: Inputs)
      requires i.resetn
      modifies this`readSide
      ensures readSide == ReadTick(old(readSide), i, ReadRegister(Registers(), old(readSide).araddr))
    {
      var r := readSide;
      if r.arready && i.arvalid && !r.rvalid {
        var s := Select(r.araddr);
        var out := if s == 0 then Reg0(frame) else if s == 1 then frame.reg1
                   else if s == 2 then Some(ControlValue(reg2)) else None;
        readSide := readSide.(rvalid := true, rdata := out);
      } else if r.rvalid && i.rready {
        readSide := readSide.(rvalid := false);
      }
      if !r.arready && i.arvalid {
        readSide := readSide.(araddr := i.araddr);
      }
      readSide := readSide.(arready := !r.arready && i.arvalid);
    }

    method RunClocks(ins: seq<Inputs>)
      modifies this
      ensures Registers() == Run(old(Registers()), old(irSignal), ins) && irSignal == LevelAfter(old(irSignal), ins)
    {
      for n := 0 to |ins|
        invariant Registers() == Run(old(Registers()), old(irSignal), ins[..n])
        invariant irSignal == LevelAfter(old(irSignal), ins[..n])
      {
        assert ins[..n + 1][..n] == ins[..n];
        Period(ins[n]);
      }
      assert ins[..|ins|] == ins;
    }

    /** Any number of clocks. The interrupt line ends high exactly when some clock saw slv_reg1 change (or it was high
        at the start) and none since saw the acknowledge bit or reset; and from an idle bus without reset every request
        accepted is answered or pending exactly when none was accepted over a waiting response. */
    method Operate(ins: seq<Inputs>)
      modifies this
      ensures Registers() == Run(old(Registers()), old(irSignal), ins) && irSignal == LevelAfter(old(irSignal), ins)
      ensures var cs := LatchClocks(old(Registers()), old(irSignal), ins);
              irq <==> (exists t :: Latch.RaisedAndKept(cs, t))
                       || (old(irq) && forall u :: 0 <= u < |cs| ==> !cs[u].clears)
      ensures NoReset(ins) && !old(writeSide.bvalid) && !old(readSide.rvalid) ==>
                var w := WriteClocks(old(Registers()), old(irSignal), ins);
                var r := ReadClocks(old(Registers()), old(irSignal), ins);
                && (Channel.Accepted(w) == Channel.Completed(false, w) + Channel.Count(writeSide.bvalid)
                    <==> Channel.Overlapped(false, w) == 0)
                && (Channel.Accepted(r) == Channel.Completed(false, r) + Channel.Count(readSide.rvalid)
                    <==> Channel.Overlapped(false, r) == 0)
    {
      ghost var d, before := Registers(), irSignal;
      RunClocks(ins);
      InterruptExactly(d, before, ins);
      if NoReset(ins) && !d.writeSide.bvalid && !d.readSide.rvalid {
        TransactionsConserved(d, before, ins);
      }
    }

    /** The device is where a run with these states and signal levels is after k clocks. */
    ghost predicate At(s: seq<Device>, levels: seq<bool>, k: nat)
      reads this
    {
      k < |s| == |levels| && Registers() == s[k] && irSignal == levels[k]
    }

    /** Clocks without bus traffic. */
    method IdleTo(wave: seq<bool>, i: nat, j: nat, ghost ins: seq<Inputs>, ghost s: seq<Device>,
                  ghost levels: seq<bool>)
      requires IsTrace(s, levels, ins) && Signal(ins) == wave && QuietOn(ins, i, j) && At(s, levels, i)
      modifies this
      ensures At(s, levels, j)
    {
      assert ins[i..j] == QuietWave(wave[i..j]);
      RunClocks(QuietWave(wave[i..j]));
    }

    /** ioread32: drives the three clocks of a read and returns what was on the data bus, which is the addressed
        register if no word is published meanwhile. */
    method IoRead32(addr: nat, wave: seq<bool>, i: nat, ghost ins: seq<Inputs>, ghost s: seq<Device>,
                    ghost levels: seq<bool>)
      returns (r: Option<nat>)
      requires IsTrace(s, levels, ins) && Signal(ins) == wave && ReadOn(ins, i, addr) && At(s, levels, i)
      modifies this
      ensures At(s, levels, i + 3) && r == s[i + 3].readSide.rdata
      ensures Orderly(s[i]) && Steady(s[i], levels[i], ins[i..i + 3]) ==> ReadDone(s[i], s[i + 3], addr)
    {
      ghost var d, before := Registers(), irSignal;
      var script := ReadScript(addr, wave[i..i + 3]);
      assert ins[i..i + 3] == script;
      RunClocks(script);
      r := readSide.rdata;
      if Orderly(d) && Steady(d, before, script) {
        ReadRuns(d, before, addr, wave[i..i + 3]);
      }
    }

    /** iowrite16 to slv_reg2, likewise. */
    method IoWrite16(value: byte, wave: seq<bool>, i: nat, ghost ins: seq<Inputs>, ghost s: seq<Device>,
                     ghost levels: seq<bool>)
      requires IsTrace(s, levels, ins) && Signal(ins) == wave && WriteOn(ins, i, value) && At(s, levels, i)
      modifies this
      ensures At(s, levels, i + 3)
      ensures Orderly(s[i]) && Steady(s[i], levels[i], ins[i..i + 3]) ==> WriteDone(s[i], s[i + 3], value)
    {
      ghost var d, before := Registers(), irSignal;
      var script := WriteScript(value, wave[i..i + 3]);
      assert ins[i..i + 3] == script;
      RunClocks(script);
      if Orderly(d) && Steady(d, before, script) {
        WriteRuns(d, before, value, wave[i..i + 3]);
      }
    }
  }

  /** The states and signal levels of a run, before and after every clock. */
  ghost predicate IsTrace(s: seq<Device>, levels: seq<bool>, ins: seq<Inputs>) {
    && |s| == |levels| == |ins| + 1
    && forall i: nat, j: nat {:trigger ins[i..j]} :: i <= j <= |ins| ==>
         s[j] == Run(s[i], levels[i], ins[i..j]) && levels[j] == LevelAfter(levels[i], ins[i..j])
  }

  lemma MakeTrace(d: Device, ins: seq<Inputs>) returns (s: seq<Device>, levels: seq<bool>)
    ensures IsTrace(s, levels, ins) && s == States(d, ins, |ins|) && levels[0]
  {
    s := States(d, ins, |ins|);
    levels := seq(|ins| + 1, k requires 0 <= k <= |ins| => LevelAfter(true, ins[..k]));
    forall i: nat, j: nat | i <= j <= |ins|
      ensures s[j] == Run(s[i], levels[i], ins[i..j]) && levels[j] == LevelAfter(levels[i], ins[i..j])
    {
      var before := RunTo(d, ins, i, j);
      assert ins[..j] == ins[..i] + ins[i..j];
      LevelAppend(true, ins[..i], ins[i..j]);
    }
  }
}
