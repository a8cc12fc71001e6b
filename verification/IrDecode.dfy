/** The pulse counter, the classifier and the frame assembler of the IR demodulator. */
module IrDecode {
  import opened Bytes

  const WORD32 := 0x1_0000_0000

  datatype Class = START | LEN0 | LEN1 | OTHER

  /** The classifier's windows, in clocks of pulse_length_counter. */
  function Classify(count: nat): Class {
    if 40_000 < count <= 50_000 then LEN0
    else if 85_000 < count <= 95_000 then LEN1
    else if 175_000 < count <= 185_000 then START
    else OTHER
  }

  /** temp_reg0, most significant bit first: element k is bit 11 - k. */
  type Bits12 = s: seq<bool> | |s| == 12
    witness [false, false, false, false, false, false, false, false, false, false, false, false]

  function Zeros(n: nat): (r: seq<bool>)
    ensures |r| == n && forall i :: 0 <= i < n ==> !r[i]
  {
    if n == 0 then [] else [false] + Zeros(n - 1)
  }

  /** What the assembler latches: temp_reg0, or temp_reg0 + 1 for a final 1. At 32 bits that sum cannot wrap. */
  datatype Latched = Latched(temp: Bits12, plusOne: bool)

  /** The registers written when the IR signal rises. They have no reset, so a register is None until first written. */
  datatype Frame = Frame(pulseIdx: Option<nat>, temp: Bits12, reg0: Option<Latched>, reg1: Option<nat>)

  /** The number a bit string denotes, most significant bit first. */
  function Value(bits: seq<bool>): nat {
    if bits == [] then 0 else 2 * Value(bits[..|bits| - 1]) + (if bits[|bits| - 1] then 1 else 0)
  }

  function Bump(count: Option<nat>): Option<nat> {
    if count.Some? && count.value >= 1 then Some((count.value + 1) % WORD32) else Some(1)
  }

  /** slv_reg0 as a number. */
  function Reg0(f: Frame): Option<nat> {
    match f.reg0
    case None => None
    case Some(l) => Some(Value(l.temp) + if l.plusOne then 1 else 0)
  }

  function PutBit(f: Frame, bit: bool): Frame {
    match f.pulseIdx
    case None => f
    case Some(k) =>
      if k < 11 then f.(temp := f.temp[k := bit], pulseIdx := Some(k + 1))
      else if k == 11 then
        f.(reg0 := Some(Latched(f.temp, bit)), reg1 := Bump(f.reg1))
      else f
  }

  /** posedge IR_signal */
  function Edge(f: Frame, state: Class): Frame {
    match state
    case START => f.(temp := Zeros(12), pulseIdx := Some(0))
    case LEN0 => PutBit(f, false)
    case LEN1 => PutBit(f, true)
    case OTHER => f.(pulseIdx := Some(15))
  }

  datatype Demod = Demod(counter: nat, state: Class, frame: Frame)

  /** posedge S_AXI_ACLK: every right-hand side reads the old registers, so the class lags the counter by a clock. */
  function Tick(d: Demod, resetn: bool, ir: bool): Demod {
    if !resetn then d.(counter := 0, state := OTHER)
    else Demod(if ir then 0 else (d.counter + 1) % WORD32, Classify(d.counter), d.frame)
  }

  /** One clock period: the signal may rise before the clock edge that first samples it high. */
  function Cycle(d: Demod, before: bool, resetn: bool, ir: bool): Demod {
    Tick(if ir && !before then d.(frame := Edge(d.frame, d.state)) else d, resetn, ir)
  }

  function Clocks(d: Demod, before: bool, wave: seq<bool>): Demod
    decreases |wave|
  {
    if wave == [] then d else Clocks(Cycle(d, before, true, wave[0]), wave[0], wave[1..])
  }

  function Edges(f: Frame, pulses: seq<Class>): Frame
    decreases |pulses|
  {
    if pulses == [] then f else Edge(Edges(f, pulses[..|pulses| - 1]), pulses[|pulses| - 1])
  }

  // ----- clocks to pulses

  /** Reference decoding of a waveform: a pulse of n low samples counts as Classify(n - 1). */
  function Pulses(wave: seq<bool>, lows: nat): seq<Class>
    decreases |wave|
  {
    if wave == [] then []
    else if !wave[0] then Pulses(wave[1..], lows + 1)
    else (if lows > 0 then [Classify((lows - 1) % WORD32)] else []) + Pulses(wave[1..], 0)
  }

  function LowsAtEnd(wave: seq<bool>, lows: nat): nat
    decreases |wave|
  {
    if wave == [] then lows else LowsAtEnd(wave[1..], if wave[0] then 0 else lows + 1)
  }

  /** What the counter and classifier hold after `lows` low samples in a row. */
  predicate Tracks(d: Demod, lows: nat) {
    && d.counter == lows % WORD32
    && (lows > 0 ==> d.state == Classify((lows - 1) % WORD32))
  }

  lemma {:induction false} EdgesAppend(f: Frame, xs: seq<Class>, ys: seq<Class>)
    ensures Edges(f, xs + ys) == Edges(Edges(f, xs), ys)
    decreases |ys|
  {
    if ys == [] {
      assert xs + ys == xs;
    } else {
      var n := |ys| - 1;
      assert (xs + ys)[..|xs| + n] == xs + ys[..n];
      EdgesAppend(f, xs, ys[..n]);
    }
  }

  /** For every waveform, the clocked registers hold what the reference decoding says. */
  lemma {:induction false} ClocksDecode(d: Demod, lows: nat, wave: seq<bool>)
    requires Tracks(d, lows)
    ensures var e := Clocks(d, lows == 0, wave);
            e.frame == Edges(d.frame, Pulses(wave, lows)) && Tracks(e, LowsAtEnd(wave, lows))
    decreases |wave|
  {
    if wave != [] {
      var d' := Cycle(d, lows == 0, true, wave[0]);
      var lows' := if wave[0] then 0 else lows + 1;
      CounterStep(lows);
      ClocksDecode(d', lows', wave[1..]);
      if wave[0] && lows > 0 {
        var c := Classify((lows - 1) % WORD32);
        EdgesAppend(d.frame, [c], Pulses(wave[1..], 0));
        assert Edges(d.frame, [c]) == Edge(Edges(d.frame, [c][..0]), c);
      } else if wave[0] {
        assert [] + Pulses(wave[1..], 0) == Pulses(wave[1..], 0);
      }
    }
  }

  lemma CounterStep(lows: nat)
    ensures (lows % WORD32 + 1) % WORD32 == (lows + 1) % WORD32
  {
  }

  // ----- frames: when a word is published, over every pulse history

  predicate IsBit(c: Class) {
    c == LEN0 || c == LEN1
  }

  /** s is the latest START of the history and only bit pulses followed it. */
  predicate OpenAt(h: seq<Class>, s: nat) {
    s < |h| && h[s] == START && forall i :: s < i < |h| ==> IsBit(h[i])
  }

  function BitsAfter(h: seq<Class>, s: nat): (r: seq<bool>)
    requires s < |h|
    ensures |r| == |h| - 1 - s
  {
    seq(|h| - 1 - s, i requires 0 <= i < |h| - 1 - s => h[s + 1 + i] == LEN1)
  }

  predicate Unsynchronised(f: Frame) {
    f.pulseIdx.None? || f.pulseIdx.value >= 12
  }

  /** The first k bits in place, zeros after. */
  function Partial(bits: seq<bool>, k: nat): Bits12
    requires k <= |bits| && k <= 12
  {
    bits[..k] + Zeros(12 - k)
  }

  lemma LastPulseIsBit(init: Frame, h: seq<Class>)
    requires h != [] && IsBit(h[|h| - 1])
    ensures Edges(init, h) == PutBit(Edges(init, h[..|h| - 1]), h[|h| - 1] == LEN1)
  {
  }

  lemma PartialStep(bits: seq<bool>, k: nat)
    requires k < |bits| && k <= 11
    ensures Partial(bits[..|bits| - 1], k)[k := bits[k]] == Partial(bits, k + 1)
    ensures Partial(bits[..|bits| - 1], k) == Partial(bits, k)
  {
  }

  lemma {:induction false} OpenFrameState(init: Frame, h: seq<Class>, s: nat)
    requires OpenAt(h, s)
    ensures var k := Min(|h| - 1 - s, 11);
            Edges(init, h).pulseIdx == Some(k) && Edges(init, h).temp == Partial(BitsAfter(h, s), k)
    decreases |h|
  {
    var n := |h| - 1;
    var g := h[..n];
    if s == n {
      assert Partial(BitsAfter(h, s), 0) == Zeros(12);
    } else {
      assert OpenAt(g, s);
      OpenFrameState(init, g, s);
      var bits := BitsAfter(h, s);
      assert BitsAfter(g, s) == bits[..|bits| - 1];
      LastPulseIsBit(init, h);
      PartialStep(bits, Min(n - 1 - s, 11));
    }
  }

  lemma BitKeepsOpen(h: seq<Class>, s: nat)
    requires h != [] && IsBit(h[|h| - 1])
    ensures OpenAt(h[..|h| - 1], s) ==> OpenAt(h, s)
  {
  }

  lemma {:induction false} ClosedFrameState(init: Frame, h: seq<Class>)
    requires Unsynchronised(init) && !exists s :: OpenAt(h, s)
    ensures Unsynchronised(Edges(init, h))
    decreases |h|
  {
    if h != [] {
      var n := |h| - 1;
      if IsBit(h[n]) {
        forall s: nat ensures !OpenAt(h[..n], s) { BitKeepsOpen(h, s); }
        ClosedFrameState(init, h[..n]);
      } else if h[n] == START {
        assert OpenAt(h, n);
      }
    }
  }

  /** The last pulse of the history is the 12th or later bit of an unbroken frame. */
  ghost predicate Publishes(h: seq<Class>) {
    exists s :: OpenAt(h, s) && |h| - 1 - s >= 12
  }

  lemma OpenAtUnique(h: seq<Class>, s: nat, t: nat)
    requires OpenAt(h, s) && OpenAt(h, t)
    ensures s == t
  {
  }

  lemma ValueAppend(bits: seq<bool>, b: bool)
    ensures Value(bits + [b]) == 2 * Value(bits) + (if b then 1 else 0)
  {
    assert (bits + [b])[..|bits|] == bits;
  }

  function Pow2(n: nat): nat {
    if n == 0 then 1 else 2 * Pow2(n - 1)
  }

  /** A frame that already holds eleven bits publishes with the next one. */
  lemma FullFramePulse(init: Frame, h: seq<Class>, s: nat)
    requires OpenAt(h, s) && |h| - 1 - s >= 12
    ensures var f, g, bits := Edges(init, h[..|h| - 1]), Edges(init, h), BitsAfter(h, s);
            g.reg1 == Bump(f.reg1) && Reg0(g) == Some(Value(bits[..11] + [bits[|bits| - 1]]))
  {
    var n := |h| - 1;
    var before, bits := BitsAfter(h[..n], s), BitsAfter(h, s);
    assert before[..11] == bits[..11];
    OpenFrameState(init, h[..n], s);
    LastPulseIsBit(init, h);
    PublishedWord(Edges(init, h[..n]), before, h[n] == LEN1);
  }

  /** A shorter frame only collects the bit. */
  lemma ShortFramePulse(init: Frame, h: seq<Class>, s: nat)
    requires OpenAt(h, s) && |h| - 1 - s < 12
    ensures var f, g := Edges(init, h[..|h| - 1]), Edges(init, h);
            g.reg1 == f.reg1 && g.reg0 == f.reg0
  {
    var n := |h| - 1;
    if s < n {
      OpenFrameState(init, h[..n], s);
      LastPulseIsBit(init, h);
    }
  }

  /** Publication: the registers change exactly when the history publishes, and then slv_reg0 is the first eleven bits
      after START followed by the newest bit, and slv_reg1 advances by one. */
  lemma PublishedExactly(init: Frame, h: seq<Class>)
    requires Unsynchronised(init) && h != []
    ensures var f, g := Edges(init, h[..|h| - 1]), Edges(init, h);
            if Publishes(h)
            then g.reg1 == Bump(f.reg1)
                 && forall s :: OpenAt(h, s) ==>
                      var bits := BitsAfter(h, s);
                      |bits| >= 12 && Reg0(g) == Some(Value(bits[..11] + [bits[|bits| - 1]]))
            else g.reg1 == f.reg1 && g.reg0 == f.reg0
  {
    var n := |h| - 1;
    if s: nat :| OpenAt(h, s) {
      if |h| - 1 - s >= 12 {
        FullFramePulse(init, h, s);
      } else {
        ShortFramePulse(init, h, s);
      }
      forall t | OpenAt(h, t) ensures s == t { OpenAtUnique(h, s, t); }
    } else if IsBit(h[n]) {
      forall s: nat ensures !OpenAt(h[..n], s) { BitKeepsOpen(h, s); }
      ClosedFrameState(init, h[..n]);
    }
  }

  lemma PublishedWord(f: Frame, bits: seq<bool>, last: bool)
    requires |bits| >= 11 && f.pulseIdx == Some(11) && f.temp == Partial(bits, 11)
    ensures Reg0(PutBit(f, last)) == Some(Value(bits[..11] + [last]))
  {
    ValueAppend(bits[..11], false);
    ValueAppend(bits[..11], true);
    assert f.temp == bits[..11] + [false];
  }

  ghost function PublishCount(h: seq<Class>): nat {
    if h == [] then 0 else PublishCount(h[..|h| - 1]) + if Publishes(h) then 1 else 0
  }

  /** From power-up, with slv_reg1 unknown or 0, it counts the published words mod 2^32. */
  lemma {:induction false} Reg1CountsFrames(init: Frame, h: seq<Class>)
    requires Unsynchronised(init) && (init.reg1 == None || init.reg1 == Some(0))
    ensures Edges(init, h).reg1 == if PublishCount(h) == 0 then init.reg1 else Some(PublishCount(h) % WORD32)
  {
    if h != [] {
      PublishedExactly(init, h);
      Reg1CountsFrames(init, h[..|h| - 1]);
      CounterStep(PublishCount(h[..|h| - 1]));
    }
  }

  /** A register write happens at exactly the pulses that end an unbroken frame of twelve bits or more. */
  ghost predicate WritesExactlyWhenPublished(init: Frame) {
    forall h :: h != [] ==> (Edges(init, h).reg1 != Edges(init, h[..|h| - 1]).reg1 <==> Publishes(h))
  }

  function ZeroPulses(n: nat): (r: seq<Class>)
    ensures |r| == n && forall i :: 0 <= i < n ==> r[i] == LEN0
  {
    if n == 0 then [] else ZeroPulses(n - 1) + [LEN0]
  }

  lemma {:induction false} ZeroPulsesAdvance(init: Frame, n: nat)
    requires init.pulseIdx.Some? && init.pulseIdx.value + n <= 11
    ensures Edges(init, ZeroPulses(n)).pulseIdx == Some(init.pulseIdx.value + n)
  {
    if n > 0 {
      var h, g := ZeroPulses(n), ZeroPulses(n - 1);
      ZeroPulsesAdvance(init, n - 1);
      assert h[..n - 1] == g && h[n - 1] == LEN0;
      LastPulseIsBit(init, h);
    }
  }

  /** From a bit position, zero pulses alone publish, though no START was ever seen. */
  lemma ZerosPublish(init: Frame) returns (h: seq<Class>)
    requires !Unsynchronised(init)
    ensures h != [] && !Publishes(h) && Edges(init, h).reg1 != Edges(init, h[..|h| - 1]).reg1
  {
    var n := 11 - init.pulseIdx.value;
    h := ZeroPulses(n + 1);
    ZeroPulsesAdvance(init, n);
    assert h[..n] == ZeroPulses(n);
    LastPulseIsBit(init, h);
    forall s: nat ensures !OpenAt(h, s) {
    }
  }

  /** pulse_idx has no reset: the rule above holds exactly when it does not power up as a bit position. */
  lemma PowerUpIndexMatters(init: Frame)
    ensures WritesExactlyWhenPublished(init) <==> Unsynchronised(init)
  {
    if Unsynchronised(init) {
      forall h: seq<Class> | h != []
        ensures Edges(init, h).reg1 != Edges(init, h[..|h| - 1]).reg1 <==> Publishes(h)
      {
        PublishedExactly(init, h);
      }
    } else {
      var h := ZerosPublish(init);
    }
  }

  // ----- the round trip

  datatype Pulse = Pulse(low: nat, high: nat)

  function Level(n: nat, high: bool): seq<bool> {
    if n == 0 then [] else [high] + Level(n - 1, high)
  }

  function Wave(ps: seq<Pulse>): seq<bool> {
    if ps == [] then [] else Level(ps[0].low, false) + (Level(ps[0].high, true) + Wave(ps[1..]))
  }

  /** A pulse inside the window of its class: one clock wider than the counter window, because the class lags. */
  predicate Renders(p: Pulse, c: Class) {
    && p.high >= 1
    && match c
       case LEN0 => 40_002 <= p.low <= 50_001
       case LEN1 => 85_002 <= p.low <= 95_001
       case START => 175_002 <= p.low <= 185_001
       case OTHER => false
  }

  predicate RendersAll(ps: seq<Pulse>, cs: seq<Class>) {
    |ps| == |cs| && forall i :: 0 <= i < |ps| ==> Renders(ps[i], cs[i])
  }

  lemma {:induction false} LowLevel(n: nat, lows: nat, rest: seq<bool>)
    ensures Pulses(Level(n, false) + rest, lows) == Pulses(rest, lows + n)
    ensures LowsAtEnd(Level(n, false) + rest, lows) == LowsAtEnd(rest, lows + n)
  {
    if n == 0 {
      assert Level(0, false) + rest == rest;
    } else {
      assert (Level(n, false) + rest)[1..] == Level(n - 1, false) + rest;
      LowLevel(n - 1, lows + 1, rest);
    }
  }

  lemma {:induction false} HighLevel(n: nat, lows: nat, rest: seq<bool>)
    requires n >= 1
    ensures Pulses(Level(n, true) + rest, lows)
            == (if lows > 0 then [Classify((lows - 1) % WORD32)] else []) + Pulses(rest, 0)
    ensures LowsAtEnd(Level(n, true) + rest, lows) == LowsAtEnd(rest, 0)
  {
    var tail := Level(n - 1, true) + rest;
    assert (Level(n, true) + rest)[1..] == tail;
    if n == 1 {
      assert tail == rest;
    } else {
      HighLevel(n - 1, 0, rest);
      assert [] + Pulses(rest, 0) == Pulses(rest, 0);
    }
  }

  lemma WindowsLagByOne(p: Pulse, c: Class)
    requires Renders(p, c)
    ensures p.low > 0 && Classify((p.low - 1) % WORD32) == c
  {
  }

  lemma {:induction false} WaveDecodes(ps: seq<Pulse>, cs: seq<Class>)
    requires RendersAll(ps, cs)
    ensures Pulses(Wave(ps), 0) == cs && LowsAtEnd(Wave(ps), 0) == 0
  {
    if ps != [] {
      var tail := Wave(ps[1..]);
      var highs := Level(ps[0].high, true) + tail;
      WindowsLagByOne(ps[0], cs[0]);
      LowLevel(ps[0].low, 0, highs);
      HighLevel(ps[0].high, ps[0].low, tail);
      WaveDecodes(ps[1..], cs[1..]);
      assert cs == [cs[0]] + cs[1..];
    }
  }

  /** The low n bits of a number, most significant first. */
  function BitsOf(word: nat, n: nat): (r: seq<bool>)
    ensures |r| == n
  {
    if n == 0 then [] else BitsOf(word / 2, n - 1) + [word % 2 == 1]
  }

  lemma {:induction false} ValueOfBitsOf(word: nat, n: nat)
    requires word < Pow2(n)
    ensures Value(BitsOf(word, n)) == word
  {
    if n > 0 {
      ValueOfBitsOf(word / 2, n - 1);
      ValueAppend(BitsOf(word / 2, n - 1), word % 2 == 1);
    }
  }

  function BitClass(b: bool): Class {
    if b then LEN1 else LEN0
  }

  /** START, then the twelve bits of the word. */
  function FrameOf(word: nat): (r: seq<Class>)
    ensures |r| == 13
  {
    [START] + seq(12, i requires 0 <= i < 12 => BitClass(BitsOf(word, 12)[i]))
  }

  lemma FrameBits(word: nat)
    ensures var h := FrameOf(word);
            BitsAfter(h[..12], 0)[..11] + [h[12] == LEN1] == BitsOf(word, 12)
  {
    var h, bits := FrameOf(word), BitsOf(word, 12);
    forall i | 0 <= i < 12 ensures (h[i + 1] == LEN1) == bits[i] {
      assert h[i + 1] == BitClass(bits[i]);
    }
    forall i | 0 <= i < 11 ensures BitsAfter(h[..12], 0)[i] == bits[i] {
      assert h[..12][i + 1] == h[i + 1];
    }
    assert (h[11 + 1] == LEN1) == bits[11];
  }

  lemma {:induction false} FrameLeavesWord(f: Frame, word: nat)
    requires word < 4096
    ensures Reg0(Edges(f, FrameOf(word))) == Some(word)
    ensures Edges(f, FrameOf(word)).reg1 == Bump(f.reg1)
  {
    var h := FrameOf(word);
    FramePrefix(f, h, 12);
    var g := Edges(f, h[..12]);
    assert OpenAt(h[..12], 0);
    OpenFrameState(f, h[..12], 0);
    PublishedWord(g, BitsAfter(h[..12], 0), h[12] == LEN1);
    FrameBits(word);
    assert Pow2(4) == 16 && Pow2(8) == 256 && Pow2(12) == 4096;
    ValueOfBitsOf(word, 12);
  }

  /** No bit but the last of a frame publishes. */
  lemma {:induction false} FramePrefix(f: Frame, h: seq<Class>, n: nat)
    requires 1 <= n <= |h| && n <= 12 && OpenAt(h, 0)
    ensures Edges(f, h[..n]).reg1 == f.reg1 && Edges(f, h[..n]).reg0 == f.reg0
  {
    assert h[..n][..n - 1] == h[..n - 1];
    if n > 1 {
      FramePrefix(f, h, n - 1);
      assert OpenAt(h[..n - 1], 0);
      OpenFrameState(f, h[..n - 1], 0);
    } else {
      assert h[..0] == [];
    }
  }

  /** Round trip: any waveform rendering a word inside the windows leaves slv_reg0 equal to the word and slv_reg1
      advanced by one, and the decoder ready for the next frame. */
  lemma RoundTrip(d: Demod, word: nat, ps: seq<Pulse>)
    requires d.counter == 0 && word < 4096 && RendersAll(ps, FrameOf(word))
    ensures var e := Clocks(d, true, Wave(ps));
            Reg0(e.frame) == Some(word) && e.frame.reg1 == Bump(d.frame.reg1) && e.counter == 0
  {
    ClocksDecode(d, 0, Wave(ps));
    WaveDecodes(ps, FrameOf(word));
    FrameLeavesWord(d.frame, word);
  }

  lemma {:induction false} PulsesPrefix(wave: seq<bool>, k: nat, lows: nat)
    requires k <= |wave|
    ensures Pulses(wave[..k], lows) <= Pulses(wave, lows)
  {
    if k > 0 {
      assert wave[..k][1..] == wave[1..][..k - 1];
      PulsesPrefix(wave[1..], k - 1, if wave[0] then 0 else lows + 1);
    }
  }

  /** Until its thirteenth pulse ends, a word coming in leaves both registers alone. */
  lemma RegistersHeldDuringFrame(d: Demod, word: nat, ps: seq<Pulse>, k: nat)
    requires d.counter == 0 && RendersAll(ps, FrameOf(word)) && k <= |Wave(ps)| && |Pulses(Wave(ps)[..k], 0)| < 13
    ensures var f := Clocks(d, true, Wave(ps)[..k]).frame;
            f.reg0 == d.frame.reg0 && f.reg1 == d.frame.reg1
  {
    var h, wave := FrameOf(word), Wave(ps);
    ClocksDecode(d, 0, wave[..k]);
    PulsesPrefix(wave, k, 0);
    WaveDecodes(ps, h);
    var n := |Pulses(wave[..k], 0)|;
    assert Pulses(wave[..k], 0) == h[..n];
    if n > 0 {
      FramePrefix(d.frame, h, n);
    }
  }

  /** While a word comes in slv_reg1 takes no other value than the one before and the one after it. */
  lemma CountDuringFrame(d: Demod, word: nat, ps: seq<Pulse>, k: nat)
    requires d.counter == 0 && word < 4096 && RendersAll(ps, FrameOf(word)) && k <= |Wave(ps)|
    ensures Clocks(d, true, Wave(ps)[..k]).frame.reg1 in {d.frame.reg1, Bump(d.frame.reg1)}
  {
    var h, wave := FrameOf(word), Wave(ps);
    PulsesPrefix(wave, k, 0);
    WaveDecodes(ps, h);
    if |Pulses(wave[..k], 0)| < 13 {
      RegistersHeldDuringFrame(d, word, ps, k);
    } else {
      ClocksDecode(d, 0, wave[..k]);
      assert Pulses(wave[..k], 0) == h;
      FrameLeavesWord(d.frame, word);
    }
  }

  /** A high signal decodes to nothing. */
  lemma HighSignalIsSilent(d: Demod, n: nat)
    requires d.counter == 0
    ensures var e := Clocks(d, true, Level(n, true));
            e.frame == d.frame && e.counter == 0
  {
    ClocksDecode(d, 0, Level(n, true));
    if n > 0 {
      HighLevel(n, 0, []);
      assert Level(n, true) + [] == Level(n, true);
    }
  }

  lemma {:induction false} LevelPrefix(n: nat, high: bool, k: nat)
    requires k <= |Level(n, high)|
    ensures Level(n, high)[..k] == Level(k, high)
  {
    if k > 0 {
      LevelPrefix(n - 1, high, k - 1);
      assert Level(n, high)[..k] == [high] + Level(n - 1, high)[..k - 1];
    }
  }

  lemma {:induction false} LevelLength(n: nat, high: bool)
    ensures |Level(n, high)| == n && forall k :: 0 <= k < n ==> Level(n, high)[k] == high
  {
    if n > 0 {
      LevelLength(n - 1, high);
    }
  }

  // ----- pulses of any width

  /** The width the 32-bit counter sees. */
  function Measured(p: Pulse): Pulse
    requires p.low > 0
  {
    Pulse((p.low - 1) % WORD32 + 1, p.high)
  }

  /** The class of a pulse is the one whose window holds it, and OTHER exactly when no window does. */
  lemma WindowsExactly(p: Pulse, c: Class)
    requires p.low > 0 && p.high >= 1
    ensures Classify((p.low - 1) % WORD32) == c <==>
              if c == OTHER then forall b :: !Renders(Measured(p), b) else Renders(Measured(p), c)
  {
    var m := Measured(p);
    if c == OTHER && forall b :: !Renders(m, b) {
      assert !Renders(m, START) && !Renders(m, LEN0) && !Renders(m, LEN1);
    }
  }

  predicate Proper(ps: seq<Pulse>) {
    forall i :: 0 <= i < |ps| ==> ps[i].low > 0 && ps[i].high >= 1
  }

  function ClassesOf(ps: seq<Pulse>): (r: seq<Class>)
    requires Proper(ps)
    ensures |r| == |ps|
  {
    seq(|ps|, i requires 0 <= i < |ps| => Classify((ps[i].low - 1) % WORD32))
  }

  /** A waveform of any pulses decodes to their classes. */
  lemma {:induction false} WaveDecodesAny(ps: seq<Pulse>)
    requires Proper(ps)
    ensures Pulses(Wave(ps), 0) == ClassesOf(ps) && LowsAtEnd(Wave(ps), 0) == 0
  {
    if ps != [] {
      var tail := Wave(ps[1..]);
      LowLevel(ps[0].low, 0, Level(ps[0].high, true) + tail);
      HighLevel(ps[0].high, ps[0].low, tail);
      WaveDecodesAny(ps[1..]);
      assert ClassesOf(ps) == [ClassesOf(ps)[0]] + ClassesOf(ps[1..]);
    }
  }

  lemma {:induction false} BitsOfValue(bits: seq<bool>)
    ensures BitsOf(Value(bits), |bits|) == bits && Value(bits) < Pow2(|bits|)
  {
    if bits != [] {
      var n := |bits| - 1;
      BitsOfValue(bits[..n]);
      assert Value(bits) / 2 == Value(bits[..n]) && (Value(bits) % 2 == 1) == bits[n];
    }
  }

  lemma HalveThenDivide(word: nat, d: nat)
    requires d > 0
    ensures word / 2 / d == word / (2 * d)
  {
    var q, r := word / 2 / d, word / 2 % d;
    assert word / 2 == q * d + r;
    assert word == q * (2 * d) + (2 * r + word % 2);
    ModUnique(word, 2 * d, q, 2 * r + word % 2);
  }

  /** Bit i of the word, counted from the most significant. */
  lemma {:induction false} BitsMsbFirst(word: nat, n: nat, i: nat)
    requires i < n
    ensures Pow2(n - 1 - i) > 0 && (BitsOf(word, n)[i] <==> word / Pow2(n - 1 - i) % 2 == 1)
  {
    if i < n - 1 {
      BitsMsbFirst(word / 2, n - 1, i);
      HalveThenDivide(word, Pow2(n - 2 - i));
    }
  }

  /** The bits of a frame go out most significant first: pulse 1 + i is long exactly when bit 11 - i of the word is
      set. */
  lemma FrameMsbFirst(word: nat, i: nat)
    requires i < 12
    ensures FrameOf(word)[0] == START && FrameOf(word)[1 + i] in {LEN0, LEN1} && Pow2(11 - i) > 0
    ensures FrameOf(word)[1 + i] == LEN1 <==> word / Pow2(11 - i) % 2 == 1
    ensures Pow2(0) == 1 && Pow2(11) == 2048
  {
    BitsMsbFirst(word, 12, i);
    assert FrameOf(word)[1 + i] == BitClass(BitsOf(word, 12)[i]);
    assert Pow2(4) == 16 && Pow2(8) == 256 && Pow2(11) == 2048;
  }

  /** Thirteen classes that are START and twelve bits are the frame of a word. */
  lemma FrameRecognised(h: seq<Class>) returns (word: nat)
    requires |h| == 13 && OpenAt(h, 0)
    ensures word < 4096 && h == FrameOf(word)
  {
    var bits := BitsAfter(h, 0);
    word := Value(bits);
    BitsOfValue(bits);
    assert Pow2(4) == 16 && Pow2(8) == 256 && Pow2(12) == 4096;
    forall i | 1 <= i < 13 ensures h[i] == FrameOf(word)[i] {
      assert bits[i - 1] == (h[i] == LEN1) && IsBit(h[i]);
    }
  }

  /** Up to thirteen pulses that are not a frame write nothing. */
  lemma {:induction false} NoFrameNoWrite(f: Frame, h: seq<Class>)
    requires Unsynchronised(f) && |h| <= 13 && !(|h| == 13 && OpenAt(h, 0))
    ensures Edges(f, h).reg0 == f.reg0 && Edges(f, h).reg1 == f.reg1
  {
    if h != [] {
      NoFrameNoWrite(f, h[..|h| - 1]);
      PublishedExactly(f, h);
      forall s: nat | OpenAt(h, s) ensures |h| - 1 - s < 12 {
      }
    }
  }

  /** Thirteen pulses of any widths at a decoder outside a frame: slv_reg0 and slv_reg1 are written exactly when the
      widths render a word, START and twelve bits all inside their windows; one pulse outside leaves both alone. */
  lemma ThirteenPulsesExactly(d: Demod, ps: seq<Pulse>)
    requires d.counter == 0 && Unsynchronised(d.frame) && |ps| == 13 && Proper(ps)
    ensures var e, ms := Clocks(d, true, Wave(ps)), seq(13, i requires 0 <= i < 13 => Measured(ps[i]));
            if exists word: nat :: word < 4096 && RendersAll(ms, FrameOf(word))
            then forall word: nat :: word < 4096 && RendersAll(ms, FrameOf(word)) ==>
                   Reg0(e.frame) == Some(word) && e.frame.reg1 == Bump(d.frame.reg1)
            else e.frame.reg0 == d.frame.reg0 && e.frame.reg1 == d.frame.reg1
  {
    var ms := seq(13, i requires 0 <= i < 13 => Measured(ps[i]));
    var h := ClassesOf(ps);
    ClocksDecode(d, 0, Wave(ps));
    WaveDecodesAny(ps);
    forall word: nat | word < 4096 && RendersAll(ms, FrameOf(word))
      ensures OpenAt(h, 0)
      ensures Reg0(Edges(d.frame, h)) == Some(word) && Edges(d.frame, h).reg1 == Bump(d.frame.reg1)
    {
      RenderedClasses(ps, ms, FrameOf(word));
      FrameIsOpen(word);
      FrameLeavesWord(d.frame, word);
    }
    if OpenAt(h, 0) {
      var word := FrameRecognised(h);
      ClassesRendered(ps, ms, h);
    } else {
      NoFrameNoWrite(d.frame, h);
    }
  }

  lemma FrameIsOpen(word: nat)
    ensures OpenAt(FrameOf(word), 0)
  {
    forall i | 0 < i < 13 ensures IsBit(FrameOf(word)[i]) {
      FrameMsbFirst(word, i - 1);
    }
  }

  lemma RenderedClasses(ps: seq<Pulse>, ms: seq<Pulse>, cs: seq<Class>)
    requires Proper(ps) && |ms| == |ps| && (forall i :: 0 <= i < |ps| ==> ms[i] == Measured(ps[i]))
    requires RendersAll(ms, cs)
    ensures ClassesOf(ps) == cs
  {
    forall i | 0 <= i < |ps| ensures ClassesOf(ps)[i] == cs[i] {
      assert Renders(ms[i], cs[i]);
      WindowsExactly(ps[i], cs[i]);
    }
  }

  lemma ClassesRendered(ps: seq<Pulse>, ms: seq<Pulse>, cs: seq<Class>)
    requires Proper(ps) && |ms| == |ps| && (forall i :: 0 <= i < |ps| ==> ms[i] == Measured(ps[i]))
    requires ClassesOf(ps) == cs && forall i :: 0 <= i < |cs| ==> cs[i] != OTHER
    ensures RendersAll(ms, cs)
  {
    forall i | 0 <= i < |ps| ensures Renders(ms[i], cs[i]) {
      WindowsExactly(ps[i], cs[i]);
    }
  }
}
