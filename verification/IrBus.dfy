/** A valid/ready response channel that holds at most one response, as both the B and the R channel are built. */
module ResponseChannel {
  /** accept: a request is taken this clock; ready: the master takes responses this clock. */
  datatype Clock = Clock(accept: bool, ready: bool)

  function Valid(valid: bool, c: Clock): bool {
    if c.accept && !valid then true else if c.ready && valid then false else valid
  }

  function ValidAfter(valid: bool, cs: seq<Clock>): bool
    decreases |cs|
  {
    if cs == [] then valid else Valid(ValidAfter(valid, cs[..|cs| - 1]), cs[|cs| - 1])
  }

  function Accepted(cs: seq<Clock>): nat {
    if cs == [] then 0 else Accepted(cs[..|cs| - 1]) + if cs[|cs| - 1].accept then 1 else 0
  }

  /** Responses the master took. */
  function Completed(valid: bool, cs: seq<Clock>): nat {
    if cs == [] then 0
    else
      var n := |cs| - 1;
      Completed(valid, cs[..n]) + if ValidAfter(valid, cs[..n]) && cs[n].ready then 1 else 0
  }

  /** Requests taken while an earlier response was still waiting. */
  function Overlapped(valid: bool, cs: seq<Clock>): nat {
    if cs == [] then 0
    else
      var n := |cs| - 1;
      Overlapped(valid, cs[..n]) + if ValidAfter(valid, cs[..n]) && cs[n].accept then 1 else 0
  }

  function Count(b: bool): nat {
    if b then 1 else 0
  }

  /** Every accepted request is answered, is the pending one, or was taken over a waiting response and lost. */
  lemma {:induction false} RequestsConserved(valid: bool, cs: seq<Clock>)
    ensures Accepted(cs) + Count(valid) == Completed(valid, cs) + Count(ValidAfter(valid, cs)) + Overlapped(valid, cs)
  {
    if cs != [] {
      RequestsConserved(valid, cs[..|cs| - 1]);
    }
  }

  lemma SecondRequestOverlaps()
    ensures var cs := [Clock(false, false), Clock(true, false), Clock(false, false), Clock(true, false)];
            Accepted(cs) == 2 && Completed(false, cs) == 0 && Overlapped(false, cs) == 1
  {
    var c0, c1 := Clock(false, false), Clock(true, false);
    var s1, s2, s3, s4 := [c0], [c0, c1], [c0, c1, c0], [c0, c1, c0, c1];
    assert Accepted([]) == Completed(false, []) == Overlapped(false, []) == 0 && !ValidAfter(false, []);
    assert s1[..0] == [] && s2[..1] == s1 && s3[..2] == s2 && s4[..3] == s3;
    assert !ValidAfter(false, s1) && Accepted(s1) == Completed(false, s1) == Overlapped(false, s1) == 0;
    assert ValidAfter(false, s2) && Accepted(s2) == 1 && Completed(false, s2) == Overlapped(false, s2) == 0;
    assert ValidAfter(false, s3) && Accepted(s3) == 1 && Completed(false, s3) == Overlapped(false, s3) == 0;
  }

  /** A response stays until the master takes it. */
  lemma {:induction false} ResponseHeld(valid: bool, cs: seq<Clock>)
    requires valid && forall i :: 0 <= i < |cs| ==> !cs[i].ready
    ensures ValidAfter(valid, cs)
  {
    if cs != [] {
      ResponseHeld(valid, cs[..|cs| - 1]);
    }
  }
}

/** A latch that a clock may raise or clear; clearing wins. */
module InterruptLatch {
  datatype Clock = Clock(raises: bool, clears: bool)

  function Level(high: bool, cs: seq<Clock>): bool
    decreases |cs|
  {
    if cs == [] then high
    else var n := |cs| - 1; !cs[n].clears && (Level(high, cs[..n]) || cs[n].raises)
  }

  predicate RaisedAndKept(cs: seq<Clock>, t: nat) {
    t < |cs| && cs[t].raises && forall u :: t <= u < |cs| ==> !cs[u].clears
  }

  /** The line is high exactly when some clock raised it (or it was high at the start) and none since cleared it. */
  lemma {:induction false} LevelExactly(high: bool, cs: seq<Clock>)
    ensures Level(high, cs) <==>
              (exists t :: RaisedAndKept(cs, t)) || (high && forall u :: 0 <= u < |cs| ==> !cs[u].clears)
  {
    if cs != [] {
      var n := |cs| - 1;
      LevelExactly(high, cs[..n]);
      if !cs[n].clears {
        assert cs[n].raises ==> RaisedAndKept(cs, n);
        forall t: nat | t < n ensures RaisedAndKept(cs[..n], t) == RaisedAndKept(cs, t) {
        }
      }
    }
  }
}

/** One byte of a register that a clock may write. */
module RegisterByte {
  import opened Bytes

  datatype Clock = Clock(writes: bool, data: byte)

  function After(value: byte, cs: seq<Clock>): byte
    decreases |cs|
  {
    if cs == [] then value
    else var n := |cs| - 1; if cs[n].writes then cs[n].data else After(value, cs[..n])
  }

  predicate LastWrite(cs: seq<Clock>, k: nat) {
    k < |cs| && cs[k].writes && forall j :: k < j < |cs| ==> !cs[j].writes
  }

  /** The byte holds the data of the last write, or what it held at the start when there was none. */
  lemma {:induction false} HoldsLastWritten(value: byte, cs: seq<Clock>)
    ensures forall k: nat :: LastWrite(cs, k) ==> After(value, cs) == cs[k].data
    ensures (forall k :: 0 <= k < |cs| ==> !cs[k].writes) ==> After(value, cs) == value
  {
    if cs != [] {
      var n := |cs| - 1;
      HoldsLastWritten(value, cs[..n]);
      forall k: nat | LastWrite(cs, k) && k < n ensures LastWrite(cs[..n], k) {
      }
    }
  }
}
