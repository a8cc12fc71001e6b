/** One read session of the TFTP server: a value model of its event loop. */
module TftpProtocol {
  import opened Bytes
  import Netascii

  const NOBYTES := 512
  const MAX_TIMEOUTS := 10
  const NUMBERS := 65536

  datatype Mode = Octet | NetasciiText

  /** A DATA packet: opcode 3, the block number in two big-endian bytes, the payload. */
  function DataPacket(number: nat, chunk: seq<byte>): seq<byte>
    requires number < NUMBERS
  {
    [0, 3, number / 256, number % 256] + chunk
  }

  function AckPacket(number: nat): seq<byte>
    requires number < NUMBERS
  {
    [0, 4, number / 256, number % 256]
  }

  /** ERROR packet with code 0 and the text "Access violation." */
  const ACCESS_VIOLATION: seq<byte> :=
    [0, 5, 0, 0, 65, 99, 99, 101, 115, 115, 32, 118, 105, 111, 108, 97, 116, 105, 111, 110, 46]

  function Ascii(s: string): seq<byte>
    requires forall i :: 0 <= i < |s| ==> s[i] < 128 as char
  {
    seq(|s|, i requires 0 <= i < |s| => s[i] as int)
  }

  lemma AccessViolationReads()
    ensures ACCESS_VIOLATION == [0, 5, 0, 0] + Ascii("Access violation.")
  {
  }

  /** The number a receiver reads from bytes 2 and 3. */
  function NumberOf(p: seq<byte>): nat
    requires |p| >= 4
  {
    var hi: int, lo: int := p[2], p[3];
    hi * 256 + lo
  }

  lemma DataPacketParses(number: nat, chunk: seq<byte>)
    requires number < NUMBERS
    ensures var p := DataPacket(number, chunk);
            p[0] == 0 && p[1] == 3 && p[2] as int * 256 + p[3] as int == number == NumberOf(p) && p[4..] == chunk
  {
    assert DataPacket(number, chunk)[4..] == chunk;
  }

  lemma AckPacketParses(number: nat)
    requires number < NUMBERS
    ensures var p := AckPacket(number);
            |p| == 4 && p[0] == 0 && p[1] == 4 && p[2] as int * 256 + p[3] as int == number == NumberOf(p)
  {
  }

  // ----- framing: the reference definition

  /** How many blocks a stream takes: an exact multiple of 512 ends with an empty block. */
  function Blocks(stream: seq<byte>): nat {
    |stream| / NOBYTES + 1
  }

  /** The i-th block, counting from 1. */
  function Block(stream: seq<byte>, i: nat): seq<byte>
    requires 1 <= i <= Blocks(stream)
  {
    stream[NOBYTES * (i - 1)..Min(NOBYTES * i, |stream|)]
  }

  function FirstBlocks(stream: seq<byte>, k: nat): seq<byte>
    requires k <= Blocks(stream)
  {
    if k == 0 then [] else FirstBlocks(stream, k - 1) + Block(stream, k)
  }

  /** Blocks tile the stream: all but the last are full, the last is short, nothing is lost or repeated. */
  lemma {:induction false} BlocksTileStream(stream: seq<byte>, k: nat)
    requires k <= Blocks(stream)
    ensures Blocks(stream) == |stream| / 512 + 1
    ensures FirstBlocks(stream, k) == stream[..Min(512 * k, |stream|)]
    ensures k == Blocks(stream) ==> FirstBlocks(stream, k) == stream
    ensures 1 <= k ==> (|Block(stream, k)| < 512 <==> k == Blocks(stream))
    ensures 1 <= k < Blocks(stream) ==> |Block(stream, k)| == 512
  {
    if k != 0 {
      BlocksTileStream(stream, k - 1);
      var a, b := NOBYTES * (k - 1), Min(NOBYTES * k, |stream|);
      assert stream[..b] == stream[..a] + stream[a..b];
    }
    if k == Blocks(stream) {
      assert stream[..|stream|] == stream;
    }
  }

  // ----- what a session sends

  /** The bytes a session offers. In octet mode the first block is always 512 bytes,
      so a shorter file is padded with whatever the data buffer held. */
  function Stream(mode: Mode, file: seq<byte>, buffer: seq<byte>): seq<byte>
    requires |buffer| >= NOBYTES
  {
    match mode
    case NetasciiText => Netascii.Encode(Netascii.UpToEof(file))
    case Octet => if |file| >= NOBYTES then file else file + buffer[|file|..NOBYTES]
  }

  /** An octet transfer offers the file, and after a file shorter than 512 bytes what the buffer held behind it, up to
      512 bytes: so it offers the file itself exactly when the file fills the first block. */
  lemma OctetStreamExact(file: seq<byte>, buffer: seq<byte>)
    requires |buffer| >= NOBYTES
    ensures var stream := Stream(Octet, file, buffer);
            && file <= stream && |stream| == (if |file| < 512 then 512 else |file|)
            && (forall i :: |file| <= i < 512 ==> stream[i] == buffer[i])
            && (stream == file <==> |file| >= 512)
  {
  }

  /** A netascii transfer decodes to the file up to its first 0xFF byte, so to the file exactly when it holds none. */
  lemma NetasciiStreamExact(file: seq<byte>, buffer: seq<byte>)
    requires |buffer| >= NOBYTES
    ensures Netascii.Decode(Stream(NetasciiText, file, buffer)) == Some(Netascii.UpToEof(file))
    ensures Netascii.Decode(Stream(NetasciiText, file, buffer)) == Some(file) <==> 0xFF !in file
  {
    Netascii.DecodeAfterEncode(Netascii.UpToEof(file));
    Netascii.UpToEofIsWholeFile(file);
  }

  // ----- the event loop

  /** rest: bytes not yet put in a packet; sendPack: the last packet built; live: the loop has not broken out. */
  datatype Session = Session(
    rest: seq<byte>, blockNumber: nat, timeCount: nat, stopFlag: bool, live: bool, sendPack: seq<byte>)

  datatype Event = Timeout | Packet(opcode: int)

  /** Up to 512 more bytes under the next number; fewer than 512 make it the last block. */
  function NextBlock(s: Session): Session {
    var count := Min(NOBYTES, |s.rest|);
    var number := (s.blockNumber + 1) % NUMBERS;
    Session(s.rest[count..], number, 0, count < NOBYTES, true, DataPacket(number, s.rest[..count]))
  }

  /** One iteration of the loop. */
  function Next(s: Session, e: Event): Session {
    if !s.live then s
    else match e
      case Timeout =>
        var n := s.timeCount + 1;
        s.(timeCount := n, stopFlag := s.stopFlag || n >= MAX_TIMEOUTS, live := n < MAX_TIMEOUTS)
      case Packet(opcode) =>
        if opcode == 3 then
          s.(timeCount := 0, stopFlag := true, live := false, sendPack := ACCESS_VIOLATION)
        else if opcode == 4 then
          if s.stopFlag then s.(timeCount := 0, live := false) else NextBlock(s)
        else if opcode == 5 then s.(timeCount := 0, stopFlag := true, live := false)
        else s.(timeCount := 0)
  }

  /** The packets that iteration puts on the network. */
  function Sends(s: Session, e: Event): seq<seq<byte>> {
    if !s.live then []
    else if e == Timeout then [s.sendPack]
    else if e.opcode == 3 || (e.opcode == 4 && !s.stopFlag) then [Next(s, e).sendPack]
    else []
  }

  function Run(s: Session, events: seq<Event>): Session
    decreases |events|
  {
    if events == [] then s else Run(Next(s, events[0]), events[1..])
  }

  function Log(s: Session, events: seq<Event>): seq<seq<byte>>
    decreases |events|
  {
    if events == [] then [] else Sends(s, events[0]) + Log(Next(s, events[0]), events[1..])
  }

  /** The live session whose latest packet is block i, written without reference to how it got there. */
  function At(stream: seq<byte>, i: nat, timeCount: nat): Session
    requires 1 <= i <= Blocks(stream)
  {
    Session(stream[Min(NOBYTES * i, |stream|)..], i % NUMBERS, timeCount, i == Blocks(stream), true,
            DataPacket(i % NUMBERS, Block(stream, i)))
  }

  /** An ACK moves the session to the next block, and ends it after the last one. */
  lemma AckAdvances(stream: seq<byte>, i: nat, timeCount: nat)
    requires 1 <= i <= Blocks(stream)
    ensures var s := At(stream, i, timeCount);
            if i < Blocks(stream)
            then Next(s, Packet(4)) == At(stream, i + 1, 0)
                 && Sends(s, Packet(4)) == [DataPacket((i + 1) % NUMBERS, Block(stream, i + 1))]
            else Next(s, Packet(4)) == At(stream, i, 0).(live := false) && Sends(s, Packet(4)) == []
  {
    if i < Blocks(stream) {
      var rest := stream[NOBYTES * i..];
      var count := Min(NOBYTES, |rest|);
      assert rest[..count] == Block(stream, i + 1);
      assert rest[count..] == stream[Min(NOBYTES * (i + 1), |stream|)..];
      NumberAdvances(i);
    }
  }

  lemma NumberAdvances(i: nat)
    ensures (i % NUMBERS + 1) % NUMBERS == (i + 1) % NUMBERS
  {
  }

  /** Anything else either ends the session or leaves it at the same block. */
  lemma OtherEventsStay(stream: seq<byte>, i: nat, timeCount: nat, e: Event)
    requires 1 <= i <= Blocks(stream) && e != Packet(4)
    ensures var s := Next(At(stream, i, timeCount), e);
            && (s.live ==> s == At(stream, i, s.timeCount))
            && (e == Timeout ==> s.timeCount == timeCount + 1 && s.live == (timeCount + 1 < MAX_TIMEOUTS))
            && (e != Timeout ==> s.timeCount == 0 && s.live == (e.opcode !in {3, 5}))
  {
  }

  function Acks(events: seq<Event>): nat {
    if events == [] then 0 else (if events[0] == Packet(4) then 1 else 0) + Acks(events[1..])
  }

  /** In every live state, whatever the mix of timeouts and packets, the session holds block 1 + (ACKs so far),
      numbered mod 65536, and the packet it would retransmit is that block. */
  lemma {:induction false} LiveStateDependsOnAcks(stream: seq<byte>, i: nat, timeCount: nat, events: seq<Event>)
    requires 1 <= i <= Blocks(stream)
    requires Run(At(stream, i, timeCount), events).live
    ensures i + Acks(events) <= Blocks(stream)
    ensures var s := Run(At(stream, i, timeCount), events);
            s == At(stream, i + Acks(events), s.timeCount)
    decreases |events|
  {
    if events != [] {
      var s := Next(At(stream, i, timeCount), events[0]);
      DeadStaysDead(s, events[1..]);
      if events[0] == Packet(4) {
        AckAdvances(stream, i, timeCount);
        LiveStateDependsOnAcks(stream, i + 1, 0, events[1..]);
      } else {
        OtherEventsStay(stream, i, timeCount, events[0]);
        LiveStateDependsOnAcks(stream, i, s.timeCount, events[1..]);
      }
    }
  }

  lemma {:induction false} DeadStaysDead(s: Session, events: seq<Event>)
    ensures !s.live ==> Run(s, events) == s && Log(s, events) == []
    decreases |events|
  {
    if events != [] && !s.live {
      assert Next(s, events[0]) == s;
      DeadStaysDead(s, events[1..]);
    }
  }

  /** The packets of blocks i, i+1, ..., Blocks(stream). */
  function PacketsFrom(stream: seq<byte>, i: nat): seq<seq<byte>>
    requires 1 <= i <= Blocks(stream) + 1
    decreases Blocks(stream) + 1 - i
  {
    if i == Blocks(stream) + 1 then []
    else [DataPacket(i % NUMBERS, Block(stream, i))] + PacketsFrom(stream, i + 1)
  }

  function Repeat<T>(x: T, n: nat): seq<T> {
    if n == 0 then [] else [x] + Repeat(x, n - 1)
  }

  /** With one ACK per block and no loss, the packets sent are block 1 to the last, each once, in order. */
  lemma {:induction false} AckedRunSendsEveryBlock(stream: seq<byte>, i: nat)
    requires 1 <= i <= Blocks(stream)
    ensures var s, acks := At(stream, i, 0), Repeat(Packet(4), Blocks(stream) + 1 - i);
            !Run(s, acks).live && [s.sendPack] + Log(s, acks) == PacketsFrom(stream, i)
    decreases Blocks(stream) - i
  {
    AckAdvances(stream, i, 0);
    var n := Blocks(stream) - i;
    var events := Repeat(Packet(4), n + 1);
    assert events[1..] == Repeat(Packet(4), n);
    if n > 0 {
      AckedRunSendsEveryBlock(stream, i + 1);
    } else {
      DeadStaysDead(Next(At(stream, i, 0), Packet(4)), events[1..]);
    }
  }

  /** Every packet a session ever sends is the block its ACK count stands at, byte for byte also when it is repeated
      after a timeout, or else the access violation that answers a DATA packet and ends the session. */
  lemma {:induction false} SentPacketsAreBlocks(stream: seq<byte>, i: nat, timeCount: nat, events: seq<Event>, k: nat)
      returns (j: nat)
    requires 1 <= i <= Blocks(stream) && k < |Log(At(stream, i, timeCount), events)|
    ensures i <= j <= i + Acks(events) && j <= Blocks(stream)
    ensures var log := Log(At(stream, i, timeCount), events);
            || log[k] == DataPacket(j % NUMBERS, Block(stream, j))
            || (log[k] == ACCESS_VIOLATION && k == |log| - 1 && Packet(3) in events)
    decreases |events|
  {
    var s, e, rest := At(stream, i, timeCount), events[0], events[1..];
    var next := Next(s, e);
    AckAdvances(stream, i, timeCount);
    DeadStaysDead(next, rest);
    j := i;
    if e == Packet(4) {
      j := i + 1;
      if k > 0 {
        j := SentPacketsAreBlocks(stream, i + 1, 0, rest, k - 1);
      }
    } else {
      OtherEventsStay(stream, i, timeCount, e);
      var sent := |Sends(s, e)|;
      if k >= sent {
        j := SentPacketsAreBlocks(stream, i, next.timeCount, rest, k - sent);
      }
    }
  }

  // ----- termination

  /** Iterations of the loop before it breaks out (or the events run out). */
  function Iterations(s: Session, events: seq<Event>): nat
    decreases |events|
  {
    if !s.live || events == [] then 0 else 1 + Iterations(Next(s, events[0]), events[1..])
  }

  predicate Recognised(events: seq<Event>) {
    forall e :: e in events ==> e == Timeout || e.opcode == 3 || e.opcode == 4 || e.opcode == 5
  }

  /** A session with b blocks to be acknowledged ends within 10*b iterations. */
  lemma {:induction false} SessionEnds(stream: seq<byte>, i: nat, timeCount: nat, events: seq<Event>)
    requires 1 <= i <= Blocks(stream) && timeCount < MAX_TIMEOUTS && Recognised(events)
    ensures var bound := 10 * (Blocks(stream) + 1 - i) - timeCount;
            && Iterations(At(stream, i, timeCount), events) <= bound
            && (|events| >= bound ==> !Run(At(stream, i, timeCount), events).live)
    decreases |events|
  {
    if events != [] {
      var s := Next(At(stream, i, timeCount), events[0]);
      assert events[0] in events;
      DeadStaysDead(s, events[1..]);
      if events[0] == Packet(4) {
        AckAdvances(stream, i, timeCount);
        if i < Blocks(stream) {
          SessionEnds(stream, i + 1, 0, events[1..]);
        }
      } else {
        OtherEventsStay(stream, i, timeCount, events[0]);
        if s.live {
          SessionEnds(stream, i, timeCount + 1, events[1..]);
        }
      }
    }
  }

  /** The bound of SessionEnds is attained, by nine timeouts before each ACK. */
  lemma {:induction false} SessionBoundIsTight(stream: seq<byte>, i: nat, timeCount: nat) returns (slow: seq<Event>)
    requires 1 <= i <= Blocks(stream) && timeCount < MAX_TIMEOUTS
    ensures Recognised(slow)
    ensures Iterations(At(stream, i, timeCount), slow) == 10 * (Blocks(stream) + 1 - i) - timeCount
    decreases Blocks(stream) + 1 - i, MAX_TIMEOUTS - timeCount
  {
    var e := if timeCount == MAX_TIMEOUTS - 1 then Packet(4) else Timeout;
    slow := [];
    if timeCount < MAX_TIMEOUTS - 1 {
      OtherEventsStay(stream, i, timeCount, Timeout);
      slow := SessionBoundIsTight(stream, i, timeCount + 1);
    } else {
      AckAdvances(stream, i, timeCount);
      if i < Blocks(stream) {
        slow := SessionBoundIsTight(stream, i + 1, 0);
      }
    }
    OneIteration(At(stream, i, timeCount), e, slow);
    slow := [e] + slow;
  }

  lemma OneIteration(s: Session, e: Event, rest: seq<Event>)
    requires s.live && Recognised([e])
    ensures Iterations(s, [e] + rest) == 1 + Iterations(Next(s, e), rest)
    ensures Recognised(rest) ==> Recognised([e] + rest)
  {
    assert ([e] + rest)[1..] == rest;
    assert e in [e];
  }

  /** Packets of any other kind only reset the timeout counter, so they can keep a session alive for ever. */
  lemma {:induction false} UnrecognisedPacketsNeverEndIt(stream: seq<byte>, i: nat, opcode: int, n: nat)
    requires 1 <= i <= Blocks(stream) && opcode !in {3, 4, 5}
    ensures Iterations(At(stream, i, 0), Repeat(Packet(opcode), n)) == n
  {
    if n > 0 {
      OtherEventsStay(stream, i, 0, Packet(opcode));
      UnrecognisedPacketsNeverEndIt(stream, i, opcode, n - 1);
      assert Repeat(Packet(opcode), n)[1..] == Repeat(Packet(opcode), n - 1);
    }
  }

  /** Timeouts, and packets with these opcodes only. */
  predicate Only(opcodes: set<int>, events: seq<Event>) {
    forall e :: e in events ==> e == Timeout || e.opcode in opcodes
  }

  /** However timeouts and such packets come, the session is over after some number of iterations. */
  ghost predicate AlwaysEnds(stream: seq<byte>, opcodes: set<int>, bound: nat) {
    forall events :: Only(opcodes, events) && |events| >= bound ==> !Run(At(stream, 1, 0), events).live
  }

  lemma {:induction false} OtherPacketsKeepAlive(stream: seq<byte>, opcode: int, n: nat)
    requires opcode !in {3, 4, 5}
    ensures Run(At(stream, 1, 0), Repeat(Packet(opcode), n)).live
    ensures |Repeat(Packet(opcode), n)| == n && Only({opcode}, Repeat(Packet(opcode), n))
  {
    if n > 0 {
      OtherEventsStay(stream, 1, 0, Packet(opcode));
      OtherPacketsKeepAlive(stream, opcode, n - 1);
      assert Repeat(Packet(opcode), n)[1..] == Repeat(Packet(opcode), n - 1);
    }
  }

  lemma Stranger(opcodes: set<int>) returns (opcode: int)
    requires !(opcodes <= {3, 4, 5})
    ensures opcode in opcodes && opcode !in {3, 4, 5}
  {
    assert (forall o :: o in opcodes ==> o in {3, 4, 5}) ==> opcodes <= {3, 4, 5};
    opcode :| opcode in opcodes && opcode !in {3, 4, 5};
  }

  /** A bound on the session exists exactly when nothing but DATA, ACK and ERROR packets can arrive, and 10 iterations
      per block is one. */
  lemma EndsExactly(stream: seq<byte>, opcodes: set<int>)
    ensures (exists bound :: AlwaysEnds(stream, opcodes, bound)) <==> opcodes <= {3, 4, 5}
    ensures opcodes <= {3, 4, 5} ==> AlwaysEnds(stream, opcodes, 10 * Blocks(stream))
  {
    if opcodes <= {3, 4, 5} {
      forall events | Only(opcodes, events) && |events| >= 10 * Blocks(stream)
        ensures !Run(At(stream, 1, 0), events).live
      {
        SessionEnds(stream, 1, 0, events);
      }
      assert AlwaysEnds(stream, opcodes, 10 * Blocks(stream));
    } else {
      var opcode := Stranger(opcodes);
      forall bound: nat ensures !AlwaysEnds(stream, opcodes, bound) {
        OtherPacketsKeepAlive(stream, opcode, bound);
        assert Only(opcodes, Repeat(Packet(opcode), bound));
      }
    }
  }
}
