/** The receiving end of section 2 of RFC 1350: take the expected block, re-acknowledge a repeat, ignore the rest.
    Block numbers are compared mod 65536 only. */
module TftpClient {
  import opened Bytes
  import opened TftpProtocol

  datatype Client = Client(accepted: nat, bytes: seq<byte>, done: bool)

  const FRESH := Client(0, [], false)

  predicate Expects(c: Client, p: seq<byte>) {
    |p| >= 4 && p[1] == 3 && !c.done && NumberOf(p) == (c.accepted + 1) % NUMBERS
  }

  predicate Repeats(c: Client, p: seq<byte>) {
    |p| >= 4 && p[1] == 3 && c.accepted > 0 && NumberOf(p) == c.accepted % NUMBERS
  }

  function Receive(c: Client, p: seq<byte>): Client {
    if Expects(c, p) then Client(c.accepted + 1, c.bytes + p[4..], |p[4..]| < NOBYTES) else c
  }

  /** The client acknowledges what it takes and what it has just taken. */
  function Replies(c: Client, p: seq<byte>): seq<seq<byte>> {
    if Expects(c, p) || Repeats(c, p) then [AckPacket(NumberOf(p) % NUMBERS)] else []
  }

  /** The client holds exactly the first `accepted` blocks of the stream, and is done exactly when they are all. */
  predicate Holds(c: Client, stream: seq<byte>) {
    && c.accepted <= Blocks(stream)
    && c.bytes == FirstBlocks(stream, c.accepted)
    && c.done == (c.accepted == Blocks(stream))
  }

  lemma HoldsIsPrefix(c: Client, stream: seq<byte>)
    requires Holds(c, stream)
    ensures c.bytes <= stream
    ensures c.done ==> c.bytes == stream
  {
    BlocksTileStream(stream, c.accepted);
  }

  function PacketOf(stream: seq<byte>, i: nat): seq<byte>
    requires 1 <= i <= Blocks(stream)
  {
    DataPacket(i % NUMBERS, Block(stream, i))
  }

  function AckOf(i: nat): seq<byte> {
    AckPacket(i % NUMBERS)
  }

  lemma PacketParses(stream: seq<byte>, i: nat)
    requires 1 <= i <= Blocks(stream)
    ensures var p := PacketOf(stream, i);
            |p| >= 4 && p[1] == 3 && NumberOf(p) == i % NUMBERS && p[4..] == Block(stream, i)
  {
    DataPacketParses(i % NUMBERS, Block(stream, i));
  }

  /** Block i is taken exactly when its number is the next one mod 65536, and acknowledged also when it is the last one.
      Taking the block that really is the next one keeps the client on the stream. */
  lemma ReceiveBlock(c: Client, stream: seq<byte>, i: nat)
    requires 1 <= i <= Blocks(stream)
    ensures var p := PacketOf(stream, i);
            && (Expects(c, p) <==> !c.done && i % NUMBERS == (c.accepted + 1) % NUMBERS)
            && (Repeats(c, p) <==> c.accepted > 0 && i % NUMBERS == c.accepted % NUMBERS)
            && (Expects(c, p) ==>
                  Receive(c, p) == Client(c.accepted + 1, c.bytes + Block(stream, i), i == Blocks(stream)))
            && (Holds(c, stream) && i == c.accepted + 1 ==> Expects(c, p) && Holds(Receive(c, p), stream))
            && Replies(c, p) == if Expects(c, p) || Repeats(c, p) then [AckOf(i)] else []
  {
    PacketParses(stream, i);
    BlocksTileStream(stream, i);
  }
}

/** Server, client and a channel that may lose any packet, where a timeout fires only after a loss. */
module TftpLockStep {
  import opened Bytes
  import Netascii
  import opened TftpProtocol
  import opened TftpClient

  datatype Wire = Idle | ToClient(p: seq<byte>) | ToServer(p: seq<byte>)

  datatype System = System(server: Session, client: Client, wire: Wire)

  datatype Action = Lose | Deliver | TimeOut

  function Put(sent: seq<seq<byte>>, wrap: seq<byte> -> Wire): Wire {
    if sent == [] then Idle else wrap(sent[0])
  }

  function Act(w: System, a: Action): System {
    match a
    case Lose => w.(wire := Idle)
    case TimeOut =>
      if w.wire != Idle then w
      else System(Next(w.server, Timeout), w.client, Put(Sends(w.server, Timeout), p => ToClient(p)))
    case Deliver =>
      match w.wire
      case Idle => w
      case ToClient(p) => System(w.server, Receive(w.client, p), Put(Replies(w.client, p), q => ToServer(q)))
      case ToServer(p) =>
        var e := Packet(if |p| >= 2 then p[1] else 0);
        System(Next(w.server, e), w.client, Put(Sends(w.server, e), q => ToClient(q)))
  }

  function Acts(w: System, actions: seq<Action>): System
    decreases |actions|
  {
    if actions == [] then w else Acts(Act(w, actions[0]), actions[1..])
  }

  function Initial(stream: seq<byte>): System {
    System(At(stream, 1, 0), FRESH, ToClient(PacketOf(stream, 1)))
  }

  /** i: the index of the server's current block, not reduced mod 65536. */
  predicate Inv(stream: seq<byte>, w: System, i: nat) {
    && 1 <= i <= Blocks(stream)
    && Holds(w.client, stream)
    && (w.client.accepted == i - 1 || w.client.accepted == i)
    && w.server.timeCount <= MAX_TIMEOUTS
    && (w.server.live ==> w.server.timeCount < MAX_TIMEOUTS && w.server == At(stream, i, w.server.timeCount))
    && (!w.server.live && w.server.timeCount < MAX_TIMEOUTS ==> w.client.done)
    && match w.wire
       case Idle => true
       case ToClient(p) => p == PacketOf(stream, i)
       case ToServer(p) => p == AckOf(i) && w.client.accepted == i
  }

  lemma DeliverDataKeepsInv(stream: seq<byte>, w: System, i: nat)
    requires Inv(stream, w, i) && w.wire == ToClient(PacketOf(stream, i))
    ensures Inv(stream, Act(w, Deliver), i)
    ensures Act(w, Deliver).wire == ToServer(AckOf(i)) && Act(w, Deliver).server == w.server
  {
    ReceiveBlock(w.client, stream, i);
  }

  lemma DeliverAckKeepsInv(stream: seq<byte>, w: System, i: nat) returns (j: nat)
    requires Inv(stream, w, i) && w.wire == ToServer(AckOf(i))
    ensures Inv(stream, Act(w, Deliver), j)
    ensures Act(w, Deliver).client == w.client
    ensures w.server.live && i < Blocks(stream) ==>
              j == i + 1 && Act(w, Deliver).server == At(stream, j, 0)
              && Act(w, Deliver).wire == ToClient(PacketOf(stream, j))
  {
    j := i;
    if w.server.live {
      AckAdvances(stream, i, w.server.timeCount);
      j := if i < Blocks(stream) then i + 1 else i;
    }
  }

  lemma ActKeepsInv(stream: seq<byte>, w: System, i: nat, a: Action) returns (j: nat)
    requires Inv(stream, w, i)
    ensures Inv(stream, Act(w, a), j)
  {
    j := i;
    match a
    case Lose =>
    case TimeOut =>
      if w.server.live {
        OtherEventsStay(stream, i, w.server.timeCount, Timeout);
      }
    case Deliver =>
      if w.wire.ToClient? {
        DeliverDataKeepsInv(stream, w, i);
      } else if w.wire.ToServer? {
        j := DeliverAckKeepsInv(stream, w, i);
      }
  }

  lemma {:induction false} ActsKeepInv(stream: seq<byte>, w: System, i: nat, actions: seq<Action>) returns (j: nat)
    requires Inv(stream, w, i)
    ensures Inv(stream, Acts(w, actions), j)
    decreases |actions|
  {
    j := i;
    if actions != [] {
      j := ActKeepsInv(stream, w, i, actions[0]);
      j := ActsKeepInv(stream, Act(w, actions[0]), j, actions[1..]);
    }
  }

  /** Delivery, for streams of any length: whatever is lost, the client's bytes are a prefix of the stream, they are
      the stream once it has seen the short block, and the server never ends normally before that. */
  lemma Delivery(stream: seq<byte>, actions: seq<Action>)
    ensures var w := Acts(Initial(stream), actions);
            && w.client.bytes <= stream
            && (w.client.done ==> w.client.bytes == stream)
            && (!w.server.live && w.server.timeCount < MAX_TIMEOUTS ==> w.client.done)
  {
    var j := ActsKeepInv(stream, Initial(stream), 1, actions);
    HoldsIsPrefix(Acts(Initial(stream), actions).client, stream);
  }

  /** Deliver everything, retransmitting first if nothing is on the wire. */
  function Finish(w: System, left: nat): seq<Action> {
    match w.wire
    case Idle => [TimeOut, Deliver, Deliver] + Rounds(left)
    case ToClient(_) => [Deliver, Deliver] + Rounds(left)
    case ToServer(_) => [Deliver] + Rounds(left)
  }

  function Rounds(n: nat): seq<Action> {
    if n == 0 then [] else [Deliver, Deliver] + Rounds(n - 1)
  }

  lemma {:induction false} ActsAppend(w: System, xs: seq<Action>, ys: seq<Action>)
    ensures Acts(w, xs + ys) == Acts(Acts(w, xs), ys)
    decreases |xs|
  {
    if xs == [] {
      assert xs + ys == ys;
    } else {
      assert (xs + ys)[1..] == xs[1..] + ys;
      ActsAppend(Act(w, xs[0]), xs[1..], ys);
    }
  }

  /** From a state with block i on the wire, one round per remaining block completes the transfer. */
  lemma {:induction false} RoundsComplete(stream: seq<byte>, w: System, i: nat)
    requires Inv(stream, w, i) && w.server.live && w.wire == ToClient(PacketOf(stream, i))
    ensures var v := Acts(w, Rounds(Blocks(stream) + 1 - i));
            v.client.done && v.client.bytes == stream && !v.server.live
    decreases Blocks(stream) - i
  {
    var n := Blocks(stream) - i;
    var u := Act(w, Deliver);
    DeliverDataKeepsInv(stream, w, i);
    AckCompletes(stream, u, i);
    assert Rounds(n + 1) == [Deliver] + ([Deliver] + Rounds(n));
    assert Rounds(n + 1)[1..] == [Deliver] + Rounds(n);
  }

  lemma {:induction false} AckCompletes(stream: seq<byte>, w: System, i: nat)
    requires Inv(stream, w, i) && w.server.live && w.wire == ToServer(AckOf(i))
    ensures var v := Acts(w, [Deliver] + Rounds(Blocks(stream) - i));
            v.client.done && v.client.bytes == stream && !v.server.live
    decreases Blocks(stream) - i, 0
  {
    var n := Blocks(stream) - i;
    var u := Act(w, Deliver);
    assert ([Deliver] + Rounds(n))[1..] == Rounds(n);
    var j := DeliverAckKeepsInv(stream, w, i);
    if n > 0 {
      RoundsComplete(stream, u, j);
    } else {
      AckAdvances(stream, i, w.server.timeCount);
      HoldsIsPrefix(u.client, stream);
    }
  }

  lemma LossesThatStopLetItFinish(stream: seq<byte>, w: System, i: nat)
    requires Inv(stream, w, i) && w.server.live
    requires w.wire == Idle ==> w.server.timeCount + 1 < MAX_TIMEOUTS
    ensures var v := Acts(w, Finish(w, Blocks(stream) - i));
            v.client.done && v.client.bytes == stream && !v.server.live
  {
    var n := Blocks(stream) - i;
    match w.wire
    case Idle =>
      OtherEventsStay(stream, i, w.server.timeCount, Timeout);
      RoundsComplete(stream, Act(w, TimeOut), i);
      assert ([TimeOut, Deliver, Deliver] + Rounds(n))[1..] == Rounds(n + 1);
    case ToClient(_) =>
      RoundsComplete(stream, w, i);
    case ToServer(_) =>
      AckCompletes(stream, w, i);
  }

  /** Progress: from every reachable live state with a retransmission to spare the transfer can still finish,
      so Delivery does not hold because the system gets stuck. */
  lemma Progress(stream: seq<byte>, actions: seq<Action>) returns (more: seq<Action>)
    requires var w := Acts(Initial(stream), actions);
             w.server.live && (w.wire == Idle ==> w.server.timeCount + 1 < MAX_TIMEOUTS)
    ensures Lose !in more
    ensures var v := Acts(Initial(stream), actions + more);
            v.client.done && v.client.bytes == stream && !v.server.live
  {
    var w := Acts(Initial(stream), actions);
    var i := ActsKeepInv(stream, Initial(stream), 1, actions);
    more := Finish(w, Blocks(stream) - i);
    RoundsLoseNothing(Blocks(stream) - i);
    LossesThatStopLetItFinish(stream, w, i);
    ActsAppend(Initial(stream), actions, more);
  }

  lemma RoundsLoseNothing(n: nat)
    ensures Lose !in Rounds(n)
  {
  }

  /** End to end: a finished netascii transfer decodes to the file up to its first 0xFF byte, and a finished octet
      transfer starts with the file; each is the file exactly when the file holds no 0xFF byte, respectively fills its
      first block. */
  lemma FileDelivered(mode: Mode, file: seq<byte>, buffer: seq<byte>, actions: seq<Action>)
    requires |buffer| >= NOBYTES
    requires Acts(Initial(Stream(mode, file, buffer)), actions).client.done
    ensures var got := Acts(Initial(Stream(mode, file, buffer)), actions).client.bytes;
            && (mode == NetasciiText ==>
                  && Netascii.Decode(got) == Some(Netascii.UpToEof(file))
                  && (Netascii.Decode(got) == Some(file) <==> 0xFF !in file))
            && (mode == Octet ==>
                  && |got| >= |file| && got[..|file|] == file
                  && (got == file <==> |file| >= 512))
  {
    Delivery(Stream(mode, file, buffer), actions);
    NetasciiStreamExact(file, buffer);
    OctetStreamExact(file, buffer);
  }
}

/** Server and client over a network that may lose, delay, duplicate and reorder packets and time out at will:
    every packet ever sent stays deliverable. */
module TftpAnyNetwork {
  import opened Bytes
  import opened TftpProtocol
  import opened TftpClient

  datatype World = World(server: Session, client: Client, data: set<seq<byte>>, acks: set<seq<byte>>)

  datatype Move = TimeOut | ToClient(p: seq<byte>) | ToServer(p: seq<byte>)

  function Elements(ps: seq<seq<byte>>): set<seq<byte>> {
    set p | p in ps
  }

  function Do(w: World, m: Move): World {
    match m
    case TimeOut =>
      World(Next(w.server, Timeout), w.client, w.data + Elements(Sends(w.server, Timeout)), w.acks)
    case ToClient(p) =>
      if p !in w.data then w
      else World(w.server, Receive(w.client, p), w.data, w.acks + Elements(Replies(w.client, p)))
    case ToServer(p) =>
      if p !in w.acks then w
      else World(Next(w.server, Packet(4)), w.client, w.data + Elements(Sends(w.server, Packet(4))), w.acks)
  }

  function DoAll(w: World, moves: seq<Move>): World
    decreases |moves|
  {
    if moves == [] then w else DoAll(Do(w, moves[0]), moves[1..])
  }

  function Initial(stream: seq<byte>): World {
    World(At(stream, 1, 0), FRESH, {PacketOf(stream, 1)}, {})
  }

  predicate IsPacket(stream: seq<byte>, p: seq<byte>, j: nat) {
    1 <= j <= Blocks(stream) && p == PacketOf(stream, j)
  }

  ghost predicate Inv(stream: seq<byte>, w: World, i: nat) {
    && 1 <= i <= Blocks(stream)
    && Holds(w.client, stream)
    && (w.server.live ==> w.server == At(stream, i, w.server.timeCount))
    && forall p :: p in w.data ==> exists j :: IsPacket(stream, p, j)
  }

  lemma NumbersDistinct(a: nat, b: nat)
    requires 1 <= a <= NUMBERS && 1 <= b <= NUMBERS && a % NUMBERS == b % NUMBERS
    ensures a == b
  {
  }

  lemma ToClientKeepsInv(stream: seq<byte>, w: World, i: nat, p: seq<byte>)
    requires Inv(stream, w, i) && Blocks(stream) <= NUMBERS && p in w.data
    ensures Inv(stream, Do(w, ToClient(p)), i)
  {
    var k :| IsPacket(stream, p, k);
    ReceiveBlock(w.client, stream, k);
    if Expects(w.client, p) {
      NumbersDistinct(k, w.client.accepted + 1);
    }
  }

  lemma ServerMoveKeepsInv(stream: seq<byte>, w: World, i: nat, e: Event) returns (j: nat)
    requires Inv(stream, w, i) && (e == Timeout || e == Packet(4))
    ensures i <= j <= Blocks(stream)
    ensures Next(w.server, e).live ==> Next(w.server, e) == At(stream, j, Next(w.server, e).timeCount)
    ensures forall p :: p in Sends(w.server, e) ==> p == PacketOf(stream, j)
  {
    j := i;
    if w.server.live && e == Timeout {
      OtherEventsStay(stream, i, w.server.timeCount, Timeout);
    } else if w.server.live {
      AckAdvances(stream, i, w.server.timeCount);
      j := if i < Blocks(stream) then i + 1 else i;
    }
  }

  lemma DoKeepsInv(stream: seq<byte>, w: World, i: nat, m: Move) returns (j: nat)
    requires Inv(stream, w, i) && Blocks(stream) <= NUMBERS
    ensures Inv(stream, Do(w, m), j)
  {
    j := i;
    match m
    case ToClient(p) =>
      if p in w.data {
        ToClientKeepsInv(stream, w, i, p);
      }
    case TimeOut =>
      j := ServerMoveKeepsInv(stream, w, i, Timeout);
      assert IsPacket(stream, PacketOf(stream, j), j);
    case ToServer(p) =>
      if p in w.acks {
        j := ServerMoveKeepsInv(stream, w, i, Packet(4));
        assert IsPacket(stream, PacketOf(stream, j), j);
      }
  }

  lemma {:induction false} DoAllKeepsInv(stream: seq<byte>, w: World, i: nat, moves: seq<Move>) returns (j: nat)
    requires Inv(stream, w, i) && Blocks(stream) <= NUMBERS
    ensures Inv(stream, DoAll(w, moves), j)
    decreases |moves|
  {
    j := i;
    if moves != [] {
      j := DoKeepsInv(stream, w, i, moves[0]);
      j := DoAllKeepsInv(stream, Do(w, moves[0]), j, moves[1..]);
    }
  }

  lemma {:induction false} DoAllAppend(w: World, xs: seq<Move>, ys: seq<Move>)
    ensures DoAll(w, xs + ys) == DoAll(DoAll(w, xs), ys)
    decreases |xs|
  {
    if xs == [] {
      assert xs + ys == ys;
    } else {
      assert (xs + ys)[1..] == xs[1..] + ys;
      DoAllAppend(Do(w, xs[0]), xs[1..], ys);
    }
  }

  /** The server stands at block k, the client has the blocks before it, and old packets can still arrive. */
  ghost predicate Climbed(stream: seq<byte>, w: World, k: nat) {
    && 1 <= k <= Blocks(stream)
    && w.server == At(stream, k, 0)
    && Holds(w.client, stream) && w.client.accepted == k - 1
    && forall j :: 1 <= j <= k ==> PacketOf(stream, j) in w.data
  }

  lemma ClimbOne(stream: seq<byte>, w: World, k: nat)
    requires Climbed(stream, w, k) && k < Blocks(stream)
    ensures Climbed(stream, DoAll(w, [ToClient(PacketOf(stream, k)), ToServer(AckOf(k))]), k + 1)
  {
    var u := Do(w, ToClient(PacketOf(stream, k)));
    ReceiveBlock(w.client, stream, k);
    assert AckOf(k) in u.acks;
    AckAdvances(stream, k, 0);
    var v := Do(u, ToServer(AckOf(k)));
    assert v.data == w.data + {PacketOf(stream, k + 1)};
    assert DoAll(v, []) == v && DoAll(u, [ToServer(AckOf(k))]) == v;
    assert [ToClient(PacketOf(stream, k)), ToServer(AckOf(k))][1..] == [ToServer(AckOf(k))];
  }

  lemma {:induction false} Climb(stream: seq<byte>, k: nat) returns (moves: seq<Move>)
    requires 1 <= k <= Blocks(stream)
    ensures Climbed(stream, DoAll(Initial(stream), moves), k)
  {
    moves := [];
    if k > 1 {
      moves := Climb(stream, k - 1);
      var w := DoAll(Initial(stream), moves);
      ClimbOne(stream, w, k - 1);
      var pair := [ToClient(PacketOf(stream, k - 1)), ToServer(AckOf(k - 1))];
      DoAllAppend(Initial(stream), moves, pair);
      moves := moves + pair;
    }
  }

  lemma NumbersWrap(b: nat)
    requires b >= NUMBERS
    ensures (b - NUMBERS) % NUMBERS == b % NUMBERS
  {
  }

  lemma StaleBlockOverruns(stream: seq<byte>, w: World)
    requires Blocks(stream) > NUMBERS && Climbed(stream, w, Blocks(stream))
    ensures |Do(w, ToClient(PacketOf(stream, Blocks(stream) - NUMBERS))).client.bytes| > |stream|
  {
    var b := Blocks(stream);
    NumbersWrap(b);
    ReceiveBlock(w.client, stream, b - NUMBERS);
    BlocksTileStream(stream, b - 1);
    BlocksTileStream(stream, b - NUMBERS);
  }

  /** With 65537 blocks or more, a late copy of the block 65536 places back passes for the last one. */
  lemma LateCopyIsTaken(stream: seq<byte>) returns (moves: seq<Move>)
    requires Blocks(stream) > NUMBERS
    ensures !(DoAll(Initial(stream), moves).client.bytes <= stream)
  {
    var b := Blocks(stream);
    moves := Climb(stream, b);
    var w := DoAll(Initial(stream), moves);
    var stale := ToClient(PacketOf(stream, b - NUMBERS));
    StaleBlockOverruns(stream, w);
    DoAllAppend(Initial(stream), moves, [stale]);
    moves := moves + [stale];
    assert [stale][1..] == [] && DoAll(w, [stale]) == Do(w, stale);
  }

  ghost predicate AlwaysCorrect(stream: seq<byte>) {
    forall moves :: var c := DoAll(Initial(stream), moves).client;
                    c.bytes <= stream && (c.done ==> c.bytes == stream)
  }

  /** Over such a network delivery is correct for a stream exactly when its block numbers do not wrap. */
  lemma CorrectOnAnyNetwork(stream: seq<byte>)
    ensures AlwaysCorrect(stream) <==> Blocks(stream) <= 65536
  {
    if Blocks(stream) <= NUMBERS {
      forall moves
        ensures var c := DoAll(Initial(stream), moves).client;
                c.bytes <= stream && (c.done ==> c.bytes == stream)
      {
        assert IsPacket(stream, PacketOf(stream, 1), 1);
        var j := DoAllKeepsInv(stream, Initial(stream), 1, moves);
        HoldsIsPrefix(DoAll(Initial(stream), moves).client, stream);
      }
    } else {
      var moves := LateCopyIsTaken(stream);
      assert !(DoAll(Initial(stream), moves).client.bytes <= stream);
    }
  }

  // ----- how the server ends

  /** The server stopped because it took an ACK for its last block, not because it gave up waiting. */
  predicate EndedNormally(s: Session) {
    !s.live && s.timeCount < MAX_TIMEOUTS
  }

  /** No behaviour of the network makes the server end normally before the client has everything. */
  ghost predicate EndMeansDone(stream: seq<byte>) {
    forall moves :: var w := DoAll(Initial(stream), moves); EndedNormally(w.server) ==> w.client.done
  }

  /** With a single block, an ACK exists only once the client is done. */
  ghost predicate OneBlockInv(stream: seq<byte>, w: World) {
    && w.data == {PacketOf(stream, 1)}
    && (w.client == FRESH || w.client.done)
    && (w.server.live ==> w.server == At(stream, 1, w.server.timeCount))
    && (w.acks != {} || EndedNormally(w.server) ==> w.client.done)
  }

  lemma {:induction false} OneBlockKept(stream: seq<byte>, w: World, moves: seq<Move>)
    requires Blocks(stream) == 1 && OneBlockInv(stream, w)
    ensures OneBlockInv(stream, DoAll(w, moves))
    decreases |moves|
  {
    if moves != [] {
      ReceiveBlock(w.client, stream, 1);
      AckAdvances(stream, 1, w.server.timeCount);
      OtherEventsStay(stream, 1, w.server.timeCount, Timeout);
      OneBlockKept(stream, Do(w, moves[0]), moves[1..]);
    }
  }

  /** Copies of one ACK walk the server from block i to its normal end; the client gets nothing. */
  lemma {:induction false} SameAckEnds(stream: seq<byte>, w: World, i: nat, ack: seq<byte>) returns (moves: seq<Move>)
    requires 1 <= i <= Blocks(stream) && w.server == At(stream, i, 0) && ack in w.acks
    ensures var v := DoAll(w, moves);
            EndedNormally(v.server) && v.client == w.client
    decreases Blocks(stream) - i
  {
    var v := Do(w, ToServer(ack));
    AckAdvances(stream, i, 0);
    moves := [];
    if i < Blocks(stream) {
      moves := SameAckEnds(stream, v, i + 1, ack);
    }
    assert ([ToServer(ack)] + moves)[1..] == moves;
    moves := [ToServer(ack)] + moves;
  }

  /** The server never compares ACK numbers, so on such a network its normal end tells that the client is done exactly
      for one-block streams. For every longer stream copies of the first ACK end the session with the client still at
      block 1; in lock step this cannot happen (TftpLockStep.Delivery). */
  lemma NormalEndMeansDoneExactly(stream: seq<byte>)
    ensures EndMeansDone(stream) <==> Blocks(stream) == 1
  {
    var start := Initial(stream);
    if Blocks(stream) == 1 {
      forall moves ensures var w := DoAll(start, moves); EndedNormally(w.server) ==> w.client.done {
        OneBlockKept(stream, start, moves);
      }
    } else {
      var first := ToClient(PacketOf(stream, 1));
      var w := Do(start, first);
      ReceiveBlock(FRESH, stream, 1);
      var acks := SameAckEnds(stream, w, 1, AckOf(1));
      assert ([first] + acks)[1..] == acks;
      assert !DoAll(start, [first] + acks).client.done;
    }
  }
}
