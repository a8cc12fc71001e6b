/** The read session as the server keeps it: fields and a buffer updated in place. */
module TftpServer {
  import opened Bytes
  import opened TftpProtocol
  import opened Netascii

  const MAXCHAR := 1000

  /** The encoding of what getc will still yield from position pos on. */
  ghost function TextFrom(file: seq<byte>, pos: nat): seq<byte>
    requires pos <= |file|
    decreases |file| - pos
  {
    if pos == |file| || file[pos] == 0xFF then [] else EncodeByte(file[pos]) + TextFrom(file, pos + 1)
  }

  lemma {:induction false} TextFromIsEncoding(file: seq<byte>, pos: nat)
    requires pos <= |file|
    ensures TextFrom(file, pos) == Encode(UpToEof(file[pos..]))
    decreases |file| - pos
  {
    if pos < |file| && file[pos] != 0xFF {
      TextFromIsEncoding(file, pos + 1);
      assert file[pos..][1..] == file[pos + 1..];
      assert UpToEof(file[pos..])[1..] == UpToEof(file[pos + 1..]);
    }
  }

  /** The carried character, if any, and the encoding of the unread file. */
  ghost function Remaining(file: seq<byte>, pos: nat, nextch: int): seq<byte>
    requires pos <= |file| && nextch < 256
  {
    if nextch >= 0 then [nextch] + TextFrom(file, pos) else TextFrom(file, pos)
  }

  /** Reading a character sends its first encoded byte now and carries the second, if there is one. */
  lemma RemainingStep(file: seq<byte>, pos: nat)
    requires pos < |file| && file[pos] != 0xFF
    ensures var b := file[pos];
            Remaining(file, pos, -1) == [if b == LF then CR else b]
              + Remaining(file, pos + 1, if b == LF then LF else if b == CR then NUL else -1)
  {
  }

  class ReadSession {
    const mode: Mode
    const file: seq<byte>
    const data: array<byte>
    var pos: nat
    var nextch: int
    var blockNumber: nat
    var timeCount: nat
    var stopFlag: bool
    var live: bool
    var sendPack: seq<byte>

    ghost predicate Valid()
      reads this
    {
      && data.Length == MAXCHAR
      && pos <= |file|
      && -1 <= nextch < 256
      && blockNumber < NUMBERS
    }

    /** The bytes still to be sent: the carried character, then the encoding of the unread file. */
    ghost function Pending(): seq<byte>
      reads this
      requires Valid()
    {
      match mode
      case Octet => file[pos..]
      case NetasciiText => Remaining(file, pos, nextch)
    }

    ghost function State(): Session
      reads this
      requires Valid()
    {
      Session(Pending(), blockNumber, timeCount, stopFlag, live, sendPack)
    }

    /** Answers a read request: builds block 1 and enters the loop. The buffer comes in uninitialised. */
    constructor (mode: Mode, file: seq<byte>, data: array<byte>)
      requires data.Length == MAXCHAR
      modifies data
      ensures Valid() && this.mode == mode && this.file == file && this.data == data
      ensures State() == At(Stream(mode, file, old(data[..])), 1, 0)
    {
      this.mode, this.file, this.data := mode, file, data;
      pos, nextch, timeCount, stopFlag, live := 0, -1, 0, false, true;
      blockNumber, sendPack := 0, [];
      new;
      ghost var stream := Stream(mode, file, data[..]);
      var count: nat;
      if mode == Octet {
        count := FirstOctetBlock();
      } else {
        TextFromIsEncoding(file, 0);
        assert file[0..] == file;
        count := FillNetascii();
      }
      assert data[..count] == Block(stream, 1);
      sendPack := DataPacket(1, data[..count]);
      blockNumber := 1;
    }

    /** The first octet block is sent as 512 bytes, however many were read, and never ends the transfer. */
    method FirstOctetBlock() returns (count: nat)
      requires Valid() && mode == Octet && pos == 0
      modifies this`pos, data
      ensures Valid() && count == NOBYTES
      ensures var stream := Stream(Octet, file, old(data[..]));
              data[..NOBYTES] == stream[..NOBYTES] && Pending() == stream[NOBYTES..]
      ensures var readSize := Min(512, |file|);
              pos == readSize && data[..readSize] == file[..readSize] && data[readSize..] == old(data[readSize..])
    {
      ghost var buffer := data[..];
      var readSize := ReadFile();
      count := NOBYTES;
      assert data[..NOBYTES] == file[..readSize] + buffer[readSize..NOBYTES];
    }

    /** Reads up to 512 bytes of a regular file into the front of the buffer. */
    method ReadFile() returns (readSize: nat)
      requires Valid()
      modifies this`pos, data
      ensures Valid() && readSize == Min(NOBYTES, |file| - old(pos))
      ensures pos == old(pos) + readSize
      ensures data[..] == file[old(pos)..pos] + old(data[..])[readSize..]
    {
      readSize := Min(NOBYTES, |file| - pos);
      forall k | 0 <= k < readSize {
        data[k] := file[pos + k];
      }
      pos := pos + readSize;
    }

    /** The next character to send: the carried one first, otherwise from the file.
        A char holding 0xFF compares equal to EOF. */
    method NextChar() returns (r: Option<byte>)
      requires Valid() && mode == NetasciiText
      modifies this`pos, this`nextch
      ensures Valid()
      ensures r == None ==> old(Pending()) == Pending() == []
      ensures r.Some? ==> old(Pending()) == [r.value] + Pending()
    {
      if nextch >= 0 {
        r := Some(nextch);
        nextch := -1;
        return;
      }
      if pos == |file| || file[pos] == 0xFF {
        return None;
      }
      var ch := file[pos];
      RemainingStep(file, pos);
      pos := pos + 1;
      if ch == LF {
        ch, nextch := CR, LF;
      } else if ch == CR {
        nextch := NUL;
      } else {
        nextch := -1;
      }
      return Some(ch);
    }

    /** One pass of the fill loop, for a buffer that holds the first count bytes of `all`. */
    method PutNextChar(count: nat, ghost all: seq<byte>) returns (eof: bool)
      requires Valid() && mode == NetasciiText && count < NOBYTES
      requires Filled(count, all)
      modifies this`pos, this`nextch, data
      ensures Valid()
      ensures if eof then count == |all| && Filled(count, all) else Filled(count + 1, all)
    {
      var c := NextChar();
      if c == None {
        return true;
      }
      TakeOne(all, count, c.value, Pending());
      data[count] := c.value;
      return false;
    }

    ghost predicate Filled(count: nat, all: seq<byte>)
      reads this, data
      requires Valid()
    {
      count <= |all| && count <= MAXCHAR && data[..count] == all[..count] && Pending() == all[count..]
    }

    /** Fills the buffer with up to 512 encoded bytes; the second half of a pair may wait in nextch. */
    method FillNetascii() returns (count: nat)
      requires Valid() && mode == NetasciiText && !stopFlag
      modifies this`pos, this`nextch, this`stopFlag, data
      ensures Valid()
      ensures count == Min(NOBYTES, |old(Pending())|)
      ensures Filled(count, old(Pending()))
      ensures stopFlag == (count < NOBYTES)
    {
      ghost var all := Pending();
      count := 0;
      while count < NOBYTES
        invariant Valid() && count <= NOBYTES && !stopFlag
        invariant Filled(count, all)
      {
        var eof := PutNextChar(count, all);
        if eof {
          stopFlag := true;
          break;
        }
        count := count + 1;
      }
    }

    /** One pass of the session loop. */
    method Handle(e: Event) returns (sent: seq<seq<byte>>)
      requires Valid() && live
      modifies this, data
      ensures Valid()
      ensures State() == Next(old(State()), e)
      ensures sent == Sends(old(State()), e)
    {
      match e
      case Timeout =>
        sent := [sendPack];
        timeCount := timeCount + 1;
        if timeCount >= MAX_TIMEOUTS {
          stopFlag := true;
          live := false;
        }
      case Packet(opcode) =>
        sent := HandlePacket(opcode);
    }

    method HandlePacket(opcode: int) returns (sent: seq<seq<byte>>)
      requires Valid() && live
      modifies this, data
      ensures Valid()
      ensures State() == Next(old(State()), Packet(opcode))
      ensures sent == Sends(old(State()), Packet(opcode))
    {
      if opcode == 4 && !stopFlag {
        SendNextBlock();
        return [sendPack];
      }
      sent := [];
      timeCount := 0;
      if opcode == 3 {
        sendPack := ACCESS_VIOLATION;
        sent := [sendPack];
        stopFlag := true;
        live := false;
      } else if opcode == 4 {
        live := false;
      } else if opcode == 5 {
        stopFlag := true;
        live := false;
      }
    }

    /** The ACK branch: reads the next block and builds its packet. */
    method SendNextBlock()
      requires Valid() && live && !stopFlag
      modifies this, data
      ensures Valid()
      ensures State() == NextBlock(old(State()))
    {
      timeCount := 0;
      var count := FillBlock();
      var number := (blockNumber + 1) % NUMBERS;
      sendPack, blockNumber := DataPacket(number, data[..count]), number;
    }

    /** Clears the buffer and reads the next block into it, in either mode. */
    method FillBlock() returns (count: nat)
      requires Valid() && !stopFlag
      modifies this`pos, this`nextch, this`stopFlag, data
      ensures Valid()
      ensures count == Min(NOBYTES, |old(Pending())|)
      ensures Filled(count, old(Pending()))
      ensures stopFlag == (count < NOBYTES)
    {
      forall k | 0 <= k < data.Length {
        data[k] := 0;
      }
      if mode == NetasciiText {
        count := FillNetascii();
        return;
      }
      ghost var all := Pending();
      count := NOBYTES;
      var readSize := ReadFile();
      if readSize < NOBYTES {
        count := readSize;
        stopFlag := true;
      }
      assert file[pos..] == all[count..];
    }

    /** The loop itself, driven by the events the network produces. */
    method Serve(events: seq<Event>) returns (log: seq<seq<byte>>, iterations: nat)
      requires Valid()
      modifies this, data
      ensures Valid()
      ensures State() == Run(old(State()), events)
      ensures log == Log(old(State()), events)
      ensures iterations == Iterations(old(State()), events)
    {
      log, iterations := [], 0;
      while live && iterations < |events|
        invariant Valid() && iterations <= |events|
        invariant Run(old(State()), events) == Run(State(), events[iterations..])
        invariant Log(old(State()), events) == log + Log(State(), events[iterations..])
        invariant Iterations(old(State()), events) == iterations + Iterations(State(), events[iterations..])
      {
        ghost var rest := events[iterations..];
        assert rest[1..] == events[iterations + 1..];
        var sent := Handle(events[iterations]);
        log := log + sent;
        iterations := iterations + 1;
      }
      DeadStaysDead(State(), events[iterations..]);
    }
  }

  lemma TakeOne<T>(all: seq<T>, count: nat, x: T, rest: seq<T>)
    requires count <= |all| && all[count..] == [x] + rest
    ensures count < |all| && all[..count + 1] == all[..count] + [x] && all[count + 1..] == rest
  {
    assert all[count] == all[count..][0];
    assert all[count + 1..] == all[count..][1..];
  }
}
