/** Bytes, as the C programs see them. */
module Bytes {
  type byte = b: int | 0 <= b < 256

  const CR: byte := 13
  const LF: byte := 10

  datatype Option<+T> = None | Some(value: T)

  function Min(a: int, b: int): int {
    if a <= b then a else b
  }

  /** Quotient and remainder are unique. */
  lemma ModUnique(n: nat, c: nat, q: nat, r: nat)
    requires c > 0 && n == q * c + r && r < c
    ensures n / c == q && n % c == r
  {
    var p := n / c;
    assert n == p * c + n % c;
    if p < q {
      MulStep(p, q, c);
    } else if q < p {
      MulStep(q, p, c);
    }
  }

  lemma MulStep(a: nat, b: nat, c: nat)
    requires a < b
    ensures a * c + c <= b * c
  {
    assert b * c == a * c + (b - a) * c;
    assert (b - a - 1) * c >= 0;
  }
}

/** The netascii transfer encoding of section 1 of RFC 1350 and its inverse. */
module Netascii {
  import opened Bytes

  const NUL: byte := 0

  function EncodeByte(b: byte): seq<byte> {
    if b == LF then [CR, LF] else if b == CR then [CR, NUL] else [b]
  }

  function Encode(f: seq<byte>): seq<byte> {
    if f == [] then [] else EncodeByte(f[0]) + Encode(f[1..])
  }

  /** What a receiver does: a CR must be followed by LF or NUL, and a bare LF is malformed. */
  function Decode(s: seq<byte>): Option<seq<byte>> {
    if s == [] then Some([])
    else if s[0] == CR then
      if |s| >= 2 && (s[1] == LF || s[1] == NUL) then
        match Decode(s[2..])
        case Some(t) => Some([if s[1] == LF then LF else CR] + t)
        case None => None
      else None
    else if s[0] == LF then None
    else
      match Decode(s[1..])
      case Some(t) => Some([s[0]] + t)
      case None => None
  }

  /** The encoding byte by byte, in numbers: 10 becomes 13 10, 13 becomes 13 0, every other byte stays. */
  lemma EncodeOne(b: byte)
    ensures Encode([b]) == if b == 10 then [13, 10] else if b == 13 then [13, 0] else [b]
  {
    assert Encode([b]) == EncodeByte(b) + Encode([b][1..]);
  }

  /** And a text is encoded piece by piece. */
  lemma {:induction false} EncodeConcat(f: seq<byte>, g: seq<byte>)
    ensures Encode(f + g) == Encode(f) + Encode(g)
  {
    if f == [] {
      assert f + g == g;
    } else {
      assert (f + g)[1..] == f[1..] + g;
      EncodeConcat(f[1..], g);
    }
  }

  lemma {:induction false} DecodeAfterEncode(f: seq<byte>)
    ensures Decode(Encode(f)) == Some(f)
  {
    if f != [] {
      DecodeAfterEncode(f[1..]);
      var e, t := EncodeByte(f[0]), Encode(f[1..]);
      assert (e + t)[|e|..] == t;
      assert f == [f[0]] + f[1..];
    }
  }

  /** Decode accepts nothing but encodings, so Encode is a bijection onto the well-formed texts. */
  lemma {:induction false} EncodeAfterDecode(s: seq<byte>)
    requires Decode(s).Some?
    ensures Encode(Decode(s).value) == s
  {
    if s != [] {
      var k := if s[0] == CR then 2 else 1;
      EncodeAfterDecode(s[k..]);
      var t := Decode(s[k..]).value;
      var f := Decode(s).value;
      assert f[1..] == t;
      assert s == EncodeByte(f[0]) + s[k..];
    }
  }

  lemma EncodeInjective(f: seq<byte>, g: seq<byte>)
    requires Encode(f) == Encode(g)
    ensures f == g
  {
    DecodeAfterEncode(f);
    DecodeAfterEncode(g);
  }

  /** The bytes the server can tell from end of file: getc's result is kept in a char, so 0xFF ends the file. */
  function UpToEof(f: seq<byte>): seq<byte> {
    if f == [] || f[0] == 0xFF then [] else [f[0]] + UpToEof(f[1..])
  }

  /** The file is read up to its first 0xFF byte, and so whole exactly when it holds none. */
  lemma {:induction false} UpToEofIsWholeFile(f: seq<byte>)
    ensures UpToEof(f) <= f && 0xFF !in UpToEof(f)
    ensures |UpToEof(f)| < |f| ==> f[|UpToEof(f)|] == 0xFF
    ensures UpToEof(f) == f <==> 0xFF !in f
  {
    if f != [] {
      UpToEofIsWholeFile(f[1..]);
      assert f == [f[0]] + f[1..];
      if f[0] != 0xFF {
        assert UpToEof(f)[1..] == UpToEof(f[1..]);
      }
    }
  }
}
