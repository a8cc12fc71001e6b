/** Serving a cached page: the stored response is sent without its header. */
module HeaderStrip {
  import opened Bytes

  const SPACE: byte := 32

  /** The two line ends that close a header. */
  const END: seq<byte> := [13, 10, 13, 10]

  /** The blank line that ends the header stands just before position i. */
  predicate EndsHeader(s: seq<byte>, i: nat) {
    4 <= i <= |s| && s[i - 4..i] == END
  }

  /** i is where the body starts: just after the first blank line. */
  predicate BodyStart(s: seq<byte>, i: nat) {
    EndsHeader(s, i) && forall j :: 0 <= j < i ==> !EndsHeader(s, j)
  }

  /** What is left of a stored response: everything after its first blank line, or nothing if it has none. */
  function Stripped(s: seq<byte>): seq<byte> {
    StrippedFrom(s, 0)
  }

  /** The same, when no blank line ends before position i. */
  function StrippedFrom(s: seq<byte>, i: nat): seq<byte>
    requires i <= |s|
    decreases |s| - i
  {
    if EndsHeader(s, i) then s[i..] else if i == |s| then [] else StrippedFrom(s, i + 1)
  }

  lemma {:induction false} StrippedStartsAt(s: seq<byte>, i: nat, start: nat)
    requires i <= start && BodyStart(s, start)
    ensures StrippedFrom(s, i) == s[start..]
    decreases start - i
  {
    if i < start {
      StrippedStartsAt(s, i + 1, start);
    }
  }

  lemma {:induction false} NothingToStrip(s: seq<byte>, i: nat)
    requires i <= |s| && forall j :: 0 <= j < |s| ==> !EndsHeader(s, j)
    ensures StrippedFrom(s, i) == []
    decreases |s| - i
  {
    if i < |s| {
      NothingToStrip(s, i + 1);
    }
  }

  /** The character k places before position i, as the loop's four variables remember it. */
  function Back(s: seq<byte>, i: nat, k: nat): byte
    requires i <= |s| && 1 <= k
  {
    if k <= i then s[i - k] else SPACE
  }

  lemma WindowMatches(s: seq<byte>, i: nat)
    requires i <= |s|
    ensures (Back(s, i, 4) == CR && Back(s, i, 3) == LF && Back(s, i, 2) == CR && Back(s, i, 1) == LF)
            <==> EndsHeader(s, i)
  {
    if i >= 4 {
      var w := s[i - 4..i];
      assert w[0] == s[i - 4] && w[1] == s[i - 3] && w[2] == s[i - 2] && w[3] == s[i - 1];
      if w[0] == CR && w[1] == LF && w[2] == CR && w[3] == LF {
        assert w == END;
      }
    }
  }

  /** Exactly the bytes after the first blank line are sent, later blank lines included; nothing if there is none. */
  method SendToClient(file: seq<byte>) returns (sent: seq<byte>)
    ensures sent == Stripped(file)
    ensures forall i: nat :: BodyStart(file, i) ==> sent == file[i..]
    ensures (forall i: nat :: !BodyStart(file, i)) ==> sent == []
  {
    sent := [];
    var readyToSend := false;
    var last1, last2, last3, last4 := SPACE, SPACE, SPACE, SPACE;
    ghost var start := 0;
    var i := 0;
    while i < |file|
      invariant i <= |file|
      invariant last1 == Back(file, i, 1) && last2 == Back(file, i, 2)
      invariant last3 == Back(file, i, 3) && last4 == Back(file, i, 4)
      invariant readyToSend ==> start < i && BodyStart(file, start) && sent == file[start..i]
      invariant !readyToSend ==> sent == [] && forall j :: 0 <= j < i ==> !EndsHeader(file, j)
    {
      WindowMatches(file, i);
      if last4 == CR && last3 == LF && last2 == CR && last1 == LF && !readyToSend {
        readyToSend := true;
        start := i;
      }
      if readyToSend {
        assert file[start..i + 1] == file[start..i] + [file[i]];
        sent := sent + [file[i]];
      }
      last4, last3, last2, last1 := last3, last2, last1, file[i];
      i := i + 1;
    }
    if readyToSend {
      assert file[start..i] == file[start..];
      StrippedStartsAt(file, 0, start);
      forall j: nat | BodyStart(file, j) ensures j == start {
        BodyStartUnique(file, j, start);
      }
    } else {
      NothingToStrip(file, 0);
      forall j: nat | BodyStart(file, j) ensures file[j..] == [] {
        LateBodyIsEmpty(file, j);
      }
    }
  }

  lemma LateBodyIsEmpty(s: seq<byte>, j: nat)
    requires BodyStart(s, j) && forall k :: 0 <= k < |s| ==> !EndsHeader(s, k)
    ensures s[j..] == []
  {
    assert j == |s|;
  }

  lemma BodyStartUnique(s: seq<byte>, i: nat, j: nat)
    requires BodyStart(s, i) && BodyStart(s, j)
    ensures i == j
  {
  }

  lemma {:induction false} FirstBlankLine(s: seq<byte>, i: nat) returns (start: nat)
    requires EndsHeader(s, i)
    ensures start <= i && BodyStart(s, start)
  {
    start := i;
    if j: nat :| j < i && EndsHeader(s, j) {
      start := FirstBlankLine(s, j);
    }
  }

  /** CR LF CR LF stands at position j. */
  predicate BlankLineAt(s: seq<byte>, j: nat) {
    j + 4 <= |s| && s[j] == 13 && s[j + 1] == 10 && s[j + 2] == 13 && s[j + 3] == 10
  }

  lemma BlankLineEndsHeader(s: seq<byte>, j: nat)
    requires j + 4 <= |s|
    ensures BlankLineAt(s, j) <==> EndsHeader(s, j + 4)
  {
    WindowMatches(s, j + 4);
  }

  /** Nothing is sent of a file without CR LF CR LF. */
  lemma NoBlankLineNothingSent(s: seq<byte>)
    requires forall j: nat :: !BlankLineAt(s, j)
    ensures Stripped(s) == []
  {
    forall j: nat | j <= |s| ensures !EndsHeader(s, j) {
      if 4 <= j {
        BlankLineEndsHeader(s, j - 4);
        assert !BlankLineAt(s, j - 4);
      }
    }
    NothingToStrip(s, 0);
  }

  /** A response is its header, CR LF CR LF and its body: what is sent is the body exactly when CR LF CR LF does not
      already stand earlier, inside the header and its line ends. */
  lemma StripRecoversBody(header: seq<byte>, body: seq<byte>)
    ensures var head := header + [13, 10, 13, 10];
            Stripped(head + body) == body <==> forall j: nat :: j < |header| ==> !BlankLineAt(head, j)
  {
    var head := header + END;
    var s := head + body;
    assert s[|head| - 4..|head|] == END && s[|head|..] == body;
    var start := FirstBlankLine(s, |head|);
    StrippedStartsAt(s, 0, start);
    if start < |head| {
      BlankLineEndsHeader(s, start - 4);
      assert BlankLineAt(head, start - 4) && |s[start..]| > |body|;
    } else {
      forall j: nat | j < |header| ensures !BlankLineAt(head, j) {
        BlankLineEndsHeader(s, j);
        assert BlankLineAt(head, j) == BlankLineAt(s, j);
      }
    }
  }
}
