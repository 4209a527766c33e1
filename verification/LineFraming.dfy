/**
  Text frames on the serial line: a body, a colon, two checksum digits and a line end.  The receiver
  splits the byte stream into lines, whatever pieces the stream arrives in, and accepts a line whose
  checksum fits.
 */
module LineFraming {
  import opened Bytes
  import opened Checksums
  import opened CrcDetection
  import opened Hex

  const IN_BUFFER_SIZE: nat := 255
  const DOT: Byte := 46
  const COLON: Byte := 58
  const LF: Byte := 10
  const CR: Byte := 13

  // ---------- Sending ----------

  function CrcByte(data: Text): Byte
  {
    Crc8(data) as int
  }

  /** What `write_packet` sends for a body that its 256-byte buffer holds. */
  function Frame(body: Text): Text
  {
    body + [COLON] + TwoDigits(CrcByte(body)) + [LF]
  }

  /** A body that is one line of text. */
  ghost predicate Plain(body: Text)
  {
    0 < |body| <= 251 && 0 !in body && LF !in body && CR !in body
  }

  // ---------- Splitting ----------

  /** The unfinished line, and the lines queued so far. */
  datatype Split = Split(pending: Text, lines: seq<Text>)

  predicate EndsLine(c: Byte)
  {
    c == LF || c == CR
  }

  function Feed(s: Split, c: Byte): Split
  {
    if EndsLine(c) then Split([], s.lines + [s.pending]) else Split(s.pending + [c], s.lines)
  }

  function FeedAll(s: Split, data: Text): Split
  {
    if data == [] then s else Feed(FeedAll(s, data[..|data| - 1]), data[|data| - 1])
  }

  /** No line, finished or not, ever has more than 254 characters. */
  ghost predicate Fits(s: Split, data: Text)
  {
    forall k :: 0 <= k <= |data| ==> |FeedAll(s, data[..k]).pending| < IN_BUFFER_SIZE
  }

  /** A zero byte makes the splitter ignore the rest of the read. */
  function BeforeZero(data: Text): (r: Text)
    ensures |r| <= |data| && r == data[..|r|] && 0 !in r
    ensures |r| < |data| ==> data[|r|] == 0
  {
    if data == [] || data[0] == 0 then [] else [data[0]] + BeforeZero(data[1..])
  }

  lemma {:induction false} FeedAllAppend(s: Split, a: Text, b: Text)
    ensures FeedAll(s, a + b) == FeedAll(FeedAll(s, a), b)
    decreases |b|
  {
    if b == [] {
      assert a + b == a;
    } else {
      FeedAllAppend(s, a, b[..|b| - 1]);
      assert (a + b)[..|a + b| - 1] == a + b[..|b| - 1];
    }
  }

  function Join(pieces: seq<Text>): Text
  {
    if pieces == [] then [] else Join(pieces[..|pieces| - 1]) + pieces[|pieces| - 1]
  }

  lemma {:induction false} FeedText(s: Split, text: Text)
    requires LF !in text && CR !in text
    ensures FeedAll(s, text) == Split(s.pending + text, s.lines)
  {
    if text != [] {
      var k := |text| - 1;
      assert text[k] in text && (forall c :: c in text[..k] ==> c in text);
      FeedText(s, text[..k]);
      assert s.pending + text == (s.pending + text[..k]) + [text[k]];
    } else {
      assert s.pending + text == s.pending;
    }
  }

  /** The line that carries `body`, without its end. */
  function Line(body: Text): Text
  {
    body + [COLON] + TwoDigits(CrcByte(body))
  }

  lemma FrameIsOneLine(s: Split, body: Text)
    requires Plain(body) && s.pending == []
    ensures FeedAll(s, Frame(body)) == Split([], s.lines + [Line(body)])
  {
    forall c | c in Line(body) ensures c != LF && c != CR {
      DigitRoundTrip(CrcByte(body) / 16);
      DigitRoundTrip(CrcByte(body) % 16);
    }
    FeedText(s, Line(body));
    assert s.pending + Line(body) == Line(body);
    assert Frame(body) == Line(body) + [LF];
    FeedAllAppend(s, Line(body), [LF]);
    assert FeedAll(Split(Line(body), s.lines), [LF]) == Feed(Split(Line(body), s.lines), LF) by {
      assert [LF][..0] == [];
    }
  }

  // ---------- Accepting ----------

  datatype Accepted = Accepted(address: Byte, body: Text)

  /** The acceptance test of `process_packet`, and what it hands on. */
  function Accept(line: Text): Option<Accepted>
  {
    var len := |line|;
    if !(len > 3 && line[0] == DOT && IsDigit(line[1]) && IsDigit(line[2])) then None
    else
      var (addr, end) := ReadHex(line, 1);
      if end != 3 || line[len - 3] != COLON then None
      else
        var (chkRead, _) := ReadHex(line, len - 2);
        if chkRead % 256 != CrcByte(line[..len - 3]) as int then None
        else Some(Accepted(addr % 256, if len >= 6 then line[3..len - 3] else []))
  }

  /** A response: a dot, two digits of address, and then no further digit. */
  ghost predicate ResponseShaped(body: Text)
  {
    && |body| >= 3 && body[0] == DOT && IsDigit(body[1]) && IsDigit(body[2])
    && (|body| > 3 ==> !IsDigit(body[3]))
  }

  ghost function AddressOf(body: Text): Byte
    requires ResponseShaped(body)
  {
    16 * DigitValue(body[1]) + DigitValue(body[2])
  }

  /** A framed response is accepted, with its address and body intact. */
  lemma ResponseAccepted(body: Text)
    requires ResponseShaped(body)
    ensures |body| >= 3
    ensures Accept(Line(body)) == Some(Accepted(AddressOf(body), body[3..]))
  {
    hide CrcByte, TwoDigits, ReadHex;
    var line := Line(body);
    var n := |body|;
    TwoOf(CrcByte(body));
    AddressRead(body);
    ChecksumRead(body);
    assert line[..n] == body && line[3..n] == body[3..];
  }

  /** The number after the dot is the address, and ends where the two digits end. */
  lemma AddressRead(body: Text)
    requires ResponseShaped(body)
    ensures |Line(body)| > 3 && ReadHex(Line(body), 1) == (AddressOf(body), 3)
  {
    hide CrcByte, TwoDigits;
    var line := Line(body);
    TwoOf(CrcByte(body));
    RunEnds(line, 1, 3);
    assert Number(line, 1, 2) == DigitValue(body[1]) by { assert Number(line, 1, 1) == 0; }
  }

  /** The number after the colon is the checksum. */
  lemma ChecksumRead(body: Text)
    ensures |Line(body)| == |body| + 3 && Line(body)[|body|] == COLON
    ensures ReadHex(Line(body), |body| + 1).0 == CrcByte(body)
  {
    hide CrcByte, TwoDigits;
    var line, n := Line(body), |body|;
    TwoOf(CrcByte(body));
    assert line[n + 1..n + 3] == TwoDigits(CrcByte(body));
    ReadTwoDigits(line, n + 1, CrcByte(body));
  }

  /** The number in the last two characters, as far as they are digits. */
  function LastTwo(line: Text): nat
    requires |line| >= 2
  {
    var a, b := line[|line| - 2], line[|line| - 1];
    if !IsDigit(a) then 0 else if !IsDigit(b) then DigitValue(a) else 16 * DigitValue(a) + DigitValue(b)
  }

  lemma LastTwoRead(line: Text)
    requires |line| >= 2
    ensures ReadHex(line, |line| - 2).0 == LastTwo(line)
  {
    var i := |line| - 2;
    var e := if !IsDigit(line[i]) then i else if !IsDigit(line[i + 1]) then i + 1 else i + 2;
    RunEnds(line, i, e);
    assert Number(line, i, i) == 0;
    if e > i {
      assert Number(line, i, i + 1) == DigitValue(line[i]);
    }
  }

  /**
    Exactly which lines are accepted, and as what: a dot, two digits of address and no third, the body, a colon and
    the checksum of everything before it.  Missing checksum digits count as not there.
   */
  lemma AcceptIff(line: Text, address: Byte, body: Text)
    ensures Accept(line) == Some(Accepted(address, body))
       <==> && |line| >= 6 && line[0] == DOT && IsDigit(line[1]) && IsDigit(line[2]) && !IsDigit(line[3])
            && line[|line| - 3] == COLON && LastTwo(line) == CrcByte(line[..|line| - 3]) as int
            && address == 16 * DigitValue(line[1]) + DigitValue(line[2]) && body == line[3..|line| - 3]
  {
    hide CrcByte, ReadHex, LastTwo;
    if |line| > 3 && line[0] == DOT && IsDigit(line[1]) && IsDigit(line[2]) {
      AddressField(line);
      LastTwoRead(line);
      LastTwoSmall(line);
    }
  }

  lemma LastTwoSmall(line: Text)
    requires |line| >= 2
    ensures LastTwo(line) < 256
  {
  }

  lemma AddressField(line: Text)
    requires |line| > 3 && IsDigit(line[1]) && IsDigit(line[2])
    ensures ReadHex(line, 1).1 == 3 <==> !IsDigit(line[3])
    ensures !IsDigit(line[3]) ==> ReadHex(line, 1).0 == 16 * DigitValue(line[1]) + DigitValue(line[2])
  {
    DigitsEndIsRun(line, 1);
    if !IsDigit(line[3]) {
      RunEnds(line, 1, 3);
      assert Number(line, 1, 2) == DigitValue(line[1]) by { assert Number(line, 1, 1) == 0; }
    }
  }

  lemma TwoOf(b: Byte)
    ensures |TwoDigits(b)| == 2
  {
  }

  /**
    Two lines of equal length with the same checksum field whose bodies differ in exactly one byte are
    never both accepted.
   */
  lemma NotBothAccepted(a: Text, b: Text, i: nat)
    requires DifferOnlyAt(a, b, i) && i < |a| - 3
    ensures !(Accept(a).Some? && Accept(b).Some?)
  {
    var n := |a| - 3;
    if Accept(a).Some? && Accept(b).Some? {
      assert DifferOnlyAt(a[..n], b[..n], i);
      OneByteChanged8(0xFF, a[..n], b[..n], i);
      SameDigits(a, b, |a| - 2);
      BvDistinct(Crc8(a[..n]), Crc8(b[..n]));
    }
  }

  lemma BvDistinct(x: bv8, y: bv8)
    requires x != y
    ensures x as int != y as int
  {
  }

  lemma {:induction false} SameDigits(a: Text, b: Text, i: nat)
    requires |a| == |b| && i <= |a| && forall k :: i <= k < |a| ==> a[k] == b[k]
    ensures ReadHex(a, i) == ReadHex(b, i)
  {
    SameEnd(a, b, i);
    DigitsEndIsRun(a, i);
    SameNumber(a, b, i, DigitsEnd(a, i));
  }

  lemma {:induction false} SameEnd(a: Text, b: Text, i: nat)
    requires |a| == |b| && i <= |a| && forall k :: i <= k < |a| ==> a[k] == b[k]
    ensures DigitsEnd(a, i) == DigitsEnd(b, i)
    decreases |a| - i
  {
    if i < |a| && IsDigit(a[i]) {
      SameEnd(a, b, i + 1);
    }
  }

  lemma {:induction false} SameNumber(a: Text, b: Text, i: nat, e: nat)
    requires |a| == |b| && i <= e <= |a| && forall k :: i <= k < |a| ==> a[k] == b[k]
    requires forall k :: i <= k < e ==> IsDigit(a[k])
    ensures Number(a, i, e) == Number(b, i, e)
    decreases e
  {
    if i < e {
      SameNumber(a, b, i, e - 1);
    }
  }

  // ---------- Over the whole line ----------

  function Frames(bodies: seq<Text>): Text
  {
    if bodies == [] then [] else Frames(bodies[..|bodies| - 1]) + Frame(bodies[|bodies| - 1])
  }

  function Lines(bodies: seq<Text>): (r: seq<Text>)
    ensures |r| == |bodies| && forall i :: 0 <= i < |r| ==> r[i] == Line(bodies[i])
  {
    if bodies == [] then [] else Lines(bodies[..|bodies| - 1]) + [Line(bodies[|bodies| - 1])]
  }

  lemma {:induction false} FramesAreLines(bodies: seq<Text>)
    requires forall i :: 0 <= i < |bodies| ==> Plain(bodies[i])
    ensures FeedAll(Split([], []), Frames(bodies)) == Split([], Lines(bodies))
  {
    hide Frame, Line, Plain, FeedAll;
    var none := Split([], []);
    if bodies == [] {
      FeedNothing(none);
    } else {
      var k := |bodies| - 1;
      FramesAreLines(bodies[..k]);
      FeedAllAppend(none, Frames(bodies[..k]), Frame(bodies[k]));
      FrameIsOneLine(FeedAll(none, Frames(bodies[..k])), bodies[k]);
    }
  }

  lemma FeedNothing(s: Split)
    ensures FeedAll(s, []) == s
  {
  }
}
