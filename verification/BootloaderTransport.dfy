/**
  How bootloader frames travel over the text line: as lines of hexadecimal digits with a length, a
  CRC and a sequence number in front.
 */
module BootloaderTransport {
  import opened Bytes
  import opened Checksums
  import opened CrcDetection
  import opened Hex

  const COMMA: Byte := 44
  const HEADER_LEN: nat := 11     // "%02X,%04X,%02X,"
  const PREFIX_LEN: nat := 4      // "%02X~d"
  const OUT_BUF_SIZE: nat := 128
  const MAX_PACKET_CHARS: nat := 60

  function Crc16(data: seq<Byte>): (r: nat)
    ensures r < 0x1_0000
  {
    Divide16(0xFFFF, data) as int
  }

  // ---------- Printing ----------

  /** `%0wX` for a number of at most `w` digits; wider numbers print all their digits. */
  function HexText(n: nat, w: nat): Text
    decreases n, w
  {
    if w == 0 && n == 0 then []
    else HexText(n / 16, if w == 0 then 0 else w - 1) + [DigitChar(n % 16)]
  }

  function HexBytes(data: seq<Byte>): Text
  {
    if data == [] then [] else HexBytes(data[..|data| - 1]) + TwoDigits(data[|data| - 1])
  }

  function Header(len: nat, crc: nat, seqNum: Byte): Text
  {
    HexText(len, 2) + [COMMA] + HexText(crc, 4) + [COMMA] + HexText(seqNum, 2) + [COMMA]
  }

  /** The address and command in front of every line: the module, tilde, `d`. */
  function Prefix(address: Byte): Text
  {
    HexText(address, 2) + [126, 100]
  }

  /** How many bytes a line takes when `ind` characters are already printed. */
  function Taken(ind: nat, left: nat): (n: nat)
    ensures n <= left && (left > 0 && ind < OUT_BUF_SIZE ==> n > 0)
  {
    var room := if ind < OUT_BUF_SIZE then (OUT_BUF_SIZE - ind + 1) / 2 else 0;
    var most := if room < MAX_PACKET_CHARS then room else MAX_PACKET_CHARS;
    if left < most then left else most
  }

  /** The buffer cuts the line off after 127 characters. */
  function CutOff(text: Text): Text
  {
    if |text| < OUT_BUF_SIZE then text else text[..OUT_BUF_SIZE - 1]
  }

  function LineFrom(front: Text, data: seq<Byte>, from: nat): Text
    requires from <= |data|
  {
    CutOff(front + HexBytes(data[from..from + Taken(|front|, |data| - from)]))
  }

  /** The lines for the bytes from `from` on; all carry the same header. */
  function LinesFrom(front: Text, data: seq<Byte>, from: nat): seq<Text>
    requires from <= |data| && |front| < OUT_BUF_SIZE
    decreases |data| - from
  {
    if from == |data| then []
    else [LineFrom(front, data, from)] + LinesFrom(front, data, from + Taken(|front|, |data| - from))
  }

  function Front(address: Byte, seqNum: Byte, data: seq<Byte>): Text
  {
    Prefix(address) + Header(|data|, Crc16(data), seqNum)
  }

  // ---------- Parsing ----------

  datatype Parse = Accepted(bytes: seq<Byte>) | Rejected(reason: string)

  predicate CommaAt(data: Text, i: nat)
  {
    i < |data| && data[i] == COMMA
  }

  /** The number field that starts at `i`, and where it ends; nothing past the end of the text. */
  function Field(data: Text, i: nat): (nat, nat)
  {
    if i <= |data| then ReadHex(data, i) else (0, i)
  }

  /** Digit pairs from `i` on, up to the first pair that is not one, at most `n` of them. */
  function Pairs(data: Text, i: nat, n: nat): (r: seq<Byte>)
    requires i + 2 * n <= |data|
    ensures |r| <= n
    decreases n
  {
    if n == 0 || !IsDigit(data[i]) || !IsDigit(data[i + 1]) then []
    else [16 * DigitValue(data[i]) + DigitValue(data[i + 1])] + Pairs(data, i + 2, n - 1)
  }

  /** `bootloader_parse_packet`: the bytes of a sound line, or which complaint is sent back. */
  function ParsePacket(data: Text, seqNum: Byte): Parse
  {
    if |data| < HEADER_LEN || (|data| - HEADER_LEN) % 256 % 2 != 0 then Rejected("LEN")
    else
      var n := (|data| - HEADER_LEN) % 256 / 2;
      var (numChars, e1) := Field(data, 0);
      var (crcPacket, e2) := Field(data, e1 + 1);
      var (sequenceNum, e3) := Field(data, e2 + 1);
      var bytes := Pairs(data, HEADER_LEN, n);
      if !(CommaAt(data, e1) && CommaAt(data, e2) && CommaAt(data, e3)) || |bytes| < n then Rejected("INVLD")
      else if |bytes| != numChars % 256 then Rejected("CHAR")
      else if Crc16(bytes) != crcPacket % 0x1_0000 then Rejected("CRC")
      else if sequenceNum % 256 != seqNum as int then Rejected("SEQ")
      else Accepted(bytes)
  }

  /** The checksum field of a line. */
  function CrcField(data: Text): nat
  {
    var (_, e1) := Field(data, 0);
    Field(data, e1 + 1).0 % 0x1_0000
  }

  // ---------- Numbers survive printing and reading ----------

  lemma {:induction false} HexTextDigits(n: nat, w: nat)
    requires w > 0 && n < Power16(w)
    ensures |HexText(n, w)| == w && forall k :: 0 <= k < w ==> IsDigit(HexText(n, w)[k])
    decreases w
  {
    DigitRoundTrip(n % 16);
    if w == 1 {
      assert HexText(0, 0) == [];
    } else {
      HexTextDigits(n / 16, w - 1);
    }
  }

  function Power16(w: nat): nat
  {
    if w == 0 then 1 else 16 * Power16(w - 1)
  }

  /** Reading back `w` printed digits that stand at `i`. */
  lemma {:induction false} HexTextNumber(s: Text, i: nat, n: nat, w: nat)
    requires w > 0 && n < Power16(w) && i + w <= |s| && s[i..i + w] == HexText(n, w)
    ensures forall k :: i <= k < i + w ==> IsDigit(s[k])
    ensures Number(s, i, i + w) == n
    decreases w
  {
    HexTextDigits(n, w);
    DigitRoundTrip(n % 16);
    assert forall k :: i <= k < i + w ==> s[k] == s[i..i + w][k - i];
    assert s[i + w - 1] == HexText(n, w)[w - 1] == DigitChar(n % 16);
    if w == 1 {
      assert Number(s, i, i) == 0;
    } else {
      var t := HexText(n / 16, w - 1);
      HexTextDigits(n / 16, w - 1);
      assert s[i..i + w - 1] == s[i..i + w][..w - 1] == t;
      HexTextNumber(s, i, n / 16, w - 1);
    }
  }

  lemma FieldReads(s: Text, i: nat, n: nat, w: nat)
    requires w > 0 && n < Power16(w) && i + w < |s| && s[i..i + w] == HexText(n, w) && s[i + w] == COMMA
    ensures Field(s, i) == (n, i + w)
  {
    HexTextNumber(s, i, n, w);
    RunEnds(s, i, i + w);
  }

  lemma {:induction false} HexBytesLength(data: seq<Byte>)
    ensures |HexBytes(data)| == 2 * |data|
  {
    if data != [] {
      HexBytesLength(data[..|data| - 1]);
    }
  }

  lemma {:induction false} HexBytesHead(data: seq<Byte>)
    requires data != []
    ensures HexBytes(data) == TwoDigits(data[0]) + HexBytes(data[1..])
  {
    var k := |data| - 1;
    if k > 0 {
      HexBytesHead(data[..k]);
      assert data[..k][1..] == data[1..][..k - 1];
    } else {
      assert data[..0] == [] && data[1..] == [];
    }
  }

  lemma {:induction false} PairsReadBack(s: Text, i: nat, data: seq<Byte>)
    requires i + 2 * |data| <= |s| && s[i..i + 2 * |data|] == HexBytes(data)
    ensures Pairs(s, i, |data|) == data
    decreases |data|
  {
    if data != [] {
      HexBytesHead(data);
      HexBytesLength(data[1..]);
      var two := s[i..i + 2 * |data|];
      assert s[i] == two[0] == DigitChar(data[0] / 16) && s[i + 1] == two[1] == DigitChar(data[0] % 16);
      DigitRoundTrip(data[0] / 16);
      DigitRoundTrip(data[0] % 16);
      assert s[i + 2..i + 2 + 2 * |data[1..]|] == two[2..];
      PairsReadBack(s, i + 2, data[1..]);
    }
  }

  // ---------- A frame survives the line ----------

  /** What follows the prefix on a line that holds the whole frame. */
  function Wire(data: seq<Byte>, seqNum: Byte): Text
  {
    Header(|data|, Crc16(data), seqNum) + HexBytes(data)
  }

  lemma HeaderFields(s: Text, len: nat, crc: nat, seqNum: Byte)
    requires len < 256 && crc < 0x1_0000 && |s| >= HEADER_LEN && s[..HEADER_LEN] == Header(len, crc, seqNum)
    ensures Field(s, 0) == (len, 2) && Field(s, 3) == (crc, 7) && Field(s, 8) == (seqNum as int, 10)
    ensures CommaAt(s, 2) && CommaAt(s, 7) && CommaAt(s, 10)
  {
    Powers();
    HexTextDigits(len, 2);
    HexTextDigits(crc, 4);
    HexTextDigits(seqNum, 2);
    var h := s[..HEADER_LEN];
    assert s[0..2] == h[0..2] == HexText(len, 2) && s[2] == h[2];
    assert s[3..7] == h[3..7] == HexText(crc, 4) && s[7] == h[7];
    assert s[8..10] == h[8..10] == HexText(seqNum, 2) && s[10] == h[10];
    FieldReads(s, 0, len, 2);
    FieldReads(s, 3, crc, 4);
    FieldReads(s, 8, seqNum, 2);
  }

  lemma Powers()
    ensures Power16(2) == 256 && Power16(4) == 0x1_0000
  {
  }

  lemma HeaderLength(len: nat, crc: nat, seqNum: Byte)
    requires len < 256 && crc < 0x1_0000
    ensures |Header(len, crc, seqNum)| == HEADER_LEN
  {
    Powers();
    HexTextDigits(len, 2);
    HexTextDigits(crc, 4);
    HexTextDigits(seqNum, 2);
  }

  /** The parser on a line whose header and payload are already read. */
  lemma ParseIs(s: Text, seqNum: Byte, bytes: seq<Byte>)
    requires |s| == HEADER_LEN + 2 * |bytes| < 256 + HEADER_LEN
    requires Field(s, 0) == (|bytes|, 2) && Field(s, 3) == (Crc16(bytes), 7) && Field(s, 8) == (seqNum as int, 10)
    requires CommaAt(s, 2) && CommaAt(s, 7) && CommaAt(s, 10)
    requires Pairs(s, HEADER_LEN, |bytes|) == bytes
    ensures ParsePacket(s, seqNum) == Accepted(bytes)
  {
    hide Field, CommaAt, Pairs, Crc16;
    var n := |bytes|;
    assert (|s| - HEADER_LEN) % 256 == 2 * n && (2 * n) % 2 == 0 && 2 * n / 2 == n && n % 256 == n;
    SmallMod(Crc16(bytes), 0x1_0000);
    SmallMod(seqNum, 256);
  }

  lemma SmallMod(x: nat, m: nat)
    requires x < m
    ensures x % m == x
  {
  }

  /** A line that holds the whole frame is parsed back to the frame. */
  lemma WireParsesBack(data: seq<Byte>, seqNum: Byte)
    requires |data| < 128
    ensures ParsePacket(Wire(data, seqNum), seqNum) == Accepted(data)
  {
    hide Crc16, Header, HexBytes, ParsePacket, Field, CommaAt, Pairs;
    var s := Wire(data, seqNum);
    HeaderLength(|data|, Crc16(data), seqNum);
    HexBytesLength(data);
    assert s[..HEADER_LEN] == Header(|data|, Crc16(data), seqNum);
    HeaderFields(s, |data|, Crc16(data), seqNum);
    assert s[HEADER_LEN..HEADER_LEN + 2 * |data|] == HexBytes(data);
    PairsReadBack(s, HEADER_LEN, data);
    ParseIs(s, seqNum, data);
  }

  // ---------- Exactly which lines are accepted ----------

  /** Digits from `i` to `e`, and a comma behind them. */
  predicate FieldAt(s: Text, i: nat, e: nat)
  {
    i <= e < |s| && s[e] == COMMA && forall k :: i <= k < e ==> IsDigit(s[k])
  }

  /** Two digits that stand for `b`, in either case. */
  predicate PairAt(s: Text, i: nat, b: Byte)
  {
    i + 2 <= |s| && IsDigit(s[i]) && IsDigit(s[i + 1]) && b == 16 * DigitValue(s[i]) + DigitValue(s[i + 1])
  }

  predicate PairsAt(s: Text, i: nat, bytes: seq<Byte>)
  {
    forall k :: 0 <= k < |bytes| ==> PairAt(s, i + 2 * k, bytes[k])
  }

  /** Three fields end at `a`, `b` and `c`: the number of bytes, their CRC and the sequence number. */
  predicate Sound(s: Text, seqNum: Byte, bytes: seq<Byte>, a: nat, b: nat, c: nat)
  {
    && FieldAt(s, 0, a) && FieldAt(s, a + 1, b) && FieldAt(s, b + 1, c)
    && Number(s, 0, a) % 256 == |bytes|
    && Number(s, a + 1, b) % 0x1_0000 == Crc16(bytes)
    && Number(s, b + 1, c) % 256 == seqNum as int
    && HEADER_LEN <= |s| && (|s| - HEADER_LEN) % 256 == 2 * |bytes|
    && PairsAt(s, HEADER_LEN, bytes)
  }

  lemma FieldIff(s: Text, i: nat, e: nat)
    requires i <= |s|
    ensures FieldAt(s, i, e) <==> Field(s, i).1 == e && CommaAt(s, e)
    ensures FieldAt(s, i, e) ==> Field(s, i) == (Number(s, i, e), e)
  {
    DigitsEndIsRun(s, i);
    if FieldAt(s, i, e) {
      RunEnds(s, i, e);
    }
  }

  lemma PairsAtHead(s: Text, i: nat, bytes: seq<Byte>)
    requires bytes != []
    ensures PairsAt(s, i, bytes) <==> PairAt(s, i, bytes[0]) && PairsAt(s, i + 2, bytes[1..])
  {
    hide PairAt;
    if PairsAt(s, i, bytes) {
      assert PairAt(s, i + 2 * 0, bytes[0]);
      forall k | 0 <= k < |bytes| - 1 ensures PairAt(s, i + 2 + 2 * k, bytes[1..][k]) {
        assert PairAt(s, i + 2 * (k + 1), bytes[k + 1]);
      }
    }
    if PairAt(s, i, bytes[0]) && PairsAt(s, i + 2, bytes[1..]) {
      forall k | 0 <= k < |bytes| ensures PairAt(s, i + 2 * k, bytes[k]) {
        if k > 0 {
          assert PairAt(s, i + 2 + 2 * (k - 1), bytes[1..][k - 1]);
        }
      }
    }
  }

  lemma {:induction false} PairsIff(s: Text, i: nat, bytes: seq<Byte>)
    requires i + 2 * |bytes| <= |s|
    ensures Pairs(s, i, |bytes|) == bytes <==> PairsAt(s, i, bytes)
    decreases |bytes|
  {
    hide PairsAt;
    if bytes != [] {
      PairsIff(s, i + 2, bytes[1..]);
      PairsAtHead(s, i, bytes);
      PairsHead(s, i, bytes);
    } else {
      assert PairsAt(s, i, []) by { NoPairs(s, i); }
    }
  }

  lemma NoPairs(s: Text, i: nat)
    ensures PairsAt(s, i, [])
  {
  }

  lemma PairsHead(s: Text, i: nat, bytes: seq<Byte>)
    requires i + 2 * |bytes| <= |s| && bytes != []
    ensures Pairs(s, i, |bytes|) == bytes
       <==> PairAt(s, i, bytes[0]) && Pairs(s, i + 2, |bytes| - 1) == bytes[1..]
  {
    assert bytes == [bytes[0]] + bytes[1..];
    if PairAt(s, i, bytes[0]) {
      assert Pairs(s, i, |bytes|) == [bytes[0]] + Pairs(s, i + 2, |bytes| - 1);
      assert Pairs(s, i, |bytes|)[1..] == Pairs(s, i + 2, |bytes| - 1);
    } else if IsDigit(s[i]) && IsDigit(s[i + 1]) {
      assert Pairs(s, i, |bytes|)[0] == 16 * DigitValue(s[i]) + DigitValue(s[i + 1]);
    }
  }

  /** What `ParsePacket` finds in a text of a length it does not refuse. */
  lemma AcceptedIs(s: Text, seqNum: Byte, bytes: seq<Byte>)
    requires HEADER_LEN <= |s| && (|s| - HEADER_LEN) % 256 == 2 * |bytes|
    ensures var (numChars, a) := Field(s, 0);
            var (crcPacket, b) := Field(s, a + 1);
            var (sequenceNum, c) := Field(s, b + 1);
            ParsePacket(s, seqNum) == Accepted(bytes)
            <==> && CommaAt(s, a) && CommaAt(s, b) && CommaAt(s, c)
                 && Pairs(s, HEADER_LEN, |bytes|) == bytes && numChars % 256 == |bytes|
                 && crcPacket % 0x1_0000 == Crc16(bytes) && sequenceNum % 256 == seqNum as int
  {
    hide Field, CommaAt, Pairs, Crc16;
    assert (|s| - HEADER_LEN) % 256 % 2 == 0 && (|s| - HEADER_LEN) % 256 / 2 == |bytes|;
  }

  lemma AcceptedLength(s: Text, seqNum: Byte)
    requires ParsePacket(s, seqNum).Accepted?
    ensures HEADER_LEN <= |s| && (|s| - HEADER_LEN) % 256 == 2 * |ParsePacket(s, seqNum).bytes|
  {
    hide Field, CommaAt, Pairs, Crc16;
  }

  lemma AcceptedIsSound(s: Text, seqNum: Byte, bytes: seq<Byte>) returns (a: nat, b: nat, c: nat)
    requires ParsePacket(s, seqNum) == Accepted(bytes)
    ensures Sound(s, seqNum, bytes, a, b, c)
  {
    hide ParsePacket, Field, CommaAt, Pairs, Crc16, FieldAt, PairsAt;
    AcceptedLength(s, seqNum);
    AcceptedIs(s, seqNum, bytes);
    a := Field(s, 0).1;
    CommaInside(s, a);
    b := Field(s, a + 1).1;
    CommaInside(s, b);
    c := Field(s, b + 1).1;
    FieldIff(s, 0, a);
    FieldIff(s, a + 1, b);
    FieldIff(s, b + 1, c);
    LengthRoom(s, bytes);
    PairsIff(s, HEADER_LEN, bytes);
  }

  lemma SoundIsAccepted(s: Text, seqNum: Byte, bytes: seq<Byte>, a: nat, b: nat, c: nat)
    requires Sound(s, seqNum, bytes, a, b, c)
    ensures ParsePacket(s, seqNum) == Accepted(bytes)
  {
    hide ParsePacket, Field, CommaAt, Pairs, Crc16, FieldAt, PairsAt;
    SoundFields(s, seqNum, bytes, a, b, c);
    LengthRoom(s, bytes);
    PairsIff(s, HEADER_LEN, bytes);
    AcceptedIs(s, seqNum, bytes);
  }

  lemma SoundFields(s: Text, seqNum: Byte, bytes: seq<Byte>, a: nat, b: nat, c: nat)
    requires Sound(s, seqNum, bytes, a, b, c)
    ensures Field(s, 0).1 == a && Field(s, a + 1).1 == b && Field(s, b + 1).1 == c
    ensures CommaAt(s, a) && CommaAt(s, b) && CommaAt(s, c)
    ensures Field(s, 0).0 % 256 == |bytes| && Field(s, a + 1).0 % 0x1_0000 == Crc16(bytes)
    ensures Field(s, b + 1).0 % 256 == seqNum as int
  {
    hide Field, CommaAt, Pairs, Crc16, FieldAt, PairsAt;
    FieldEnds(s, 0, a);
    FieldEnds(s, a + 1, b);
    FieldEnds(s, b + 1, c);
    FieldIff(s, 0, a);
    FieldIff(s, a + 1, b);
    FieldIff(s, b + 1, c);
  }

  /**
    A text is accepted as `bytes` exactly if three fields at its front hold their number, their CRC and the
    expected sequence number, each in the width of its type, and from the twelfth character on come the bytes as
    digit pairs, with nothing left over in the 8 bits the length is kept in.
   */
  lemma ParsePacketIff(s: Text, seqNum: Byte, bytes: seq<Byte>)
    ensures ParsePacket(s, seqNum) == Accepted(bytes)
       <==> exists a: nat, b: nat, c: nat :: Sound(s, seqNum, bytes, a, b, c)
  {
    hide ParsePacket, Sound;
    if ParsePacket(s, seqNum) == Accepted(bytes) {
      var a, b, c := AcceptedIsSound(s, seqNum, bytes);
    }
    if a: nat, b: nat, c: nat :| Sound(s, seqNum, bytes, a, b, c) {
      SoundIsAccepted(s, seqNum, bytes, a, b, c);
    }
  }

  lemma CommaInside(s: Text, i: nat)
    ensures CommaAt(s, i) ==> i + 1 <= |s|
  {
  }

  lemma FieldEnds(s: Text, i: nat, e: nat)
    requires FieldAt(s, i, e)
    ensures i <= |s| && e + 1 <= |s|
  {
  }

  lemma LengthRoom(s: Text, bytes: seq<Byte>)
    requires HEADER_LEN <= |s| && (|s| - HEADER_LEN) % 256 == 2 * |bytes|
    ensures HEADER_LEN + 2 * |bytes| <= |s|
  {
  }

  /** A text is refused for its sequence number exactly if it would be accepted at another one. */
  lemma WrongNumberIff(s: Text, seqNum: Byte)
    ensures ParsePacket(s, seqNum) == Rejected("SEQ")
       <==> exists other: Byte :: other != seqNum && ParsePacket(s, other).Accepted?
  {
    hide Field, CommaAt, Pairs, Crc16;
    if ParsePacket(s, seqNum) == Rejected("SEQ") {
      var (_, a) := Field(s, 0);
      var (_, b) := Field(s, a + 1);
      var other: Byte := Field(s, b + 1).0 % 256;
      assert other != seqNum && ParsePacket(s, other).Accepted?;
    }
  }

  /** The line for a frame is accepted at the sequence number it was sent with and at no other. */
  lemma NumberDecides(data: seq<Byte>, sent: Byte, expected: Byte)
    requires |data| < 128
    ensures ParsePacket(Wire(data, sent), expected)
         == if expected == sent then Accepted(data) else Rejected("SEQ")
  {
    hide ParsePacket, Wire;
    WireParsesBack(data, sent);
    if expected != sent {
      WrongNumberIff(Wire(data, sent), expected);
    }
  }

  lemma PrefixLength(address: Byte)
    ensures |Prefix(address)| == PREFIX_LEN
  {
    Powers();
    HexTextDigits(address, 2);
  }

  /** Every line begins with the address in two digits, a tilde and a `d`. */
  lemma FrontReads(address: Byte, seqNum: Byte, data: seq<Byte>)
    ensures var front := Front(address, seqNum, data);
            && |front| >= 4 && front[2..4] == [126, 100]
            && IsDigit(front[0]) && IsDigit(front[1]) && 16 * DigitValue(front[0]) + DigitValue(front[1]) == address
  {
    hide Header, Crc16;
    var two := HexText(address, 2);
    Powers();
    HexTextDigits(address, 2);
    HexTextNumber(two, 0, address, 2);
    assert two[0..2] == two;
    assert Number(two, 0, 1) == DigitValue(two[0]) by { assert Number(two, 0, 0) == 0; }
    var front := Front(address, seqNum, data);
    assert front[0] == two[0] && front[1] == two[1];
  }

  /** A line takes bytes as long as the buffer is not full, at most sixty. */
  lemma TakenIs(ind: nat, left: nat)
    requires ind < 128
    ensures var t := Taken(ind, left);
            && t <= left && t <= 60 && (t > 0 ==> ind + 2 * (t - 1) < 128)
            && (t < left && t < 60 ==> ind + 2 * t >= 128)
  {
  }

  lemma FrontLength(address: Byte, seqNum: Byte, data: seq<Byte>)
    requires |data| < 256
    ensures |Front(address, seqNum, data)| == 15
    ensures Front(address, seqNum, data)[PREFIX_LEN..] == Header(|data|, Crc16(data), seqNum)
  {
    hide Header, Prefix, Crc16;
    PrefixLength(address);
    HeaderLength(|data|, Crc16(data), seqNum);
  }

  /** The first line of a frame that needs more room than the buffer has holds 56 bytes. */
  lemma FirstLine(front: Text, data: seq<Byte>)
    requires |front| == 15 && data != []
    ensures var n := if |data| < 57 then |data| else 56;
            LineFrom(front, data, 0) == front + HexBytes(data[..n])
    ensures LinesFrom(front, data, 0)[0] == LineFrom(front, data, 0)
    ensures |data| <= 57 ==> |LinesFrom(front, data, 0)| == 1
  {
    var t := Taken(|front|, |data|);
    assert data[0..t] == data[..t];
    HexBytesLength(data[..t]);
    if t == 57 {
      var all := data[..57];
      assert HexBytes(all) == HexBytes(all[..56]) + TwoDigits(all[56]) && all[..56] == data[..56];
      HexBytesLength(data[..56]);
    } else {
      assert t == |data| && data[..t] == data;
    }
  }

  /**
    A frame of 1 to 255 bytes goes out as one line that the parser turns back into the frame exactly
    when it has at most 56 bytes.
   */
  lemma FrameSurvivesIff(address: Byte, seqNum: Byte, data: seq<Byte>)
    requires 0 < |data| < 256
    ensures |Front(address, seqNum, data)| == 15
    ensures var lines := LinesFrom(Front(address, seqNum, data), data, 0);
            && lines != [] && |lines[0]| >= PREFIX_LEN
            && (ParsePacket(lines[0][PREFIX_LEN..], seqNum) == Accepted(data) <==> |data| <= 56)
            && (|data| <= 56 ==> lines == [Prefix(address) + Wire(data, seqNum)])
  {
    hide Header, HexBytes, Crc16, ParsePacket, Prefix;
    var front := Front(address, seqNum, data);
    FrontLength(address, seqNum, data);
    PrefixLength(address);
    FirstLine(front, data);
    var line := LinesFrom(front, data, 0)[0];
    if |data| <= 56 {
      assert data[..|data|] == data;
      assert line == Prefix(address) + Wire(data, seqNum);
      assert line[PREFIX_LEN..] == Wire(data, seqNum);
      WireParsesBack(data, seqNum);
    } else {
      HexBytesLength(data[..56]);
      ParsedLength(line[PREFIX_LEN..], seqNum);
    }
  }

  lemma ParsedLength(s: Text, seqNum: Byte)
    requires HEADER_LEN <= |s| < 256
    ensures ParsePacket(s, seqNum).Accepted? ==> 2 * |ParsePacket(s, seqNum).bytes| == |s| - HEADER_LEN
  {
    hide Field, CommaAt, Pairs, Crc16;
  }

  /** Lines with the same checksum field whose payloads differ in one byte are not both accepted. */
  lemma NotBothParsed(a: Text, b: Text, seqA: Byte, seqB: Byte, i: nat)
    requires CrcField(a) == CrcField(b)
    requires ParsePacket(a, seqA).Accepted? && ParsePacket(b, seqB).Accepted?
    ensures !DifferOnlyAt(ParsePacket(a, seqA).bytes, ParsePacket(b, seqB).bytes, i)
  {
    hide ParsePacket, CrcField, Crc16, DifferOnlyAt;
    var x, y := ParsePacket(a, seqA).bytes, ParsePacket(b, seqB).bytes;
    CrcFits(a, seqA);
    CrcFits(b, seqB);
    if DifferOnlyAt(x, y, i) {
      ChangesCrc16(x, y, i);
    }
  }

  lemma CrcFits(s: Text, seqNum: Byte)
    requires ParsePacket(s, seqNum).Accepted?
    ensures Crc16(ParsePacket(s, seqNum).bytes) == CrcField(s)
  {
    hide Field, CommaAt, Pairs, Crc16;
  }

  lemma ChangesCrc16(x: seq<Byte>, y: seq<Byte>, i: nat)
    requires DifferOnlyAt(x, y, i)
    ensures Crc16(x) != Crc16(y)
  {
    hide Divide16;
    OneByteChanged16(0xFFFF, x, y, i);
    DistinctBv16(Divide16(0xFFFF, x), Divide16(0xFFFF, y));
  }

  // ---------- The sender ----------

  class Sender {
    var targetAddr: Byte
    var seqNum: Byte
    var last: Text
    var commands: seq<Text>

    /** Queues the lines for one frame and moves on to the next sequence number. */
    method WriteData(buf: seq<Byte>)
      requires |Front(targetAddr, seqNum, buf)| < OUT_BUF_SIZE
      modifies `seqNum, `last, `commands
      ensures commands == old(commands) + LinesFrom(Front(targetAddr, old(seqNum), buf), buf, 0)
      ensures buf != [] ==> last == commands[|commands| - 1]
      ensures seqNum == (old(seqNum) + 1) % 256
    {
      hide Front, Header, Prefix, LineFrom, Divide16, Crc16;
      var crc := CrcCcitt(buf, 0xFFFF, 0);
      CrcUnchanged(buf, crc);
      var front := Prefix(targetAddr) + Header(|buf|, crc as int, seqNum);
      FrontIs(targetAddr, seqNum, buf, crc);
      var packetInd := 0;
      while packetInd < |buf|
        invariant 0 <= packetInd <= |buf|
        invariant commands + LinesFrom(front, buf, packetInd) == old(commands) + LinesFrom(front, buf, 0)
        invariant seqNum == old(seqNum)
        invariant packetInd > 0 ==> commands != [] && last == commands[|commands| - 1]
        decreases |buf| - packetInd
      {
        var outBuf, next := FillLine(front, buf, packetInd);
        packetInd := next;
        last := outBuf;
        commands := commands + [outBuf];
      }
      seqNum := (seqNum + 1) % 256;
    }

    /** Prints one line's worth of bytes behind the front. */
    method FillLine(front: Text, buf: seq<Byte>, from: nat) returns (outBuf: Text, next: nat)
      requires |front| < OUT_BUF_SIZE && from < |buf|
      ensures outBuf == LineFrom(front, buf, from) && next == from + Taken(|front|, |buf| - from)
    {
      hide HexBytes, CutOff;
      var packetInd := from;
      var ct, ind := 0, |front|;
      outBuf := front;
      HexNothing(front);
      assert buf[from..from] == [];
      while ind < OUT_BUF_SIZE && ct < MAX_PACKET_CHARS && packetInd < |buf|
        invariant packetInd == from + ct <= |buf| && ct <= MAX_PACKET_CHARS
        invariant ind == |front| + 2 * ct && ind <= OUT_BUF_SIZE + 1
        invariant outBuf == CutOff(front + HexBytes(buf[from..packetInd]))
        decreases |buf| - packetInd
      {
        HexOneMore(front, buf, from, packetInd);
        outBuf := CutOff(outBuf + TwoDigits(buf[packetInd]));
        ind := ind + 2;
        ct := ct + 1;
        packetInd := packetInd + 1;
      }
      assert ct == Taken(|front|, |buf| - from);
      next := packetInd;
    }
  }

  lemma CrcUnchanged(buf: seq<Byte>, crc: bv16)
    requires crc == Divide16(0xFFFF, buf) ^ 0
    ensures crc as int == Crc16(buf)
  {
    hide Divide16;
    XorZero16(Divide16(0xFFFF, buf));
  }

  lemma FrontIs(address: Byte, seqNum: Byte, buf: seq<Byte>, crc: bv16)
    requires crc as int == Crc16(buf)
    ensures Prefix(address) + Header(|buf|, crc as int, seqNum) == Front(address, seqNum, buf)
  {
    hide Crc16, Header, Prefix;
  }

  lemma HexNothing(front: Text)
    requires |front| < OUT_BUF_SIZE
    ensures CutOff(front + HexBytes([])) == front
  {
    assert front + [] == front;
  }

  /** Printing one more pair into the buffer: what the end of the buffer cuts off stays cut off. */
  lemma HexOneMore(front: Text, buf: seq<Byte>, from: nat, to: nat)
    requires from <= to < |buf|
    ensures CutOff(front + HexBytes(buf[from..to + 1])) ==
             CutOff(CutOff(front + HexBytes(buf[from..to])) + TwoDigits(buf[to]))
  {
    assert buf[from..to + 1][..to - from] == buf[from..to];
    assert HexBytes(buf[from..to + 1]) == HexBytes(buf[from..to]) + TwoDigits(buf[to]);
    var t := front + HexBytes(buf[from..to]);
    assert front + HexBytes(buf[from..to + 1]) == t + TwoDigits(buf[to]);
    if |t| >= OUT_BUF_SIZE {
      assert CutOff(t) == t[..127] && CutOff(t + TwoDigits(buf[to])) == t[..127];
      assert CutOff(t[..127] + TwoDigits(buf[to])) == t[..127];
    }
  }
}
