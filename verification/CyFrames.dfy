/**
  The bootloader protocol's frames: start byte, code, length, data, checksum, stop byte; and what the
  host looks at in a reply.
 */
module CyFrames {
  import opened Bytes
  import opened ReflectedChecksums
  import opened BootloaderTransport

  const CMD_START: Byte := 0x01
  const CMD_STOP: Byte := 0x17
  const BASE_CMD_SIZE: nat := 7
  const MAX_COMMAND_SIZE: nat := 512

  datatype ChecksumType = SumChecksumType | CrcChecksumType

  /** `CyBtldr_ComputeChecksum16bit`. */
  function Checksum16(kind: ChecksumType, data: seq<Byte>): (r: nat)
    ensures r < 0x1_0000
  {
    match kind
    case CrcChecksumType => SwapBytes(!Fcs(data)) as int
    case SumChecksumType => (0x1_0000 - Sum(data) % 0x1_0000) % 0x1_0000
  }

  method ComputeChecksum16(kind: ChecksumType, data: seq<Byte>) returns (r: nat)
    ensures r == Checksum16(kind, data)
  {
    hide SwapBytes, Fcs;
    if kind == CrcChecksumType {
      var crc := CrcChecksum(data);
      r := crc as int;
    } else {
      r := SumChecksum(data);
      OneComplement(Sum(data), r);
    }
  }

  /** Only one 16-bit number makes a total zero. */
  lemma OneComplement(total: nat, r: nat)
    requires r < 0x1_0000 && (total + r) % 0x1_0000 == 0
    ensures r == (0x1_0000 - total % 0x1_0000) % 0x1_0000
  {
  }

  /** `fillData16`. */
  function LittleEndian(n: nat): seq<Byte>
  {
    [n % 256, n / 256 % 256]
  }

  function ReadLittleEndian(lo: Byte, hi: Byte): nat
  {
    lo as int + 256 * hi as int
  }

  /** `fillData32`. */
  function LittleEndian32(n: nat): seq<Byte>
  {
    LittleEndian(n % 0x1_0000) + LittleEndian(n / 0x1_0000)
  }

  function ReadLittleEndian32(a: Byte, b: Byte, c: Byte, d: Byte): nat
  {
    ReadLittleEndian(a, b) + 0x1_0000 * ReadLittleEndian(c, d)
  }

  function FrameHead(code: Byte, payload: seq<Byte>): seq<Byte>
  {
    [CMD_START, code] + LittleEndian(|payload|) + payload
  }

  /** What `CreateCmd` makes of a code and its data. */
  function FrameOf(kind: ChecksumType, code: Byte, payload: seq<Byte>): seq<Byte>
  {
    var head := FrameHead(code, payload);
    head + LittleEndian(Checksum16(kind, head)) + [CMD_STOP]
  }

  /** `CreateCmd`: the data bytes are already in place. */
  method CreateCmd(kind: ChecksumType, cmdBuf: array<Byte>, cmdSize: nat, code: Byte)
    requires BASE_CMD_SIZE <= cmdSize <= cmdBuf.Length && cmdSize < 0x1_0000
    modifies cmdBuf
    ensures cmdBuf[..cmdSize] == FrameOf(kind, code, old(cmdBuf[4..cmdSize - 3]))
    ensures cmdBuf[cmdSize..] == old(cmdBuf[cmdSize..])
  {
    hide Checksum16;
    ghost var payload := cmdBuf[4..cmdSize - 3];
    cmdBuf[0] := CMD_START;
    cmdBuf[1] := code;
    cmdBuf[2] := (cmdSize - BASE_CMD_SIZE) % 256;
    cmdBuf[3] := (cmdSize - BASE_CMD_SIZE) / 256 % 256;
    assert cmdBuf[..cmdSize - 3] == FrameHead(code, payload);
    var checksum := ComputeChecksum16(kind, cmdBuf[..cmdSize - 3]);
    cmdBuf[cmdSize - 3] := checksum % 256;
    cmdBuf[cmdSize - 2] := checksum / 256 % 256;
    cmdBuf[cmdSize - 1] := CMD_STOP;
    assert cmdBuf[..cmdSize] == FrameHead(code, payload) + LittleEndian(checksum) + [CMD_STOP];
  }

  /**
    `CyBtldr_TryParseParketStatus`: the code or status of a sound frame at the front of `packet`.  The original
    does not compare the length field with the buffer; a frame that does not end within it counts as unsound
    here, and the host deals with that case before.
   */
  function TryParseStatus(kind: ChecksumType, packet: seq<Byte>, packetSize: nat): Option<Byte>
  {
    if packetSize < BASE_CMD_SIZE || |packet| < BASE_CMD_SIZE || packet[0] != CMD_START then None
    else
      var dataSize := ReadLittleEndian(packet[2], packet[3]);
      if dataSize + BASE_CMD_SIZE > |packet| then None
      else if packet[dataSize + 6] != CMD_STOP then None
      else if ReadLittleEndian(packet[dataSize + 4], packet[dataSize + 5]) != Checksum16(kind, packet[..dataSize + 4])
      then None
      else Some(packet[1])
  }

  lemma LittleEndianRead(n: nat)
    requires n < 0x1_0000
    ensures |LittleEndian(n)| == 2 && ReadLittleEndian(LittleEndian(n)[0], LittleEndian(n)[1]) == n
  {
  }

  lemma LittleEndianRead32(n: nat)
    requires n < 0x1_0000_0000
    ensures var b := LittleEndian32(n); |b| == 4 && ReadLittleEndian32(b[0], b[1], b[2], b[3]) == n
  {
    hide LittleEndian, ReadLittleEndian;
    LittleEndianRead(n % 0x1_0000);
    LittleEndianRead(n / 0x1_0000);
  }

  /** Whatever follows it in the buffer, a created frame is recognised with its own code. */
  lemma CreatedIsParsed(kind: ChecksumType, code: Byte, payload: seq<Byte>, rest: seq<Byte>)
    requires |payload| < 0x1_0000
    ensures var frame := FrameOf(kind, code, payload);
            TryParseStatus(kind, frame + rest, |frame|) == Some(code)
  {
    hide Checksum16;
    var n := |payload|;
    var head := FrameHead(code, payload);
    var packet := FrameOf(kind, code, payload) + rest;
    LittleEndianRead(n);
    LittleEndianRead(Checksum16(kind, head));
    assert packet[2] == LittleEndian(n)[0] && packet[3] == LittleEndian(n)[1];
    assert packet[..n + 4] == head;
    assert packet[n + 4] == LittleEndian(Checksum16(kind, head))[0];
    assert packet[n + 5] == LittleEndian(Checksum16(kind, head))[1];
  }

  /**
    Through the whole stack: a frame of at most 56 bytes goes out as one line of text, the line parses
    back to the frame, and the frame is recognised with its own code, for either checksum type.
   */
  lemma FrameSurvivesStack(kind: ChecksumType, code: Byte, payload: seq<Byte>, address: Byte, seqNum: Byte)
    requires |payload| <= 49
    ensures var frame := FrameOf(kind, code, payload);
            && 0 < |frame| <= 56
            && |Front(address, seqNum, frame)| == 15
            && var lines := LinesFrom(Front(address, seqNum, frame), frame, 0);
               && |lines| == 1 && |lines[0]| >= PREFIX_LEN
               && var parsed := ParsePacket(lines[0][PREFIX_LEN..], seqNum);
                  && parsed == Accepted(frame)
                  && TryParseStatus(kind, parsed.bytes, |parsed.bytes|) == Some(code)
  {
    hide Checksum16, ParsePacket, Front, TryParseStatus, LinesFrom;
    var frame := FrameOf(kind, code, payload);
    FrameSurvivesIff(address, seqNum, frame);
    CreatedIsParsed(kind, code, payload, []);
    assert frame + [] == frame;
  }

  // ---------- Replies ----------

  /** The fields `ParseGenericCmdResult` insists on for a reply with `dataSize` data bytes. */
  predicate ReplyOK(buf: seq<Byte>, dataSize: nat)
    requires |buf| > dataSize + 6 && dataSize < 256
  {
    && buf[0] == CMD_START && buf[1] == 0
    && buf[2] == dataSize && buf[3] == 0
    && buf[dataSize + 6] == CMD_STOP
  }
}
