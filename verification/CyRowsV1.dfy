/** The rows of the newer file format, addressed by memory address and protected by a CRC-32C. */
module CyRowsV1 {
  import opened Bytes
  import opened Hex
  import opened ReflectedChecksums
  import opened CyErrors
  import BootloaderTransport
  import opened CyParse
  import opened CyChunks
  import opened CyFrames
  import opened CyHost
  import opened CyTrace
  import opened CyLog
  import opened CySession

  /** The header of PROGRAM_DATA and VERIFY_DATA around their data. */
  const DATA_HEADER_SIZE: nat := 15
  const ADDRESS_SIZE: nat := 4

  datatype DataRow = DataRow(address: nat, data: seq<Byte>)

  datatype DataRowResult = DataRowError(err: int) | DataRowOK(row: DataRow)

  /** `CyBtldr_ComputeChecksum32bit`. */
  function Checksum32(data: seq<Byte>): (r: nat)
    ensures r < 0x1_0000_0000
  {
    (!DivideR32(0xFFFFFFFF, data)) as int
  }

  method ComputeChecksum32(data: seq<Byte>) returns (r: nat)
    ensures r == Checksum32(data)
  {
    hide DivideR32;
    var crc := Crc32c(data);
    r := crc as int;
  }

  // ---------- Row lines ----------

  /** `CyBtldr_ParseRowData_v1` on values. */
  function ParseDataRow(line: Text): DataRowResult
  {
    if |line| <= ADDRESS_SIZE then DataRowError(CYRET_ERR_LENGTH)
    else if line[0] != COLON then DataRowError(CYRET_ERR_CMD)
    else if |line| % 2 == 0 then DataRowError(CYRET_ERR_LENGTH)
    else
      var hexData := Packed(line[1..]);
      if |hexData| <= ADDRESS_SIZE then DataRowError(CYRET_ERR_DATA)
      else DataRowOK(DataRow(ReadLittleEndian32(hexData[0], hexData[1], hexData[2], hexData[3]), hexData[4..]))
  }

  method ParseRowData(line: Text, rowData: array<Byte>) returns (err: int, address: nat, size: nat, checksum: Byte)
    requires |line| < 2 * MAX_BUFFER_SIZE && MAX_BUFFER_SIZE <= rowData.Length
    modifies rowData
    ensures err != CYRET_SUCCESS ==> ParseDataRow(line) == DataRowError(err)
    ensures err == CYRET_SUCCESS ==> size <= rowData.Length
    ensures err == CYRET_SUCCESS ==> ParseDataRow(line) == DataRowOK(DataRow(address, rowData[..size]))
    ensures err == CYRET_SUCCESS ==> checksum == Sum(rowData[..size]) % 256
  {
    hide Packed, Sum, ReadLittleEndian32;
    SumOfNothing();
    err, address, size, checksum := CYRET_SUCCESS, 0, 0, 0;
    if |line| <= ADDRESS_SIZE {
      err := CYRET_ERR_LENGTH;
    } else if line[0] == COLON {
      var hexData := new Byte[MAX_BUFFER_SIZE];
      var hexSize;
      err, hexSize := FromAscii(line[1..], hexData);
      if err == CYRET_SUCCESS {
        ghost var bytes := hexData[..hexSize];
        address := ReadLittleEndian32(hexData[0], hexData[1], hexData[2], hexData[3]);
        if ADDRESS_SIZE < hexSize {
          size := hexSize - ADDRESS_SIZE;
          var i := 0;
          while i < size
            invariant 0 <= i <= size
            invariant hexData[..hexSize] == bytes && rowData[..i] == bytes[4..4 + i]
            invariant checksum == Sum(bytes[4..4 + i]) % 256
          {
            rowData[i] := hexData[ADDRESS_SIZE + i];
            checksum := (checksum + rowData[i]) % 256;
            SumStep(bytes[4..4 + i], rowData[i], bytes[4..4 + i + 1]);
            i := i + 1;
          }
          assert bytes[4..] == rowData[..size];
        } else {
          err := CYRET_ERR_DATA;
        }
      }
    } else {
      err := CYRET_ERR_CMD;
    }
  }

  lemma SumOfNothing()
    ensures Sum([]) == 0
  {
  }

  lemma SumStep(data: seq<Byte>, b: Byte, more: seq<Byte>)
    requires more == data + [b]
    ensures (Sum(data) % 256 + b) % 256 == Sum(more) % 256
  {
    assert more[..|data|] == data;
    assert Sum(more) == Sum(data) + b;
  }

  /** Exactly the lines that parse as a row of the newer format. */
  lemma ParseDataRowIff(line: Text, row: DataRow)
    requires row.address < 0x1_0000_0000
    ensures ParseDataRow(line) == DataRowOK(row)
       <==> && |line| > 0 && line[0] == COLON && |line| % 2 == 1 && row.data != []
            && Packed(line[1..]) == LittleEndian32(row.address) + row.data
  {
    hide Packed, LittleEndian32, ReadLittleEndian32;
    LittleEndianRead32(row.address);
    if |line| > 0 && line[0] == COLON && |line| % 2 == 1 {
      var bytes := Packed(line[1..]);
      if |bytes| >= 4 {
        UniqueAddress(bytes[0], bytes[1], bytes[2], bytes[3]);
        assert bytes == [bytes[0], bytes[1], bytes[2], bytes[3]] + bytes[4..];
      }
      if bytes == LittleEndian32(row.address) + row.data {
        assert bytes[4..] == row.data;
      }
    }
  }

  lemma UniqueAddress(a: Byte, b: Byte, c: Byte, d: Byte)
    ensures LittleEndian32(ReadLittleEndian32(a, b, c, d)) == [a, b, c, d]
  {
    hide LittleEndian, ReadLittleEndian;
    var lo, hi := ReadLittleEndian(a, b), ReadLittleEndian(c, d);
    TwoBytesBack(a, b);
    TwoBytesBack(c, d);
    TwoHalves(hi, lo);
  }

  lemma TwoBytesBack(lo: Byte, hi: Byte)
    ensures ReadLittleEndian(lo, hi) < 0x1_0000 && LittleEndian(ReadLittleEndian(lo, hi)) == [lo, hi]
  {
  }

  function DataRowText(row: DataRow): Text
  {
    [COLON] + BootloaderTransport.HexBytes(LittleEndian32(row.address) + row.data)
  }

  lemma DataRowRoundTrip(row: DataRow)
    requires row.address < 0x1_0000_0000 && row.data != []
    ensures ParseDataRow(DataRowText(row)) == DataRowOK(row)
  {
    hide Packed, LittleEndian32, ReadLittleEndian32;
    var bytes := LittleEndian32(row.address) + row.data;
    HexBytesPack(bytes);
    LittleEndianRead32(row.address);
    assert DataRowText(row)[1..] == BootloaderTransport.HexBytes(bytes);
  }

  // ---------- Programming and verifying ----------

  function DataId(address: nat, crc: nat): seq<Byte>
  {
    LittleEndian32(address) + LittleEndian32(crc)
  }

  /** Frames must have room for the larger header. */
  predicate Roomy(link: Link)
  {
    Usable(link) && DATA_HEADER_SIZE <= link.maxTransferSize
  }

  /** `CyBtldr_ProgramRow_v1` and `CyBtldr_VerifyRow_v1`, which differ in the last command only. */
  function SendRow(h: Host, link: Link, code: Byte, row: DataRow): Step
    requires Roomy(link)
  {
    var sent := SendData(h, link, row.data, link.maxTransferSize - DATA_HEADER_SIZE, 0);
    if sent.err != CYRET_SUCCESS then Step(sent.err, sent.host)
    else Command(sent.host, link, code, DataId(row.address, Checksum32(row.data)) + row.data[sent.offset..], 0)
  }

  function ActOnData(h: Host, link: Link, action: Action, row: DataRow): Step
    requires Roomy(link)
  {
    match action
    case ERASE => Command(h, link, CMD_ERASE_DATA, LittleEndian32(row.address), 0)
    case PROGRAM => SendRow(h, link, CMD_PROGRAM_DATA, row)
    case VERIFY => SendRow(h, link, CMD_VERIFY_DATA, row)
  }

  /** `ProcessDataRow_v1`. */
  function ProcessDataRow(h: Host, link: Link, action: Action, line: Text): Step
    requires Roomy(link)
  {
    match ParseDataRow(line)
    case DataRowError(err) => Step(err, h)
    case DataRowOK(row) =>
      var acted := ActOnData(h, link, action, row);
      if acted.err != CYRET_SUCCESS then acted
      else Step(CYRET_SUCCESS, acted.host.(progress := acted.host.progress + [(0, row.address / 0x1_0000)]))
  }

  function DataAct(action: Action, row: DataRow): Act
  {
    match action
    case ERASE => Wiped(row.address)
    case PROGRAM => Stored(row.address, Checksum32(row.data), row.data)
    case VERIFY => Compared(row.address, Checksum32(row.data), row.data)
  }

  lemma DataIdRead(address: nat, crc: nat, rest: seq<Byte>)
    requires address < 0x1_0000_0000 && crc < 0x1_0000_0000
    ensures var p := DataId(address, crc) + rest;
            && |p| >= 8 && p[8..] == rest
            && ReadLittleEndian32(p[0], p[1], p[2], p[3]) == address &&
               ReadLittleEndian32(p[4], p[5], p[6], p[7]) == crc
  {
    hide LittleEndian32, ReadLittleEndian32;
    LittleEndianRead32(address);
    LittleEndianRead32(crc);
  }

  /**
    A row that is programmed or verified reaches the device whole, with its address and the CRC-32C of
    exactly these bytes; and it could be cut up cleanly.
   */
  lemma SeeSendRow(h: Host, link: Link, code: Byte, row: DataRow)
    requires Roomy(link) && row.address < 0x1_0000_0000 && Seen(h.history).pending == []
    requires code == CMD_PROGRAM_DATA || code == CMD_VERIFY_DATA
    requires SendRow(h, link, code, row).err == CYRET_SUCCESS
    ensures Seen(SendRow(h, link, code, row).host.history)
         == Did(Seen(h.history), DataAct(if code == CMD_PROGRAM_DATA then PROGRAM else VERIFY, row))
    ensures CutsCleanly(link.maxTransferSize, DATA_HEADER_SIZE, |row.data|)
  {
    hide Command, Seen, SendData, DataId, Checksum32, ReadLittleEndian32, FinalOffset, CutsCleanly, Obey;
    var limit := link.maxTransferSize - DATA_HEADER_SIZE;
    var sent := SendData(h, link, row.data, limit, 0);
    SeeSent(h, link, row.data, limit, 0);
    StopsInsideIff(link.maxTransferSize, DATA_HEADER_SIZE, |row.data|);
    var rest, crc := row.data[sent.offset..], Checksum32(row.data);
    SeeCommand(sent.host, link, code, DataId(row.address, crc) + rest);
    ObeyRow(Seen(sent.host.history), code, row.address, crc, rest,
            ReplyTo(sent.host, link, CommandOf(sent.host, code, DataId(row.address, crc) + rest)));
    assert [] + row.data[0..sent.offset] + rest == row.data;
  }

  lemma ObeyRow(d: Device, code: Byte, address: nat, crc: nat, rest: seq<Byte>, reply: Reply)
    requires address < 0x1_0000_0000 && crc < 0x1_0000_0000
    requires code == CMD_PROGRAM_DATA || code == CMD_VERIFY_DATA
    ensures Obey(d, code, DataId(address, crc) + rest, reply)
         == Device([], d.acts + [if code == CMD_PROGRAM_DATA then Stored(address, crc, d.pending + rest)
                                 else Compared(address, crc, d.pending + rest)])
  {
    hide DataId, ReadLittleEndian32;
    DataIdRead(address, crc, rest);
  }

  lemma SuccessfulRow(h: Host, link: Link, action: Action, line: Text)
    requires Roomy(link) && Seen(h.history).pending == []
    requires ProcessDataRow(h, link, action, line).err == CYRET_SUCCESS
    ensures ParseDataRow(line).DataRowOK?
    ensures var r, row := ProcessDataRow(h, link, action, line).host, ParseDataRow(line).row;
            && Seen(r.history) == Did(Seen(h.history), DataAct(action, row))
            && r.progress == h.progress + [(0, row.address / 0x1_0000)]
            && (action != ERASE ==> CutsCleanly(link.maxTransferSize, DATA_HEADER_SIZE, |row.data|))
  {
    DataProgress(h, link, action, ParseDataRow(line));
    hide Command, Seen, SendRow, Checksum32, CutsCleanly, LittleEndian32, ReadLittleEndian32;
    ParsedAddress(line);
    var row := ParseDataRow(line).row;
    match action
    case ERASE =>
      SeeCommand(h, link, CMD_ERASE_DATA, LittleEndian32(row.address));
      LittleEndianRead32(row.address);
    case PROGRAM => SeeSendRow(h, link, CMD_PROGRAM_DATA, row);
    case VERIFY => SeeSendRow(h, link, CMD_VERIFY_DATA, row);
  }

  lemma DataProgress(h: Host, link: Link, action: Action, parsed: DataRowResult)
    requires Roomy(link)
    ensures parsed.DataRowOK? ==> ActOnData(h, link, action, parsed.row).host.progress == h.progress
  {
    hide FrameOf, ReplyErr, SendData, Checksum32, DataId;
    if parsed.DataRowOK? {
      SendProgress(h, link, parsed.row.data, link.maxTransferSize - DATA_HEADER_SIZE, 0);
    }
  }

  /** Why a line is no row of the newer format. */
  lemma DataRowRefusedWhy(line: Text)
    ensures ParseDataRow(line).DataRowError? ==>
              ParseDataRow(line).err ==
              if |line| < 5 then 3 else if line[0] != 58 then 5 else if |line| % 2 == 0 then 3 else 4
  {
    hide Packed;
  }

  lemma ParsedAddress(line: Text)
    ensures match ParseDataRow(line)
            case DataRowError(err) => err != CYRET_SUCCESS
            case DataRowOK(row) => row.address < 0x1_0000_0000
  {
    hide Packed;
  }

  // ---------- The host's methods ----------

  lemma DataIdLength(address: nat, crc: nat)
    ensures |DataId(address, crc)| == 8
  {
  }

  method SendRowTo(s: Session, code: Byte, address: nat, buf: array<Byte>, size: nat) returns (err: int)
    requires s.Connected() && Roomy(s.Link()) && size <= buf.Length
    modifies s`history
    ensures Step(err, s.Host()) == SendRow(old(s.Host()), s.Link(), code, DataRow(address, buf[..size]))
  {
    hide Command, SendData, Checksum32, DataId;
    var crc := ComputeChecksum32(buf[..size]);
    DataIdLength(address, crc);
    ghost var h := s.Host();
    var limit := s.comm.value.maxTransferSize - DATA_HEADER_SIZE;
    var offset;
    err, offset := s.SendData(buf, size, 0, limit);
    if err == CYRET_SUCCESS {
      SendLeaves(s.Link(), h, buf[..size], limit, 0);
      assert buf[..size][offset..] == buf[offset..size];
      var outBuf;
      err, outBuf := s.Perform(code, DataId(address, crc) + buf[offset..size], 0);
    }
  }

  method ActOnRow(s: Session, action: Action, address: nat, buf: array<Byte>, size: nat) returns (err: int)
    requires s.Connected() && Roomy(s.Link()) && size <= buf.Length
    modifies s`history
    ensures Step(err, s.Host()) == ActOnData(old(s.Host()), s.Link(), action, DataRow(address, buf[..size]))
  {
    hide Command, SendRow;
    match action
    case ERASE =>
      var outBuf;
      err, outBuf := s.Perform(CMD_ERASE_DATA, LittleEndian32(address), 0);
    case PROGRAM => err := SendRowTo(s, CMD_PROGRAM_DATA, address, buf, size);
    case VERIFY => err := SendRowTo(s, CMD_VERIFY_DATA, address, buf, size);
  }

  method ProcessRow(s: Session, action: Action, line: Text) returns (err: int)
    requires s.Connected() && Roomy(s.Link()) && |line| < 2 * MAX_BUFFER_SIZE
    modifies s`history, s`progress
    ensures Step(err, s.Host()) == ProcessDataRow(old(s.Host()), s.Link(), action, line)
  {
    hide ActOnData, ParseDataRow;
    var buffer := new Byte[MAX_BUFFER_SIZE];
    var address, bufSize, checksum;
    err, address, bufSize, checksum := ParseRowData(line, buffer);
    if err != CYRET_SUCCESS { return; }
    err := ActOnRow(s, action, address, buffer, bufSize);
    if err == CYRET_SUCCESS {
      s.progress := s.progress + [(0, address / 0x1_0000)];
    }
  }
}
