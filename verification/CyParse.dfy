/** The text of a `.cyacd` file: hexadecimal bytes, the header line and the row lines. */
module CyParse {
  import opened Bytes
  import opened Hex
  import opened CyErrors
  import opened BootloaderTransport

  const MAX_BUFFER_SIZE: nat := 768
  const COLON: Byte := 58

  /** Big-endian, as in the file. */
  function BigEndian16(n: nat): seq<Byte>
  {
    [n / 256 % 256, n % 256]
  }

  function ReadBigEndian16(hi: Byte, lo: Byte): nat
  {
    256 * hi as int + lo as int
  }

  // ---------- Hexadecimal text ----------

  /** `CyBtldr_FromHex`: the value of a digit, and 0 for every other character. */
  function FromHex(value: Byte): (d: Digit)
    ensures IsDigit(value) ==> d == DigitValue(value)
    ensures !IsDigit(value) ==> d == 0
  {
    if 48 <= value <= 57 then value - 48
    else if 97 <= value <= 102 then 10 + value - 97
    else if 65 <= value <= 70 then 10 + value - 65
    else 0
  }

  function ByteAt(text: Text, i: nat): Byte
    requires 2 * i + 1 < |text|
  {
    16 * FromHex(text[2 * i]) + FromHex(text[2 * i + 1])
  }

  /** The bytes that an even number of characters stands for. */
  function Packed(text: Text): (data: seq<Byte>)
    requires |text| % 2 == 0
    ensures |data| == |text| / 2
  {
    seq(|text| / 2, i requires 0 <= i < |text| / 2 => ByteAt(text, i))
  }

  /** `CyBtldr_FromAscii` into a buffer that is large enough. */
  method FromAscii(buffer: Text, rowData: array<Byte>) returns (err: int, rowSize: nat)
    requires |buffer| < 2 * MAX_BUFFER_SIZE && MAX_BUFFER_SIZE <= rowData.Length
    modifies rowData
    ensures err == if |buffer| % 2 == 1 then CYRET_ERR_LENGTH else CYRET_SUCCESS
    ensures err == CYRET_SUCCESS ==> rowSize == |buffer| / 2 && rowData[..rowSize] == Packed(buffer)
    ensures err != CYRET_SUCCESS ==> rowData[..] == old(rowData[..])
  {
    err, rowSize := CYRET_SUCCESS, 0;
    if |buffer| % 2 == 1 {
      err := CYRET_ERR_LENGTH;
    } else {
      var i := 0;
      while i < |buffer| / 2
        invariant 0 <= i <= |buffer| / 2
        invariant forall k :: 0 <= k < i ==> rowData[k] == ByteAt(buffer, k)
      {
        rowData[i] := 16 * FromHex(buffer[2 * i]) + FromHex(buffer[2 * i + 1]);
        i := i + 1;
      }
      rowSize := i;
    }
  }

  lemma OneMorePair(text: Text, b: Byte)
    requires |text| % 2 == 0
    ensures Packed(text + TwoDigits(b)) == Packed(text) + [b]
  {
    hide DigitChar, FromHex;
    var longer, n := text + TwoDigits(b), |text| / 2;
    DigitRoundTrip(b / 16);
    DigitRoundTrip(b % 16);
    assert ByteAt(longer, n) == b;
    assert forall i :: 0 <= i < n ==> Packed(longer)[i] == ByteAt(text, i);
  }

  /** Printed bytes read back. */
  lemma {:induction false} HexBytesPack(data: seq<Byte>)
    ensures |HexBytes(data)| == 2 * |data| && Packed(HexBytes(data)) == data
    decreases |data|
  {
    hide Packed, TwoDigits;
    HexBytesLength(data);
    if data != [] {
      var front := data[..|data| - 1];
      HexBytesPack(front);
      OneMorePair(HexBytes(front), data[|data| - 1]);
    }
  }

  // ---------- Row lines ----------

  datatype Row = Row(arrayId: Byte, rowNum: nat, data: seq<Byte>, checksum: Byte)

  datatype RowResult = RowError(err: int) | RowOK(row: Row)

  const MIN_SIZE: nat := 6

  function RowAt(hexData: seq<Byte>): (r: Row)
    requires |hexData| >= MIN_SIZE
    ensures r.rowNum < 0x1_0000
  {
    Row(hexData[0], ReadBigEndian16(hexData[1], hexData[2]), hexData[5..|hexData| - 1], hexData[|hexData| - 1])
  }

  /** `CyBtldr_ParseRowData` on values. */
  function ParseRow(line: Text): RowResult
  {
    if |line| <= MIN_SIZE then RowError(CYRET_ERR_LENGTH)
    else if line[0] != COLON then RowError(CYRET_ERR_CMD)
    else if |line| % 2 == 0 then RowError(CYRET_ERR_LENGTH)
    else
      var hexData := Packed(line[1..]);
      if |hexData| < MIN_SIZE || ReadBigEndian16(hexData[3], hexData[4]) + MIN_SIZE != |hexData|
      then RowError(CYRET_ERR_DATA)
      else RowOK(RowAt(hexData))
  }

  /**
    `CyBtldr_ParseRowData`: the buffers start with whatever was in memory, and the size field may be
    read before it is known that the line is long enough to hold one.
   */
  method ParseRowData(line: Text, rowData: array<Byte>)
    returns (err: int, arrayId: Byte, rowNum: nat, size: nat, checksum: Byte)
    requires |line| < 2 * MAX_BUFFER_SIZE && MAX_BUFFER_SIZE <= rowData.Length
    modifies rowData
    ensures err != CYRET_SUCCESS ==> ParseRow(line) == RowError(err)
    ensures err == CYRET_SUCCESS ==>
            size <= 761 && ParseRow(line) == RowOK(Row(arrayId, rowNum, rowData[..size], checksum))
  {
    hide Packed;
    err, arrayId, rowNum, size, checksum := CYRET_SUCCESS, 0, 0, 0, 0;
    if |line| <= MIN_SIZE {
      err := CYRET_ERR_LENGTH;
    } else if line[0] == COLON {
      var hexData := new Byte[MAX_BUFFER_SIZE];
      var hexSize;
      err, hexSize := FromAscii(line[1..], hexData);
      if err == CYRET_SUCCESS {
        ghost var bytes := hexData[..hexSize];
        arrayId := hexData[0];
        rowNum := ReadBigEndian16(hexData[1], hexData[2]);
        size := ReadBigEndian16(hexData[3], hexData[4]);
        checksum := hexData[hexSize - 1];
        if size + MIN_SIZE == hexSize {
          assert bytes[3] == hexData[3] && bytes[4] == hexData[4];
          var i := 0;
          while i < size
            invariant 0 <= i <= size
            invariant hexData[..hexSize] == bytes && rowData[..i] == bytes[5..5 + i]
          {
            rowData[i] := hexData[5 + i];
            i := i + 1;
          }
        } else {
          err := CYRET_ERR_DATA;
          assert hexSize >= MIN_SIZE ==> bytes[3] == hexData[3] && bytes[4] == hexData[4];
        }
      }
    } else {
      err := CYRET_ERR_CMD;
    }
  }

  /** The bytes of a row line. */
  function RowBytes(row: Row): seq<Byte>
  {
    [row.arrayId] + BigEndian16(row.rowNum) + BigEndian16(|row.data|) + row.data + [row.checksum]
  }

  function RowText(row: Row): Text
  {
    [COLON] + HexBytes(RowBytes(row))
  }

  predicate RowFits(row: Row)
  {
    row.rowNum < 0x1_0000 && |row.data| < 0x1_0000
  }

  /**
    Exactly the lines that a colon and the row's bytes in hexadecimal make up parse as that row, where
    a character that is not a digit counts as 0.
   */
  lemma ParseRowIff(line: Text, row: Row)
    requires RowFits(row)
    ensures ParseRow(line) == RowOK(row)
       <==> |line| > 0 && line[0] == COLON && |line| % 2 == 1 && Packed(line[1..]) == RowBytes(row)
  {
    hide Packed;
    var bytes := RowBytes(row);
    if |line| > 0 && line[0] == COLON && |line| % 2 == 1 {
      var hexData := Packed(line[1..]);
      if hexData == bytes {
        assert |hexData| >= MIN_SIZE;
        assert hexData[5..|hexData| - 1] == row.data;
      } else if ParseRow(line) == RowOK(row) {
        assert hexData == [hexData[0]] + [hexData[1], hexData[2]] + [hexData[3], hexData[4]] + row.data +
               [hexData[|hexData| - 1]];
        BigEndianUnique(hexData[1], hexData[2]);
        BigEndianUnique(hexData[3], hexData[4]);
      }
    }
  }

  /** Why a line is no row: its length, its first character, half a byte too much, or a wrong size field. */
  lemma RowRefusedWhy(line: Text)
    ensures ParseRow(line).RowError? ==>
              ParseRow(line).err ==
              if |line| < 7 then 3 else if line[0] != 58 then 5 else if |line| % 2 == 0 then 3 else 4
  {
    hide Packed;
  }

  lemma BigEndianUnique(hi: Byte, lo: Byte)
    ensures BigEndian16(ReadBigEndian16(hi, lo)) == [hi, lo]
  {
  }

  /** What is printed as a row line parses as that row. */
  lemma RowRoundTrip(row: Row)
    requires RowFits(row)
    ensures ParseRow(RowText(row)) == RowOK(row)
  {
    hide Packed, HexBytes, RowBytes, ParseRow;
    HexBytesPack(RowBytes(row));
    assert RowText(row)[1..] == HexBytes(RowBytes(row));
    ParseRowIff(RowText(row), row);
  }

  lemma ParsedFits(line: Text)
    requires ParseRow(line).RowOK? && |line| < 2 * MAX_BUFFER_SIZE
    ensures RowFits(ParseRow(line).row) && |ParseRow(line).row.data| <= 761
  {
    hide Packed;
  }

  // ---------- The header line ----------

  datatype Header = Header(siliconId: nat, siliconRev: Byte, checksumType: Byte)

  datatype HeaderResult = HeaderError(err: int) | HeaderOK(header: Header)

  function BigEndian32(n: nat): seq<Byte>
  {
    BigEndian16(n / 0x1_0000) + BigEndian16(n % 0x1_0000)
  }

  function ReadBigEndian32(a: Byte, b: Byte, c: Byte, d: Byte): nat
  {
    0x1_0000 * ReadBigEndian16(a, b) + ReadBigEndian16(c, d)
  }

  /** `CyBtldr_ParseHeader`. */
  function ParseHeader(line: Text): HeaderResult
  {
    if |line| % 2 == 1 then HeaderError(CYRET_ERR_LENGTH)
    else
      var data := Packed(line);
      if |data| <= 4 then HeaderError(CYRET_ERR_LENGTH)
      else
        var id := ReadBigEndian32(data[0], data[1], data[2], data[3]);
        HeaderOK(Header(id, data[4], if |data| > 5 then data[5] else 0))
  }

  method ParseHeaderLine(line: Text) returns (err: int, siliconId: nat, siliconRev: Byte, chksum: Byte)
    requires |line| < 2 * MAX_BUFFER_SIZE
    ensures err != CYRET_SUCCESS ==> ParseHeader(line) == HeaderError(err)
    ensures err == CYRET_SUCCESS ==> ParseHeader(line) == HeaderOK(Header(siliconId, siliconRev, chksum))
  {
    siliconId, siliconRev, chksum := 0, 0, 0;
    var rowData := new Byte[MAX_BUFFER_SIZE];
    var rowSize;
    err, rowSize := FromAscii(line, rowData);
    if err == CYRET_SUCCESS {
      ghost var data := rowData[..rowSize];
      if rowSize > 5 {
        chksum := rowData[5];
      } else {
        chksum := 0;
      }
      if rowSize > 4 {
        siliconId := ReadBigEndian32(rowData[0], rowData[1], rowData[2], rowData[3]);
        siliconRev := rowData[4];
        assert data[0] == rowData[0] && data[1] == rowData[1] && data[2] == rowData[2] && data[3] == rowData[3];
      } else {
        err := CYRET_ERR_LENGTH;
      }
    }
  }

  function HeaderText(header: Header): Text
  {
    HexBytes(BigEndian32(header.siliconId) + [header.siliconRev, header.checksumType])
  }

  lemma HeaderRoundTrip(header: Header)
    requires header.siliconId < 0x1_0000_0000
    ensures ParseHeader(HeaderText(header)) == HeaderOK(header)
  {
    hide Packed, HexBytes;
    var data := BigEndian32(header.siliconId) + [header.siliconRev, header.checksumType];
    HexBytesPack(data);
    ReadBack32(header.siliconId);
  }

  lemma ReadBack32(n: nat)
    requires n < 0x1_0000_0000
    ensures var b := BigEndian32(n); ReadBigEndian32(b[0], b[1], b[2], b[3]) == n
  {
    hide BigEndian16, ReadBigEndian16;
    ReadBack16(n / 0x1_0000);
    ReadBack16(n % 0x1_0000);
  }

  lemma ReadBack16(n: nat)
    requires n < 0x1_0000
    ensures var b := BigEndian16(n); |b| == 2 && ReadBigEndian16(b[0], b[1]) == n
  {
  }

  /** Exactly the lines that parse as a header; without a sixth byte the checksum type is 0. */
  lemma ParseHeaderIff(line: Text, header: Header)
    requires header.siliconId < 0x1_0000_0000
    ensures ParseHeader(line) == HeaderOK(header)
       <==> |line| % 2 == 0 && |line| >= 10
            && Packed(line)[..5] == BigEndian32(header.siliconId) + [header.siliconRev]
            && header.checksumType == (if |line| >= 12 then Packed(line)[5] else 0)
  {
    hide Packed, BigEndian32, ReadBigEndian32;
    if |line| % 2 == 0 && |line| >= 10 {
      var data := Packed(line);
      ReadBack32(header.siliconId);
      UniqueBytes(data[0], data[1], data[2], data[3]);
      assert data[..5] == [data[0], data[1], data[2], data[3]] + [data[4]];
      if data[..5] == BigEndian32(header.siliconId) + [header.siliconRev] {
        assert BigEndian32(header.siliconId) == data[..5][..4] == [data[0], data[1], data[2], data[3]];
      }
    }
  }

  lemma UniqueBytes(a: Byte, b: Byte, c: Byte, d: Byte)
    ensures BigEndian32(ReadBigEndian32(a, b, c, d)) == [a, b, c, d]
    ensures |BigEndian32(ReadBigEndian32(a, b, c, d))| == 4
  {
    hide BigEndian16, ReadBigEndian16;
    var hi, lo := ReadBigEndian16(a, b), ReadBigEndian16(c, d);
    BigEndianUnique(a, b);
    BigEndianUnique(c, d);
    BelowTwo16(c, d);
    TwoHalves(hi, lo);
  }

  lemma BelowTwo16(hi: Byte, lo: Byte)
    ensures ReadBigEndian16(hi, lo) < 0x1_0000
  {
  }

  lemma TwoHalves(hi: nat, lo: nat)
    requires lo < 0x1_0000
    ensures (0x1_0000 * hi + lo) / 0x1_0000 == hi && (0x1_0000 * hi + lo) % 0x1_0000 == lo
  {
  }
}
