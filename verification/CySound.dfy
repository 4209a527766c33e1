/**
  What the checksum of a row is for.  In a sound file the bytes of every line add up to zero, and a device that
  reports the complement of the data it has programmed makes exactly the sound files succeed.
 */
module CySound {
  import opened Bytes
  import opened Hex
  import opened ReflectedChecksums
  import opened CyErrors
  import opened CyParse
  import opened CyFile
  import opened CyChunks
  import opened CyFrames
  import opened CyHost
  import opened CyLog
  import opened CyWhole
  import opened CyCooperation

  /** All bytes of a row's line add up to zero, modulo 256. */
  predicate Sound(row: Row)
  {
    (row.arrayId + row.rowNum / 256 + row.rowNum % 256 + |row.data| / 256 + |row.data| % 256
     + Sum(row.data) + row.checksum) % 256 == 0
  }

  /** The byte that makes the sum of the data zero. */
  function Complement(data: seq<Byte>): (c: Byte)
    ensures (Sum(data) + c) % 256 == 0
  {
    (256 - Sum(data) % 256) % 256
  }

  /** The number a device is expected to report: the complement of the data, if and only if the line is sound. */
  lemma SoundIff(row: Row)
    ensures Sound(row) <==> Adjusted(row) == Complement(row.data)
  {
    hide Sum;
    var place := row.arrayId + row.rowNum + row.rowNum / 256 + |row.data| + |row.data| / 256;
    LowBytes(row);
    assert Adjusted(row) == (row.checksum + place) % 256;
    ComplementIff(row.checksum + place, Sum(row.data));
  }

  lemma LowBytes(row: Row)
    ensures Sound(row)
       <==> (row.checksum + (row.arrayId + row.rowNum + row.rowNum / 256 + |row.data| + |row.data| / 256)
             + Sum(row.data)) % 256 == 0
  {
    hide Sum;
    DropTwo(row.rowNum, |row.data|, row.arrayId + row.rowNum / 256 + |row.data| / 256 + Sum(row.data) + row.checksum);
  }

  lemma DropTwo(a: nat, b: nat, rest: nat)
    ensures (a % 256 + b % 256 + rest) % 256 == (a + b + rest) % 256
  {
  }

  lemma ComplementIff(x: nat, sum: nat)
    ensures (x + sum) % 256 == 0 <==> x % 256 == (256 - sum % 256) % 256
  {
  }

  // ---------- A device that reports what it holds ----------

  /** Asked for the checksum of the row it has just programmed, it reports the complement of the data. */
  ghost predicate ReportsData(link: Link, kind: ChecksumType)
  {
    forall history: seq<Event>, arrayId: Byte, rowNum: nat, data: seq<Byte> ::
      LastAct(history) == Programmed(arrayId, rowNum, data) ==>
        AnswerTo(link, kind, history, CMD_GET_ROW_CHECKSUM, RowId(arrayId, rowNum)).buf[4] == Complement(data)
  }

  lemma SoundConfirms(link: Link, kind: ChecksumType, acts: seq<Act>, row: Row)
    requires ReportsData(link, kind) && Sound(row)
    ensures Confirms(link, kind, acts, row)
  {
    hide AnswerTo, Seen, RowId, Adjusted, Complement, Sound;
    SoundIff(row);
    forall history: seq<Event> |
      Seen(history).acts == acts + [Programmed(row.arrayId, row.rowNum, row.data)]
      ensures AnswerTo(link, kind, history, CMD_GET_ROW_CHECKSUM, RowId(row.arrayId, row.rowNum)).buf[4]
           == Adjusted(row)
    {
      assert LastAct(history) == Programmed(row.arrayId, row.rowNum, row.data);
    }
  }

  /** A row that is programmed and checked successfully is sound. */
  lemma CheckedIsSound(h: Host, link: Link, kind: ChecksumType, row: Row)
    requires Usable(link) && RowFits(row) && Seen(h.history).pending == [] && h.checksum == kind
    requires ReportsData(link, kind) && ActOn(h, link, PROGRAM, row).err == CYRET_SUCCESS
    ensures Sound(row)
  {
    hide Seen, ProgramRow, CheckRow, RowId, FrameOf, ReplyErr, Adjusted, Complement, Sound;
    SeeProgram(h, link, row.arrayId, row.rowNum, row.data);
    ActProgress(h, link, PROGRAM, row);
    var programmed := ProgramRow(h, link, row.arrayId, row.rowNum, row.data).host;
    SeeCheck(programmed, link, row.arrayId, row.rowNum);
    CheckKind(programmed, link, row.arrayId, row.rowNum);
    var checked := CheckRow(programmed, link, row.arrayId, row.rowNum).host;
    assert LastAct(checked.history) == Programmed(row.arrayId, row.rowNum, row.data);
    assert AnswerTo(link, kind, checked.history, CMD_GET_ROW_CHECKSUM, RowId(row.arrayId, row.rowNum)).buf[4]
        == Complement(row.data);
    SoundIff(row);
  }

  lemma CheckKind(h: Host, link: Link, arrayId: Byte, rowNum: nat)
    ensures CheckRow(h, link, arrayId, rowNum).host.checksum == h.checksum
  {
    hide FrameOf, ReplyErr, Geometry;
  }

  lemma {:induction false} RowsAreSound(h: Host, link: Link, kind: ChecksumType, f: File, aborts: nat -> bool, i: nat)
    requires Usable(link) && Seen(h.history).pending == [] && h.checksum == kind && ReportsData(link, kind)
    requires RunRows(h, link, PROGRAM, f, aborts, i).err == CYRET_SUCCESS
    ensures AllRows(Lines(f).0) && forall r :: r in RowsOf(Lines(f).0) ==> Sound(r)
    decreases |f.content|
  {
    hide Seen, ParseRow, NextLine, RowActs, CutsCleanly, ActOn, ReportsData, Sound;
    if NextLine(f).Line? {
      var text, rest := NextLine(f).text, NextLine(f).rest;
      SeeLine(h, link, PROGRAM, text);
      ParsedFits(text);
      CheckedIsSound(h, link, kind, ParseRow(text).row);
      ActProgress(h, link, PROGRAM, ParseRow(text).row);
      RowsAreSound(ProcessDataRow(h, link, PROGRAM, text).host, link, kind, rest, aborts, i + 1);
      assert Lines(f).0[1..] == Lines(rest).0 && Lines(f).0[0] == text;
      assert RowsOf(Lines(f).0) == [ParseRow(text).row] + RowsOf(Lines(rest).0);
    }
  }

  /**
    A written file, for a single application, against a device that serves it and reports the complement of the
    data it has programmed: it succeeds exactly if every row is sound and can be cut up.
   */
  lemma SoundFileIff(h: Host, link: Link, header: Header, rows: seq<Row>, ending: Text, appId: Byte, key: seq<Byte>,
                     aborts: nat -> bool)
    requires Usable(link) && Seen(h.history).pending == [] && AppOf(appId) == INVALID_APP && forall k :: !aborts(k)
    requires header.siliconId < 0x1_0000_0000 && IsEnding(ending) && forall r :: r in rows ==> Printable(r)
    requires Serves(link, ChecksumKind(header.checksumType), rows)
    requires Identifies(link, ChecksumKind(header.checksumType), header)
    requires ReportsData(link, ChecksumKind(header.checksumType))
    ensures RunFile(h, link, PROGRAM, FileText(header, rows, ending), appId, key, aborts).err == CYRET_SUCCESS
       <==> forall r :: r in rows ==> Sound(r) && CutsCleanly(link.maxTransferSize, ROW_HEADER_SIZE, |r.data|)
  {
    hide FileText, RunFile, Seen, Serves, Identifies, ReportsData, CutsCleanly, Sound, ActsOf, Confirms;
    var kind, acts := ChecksumKind(header.checksumType), Beginning(h, header, key);
    if RunFile(h, link, PROGRAM, FileText(header, rows, ending), appId, key, aborts).err == CYRET_SUCCESS {
      var first, last := WrittenFileSession(h, link, PROGRAM, header, rows, ending, appId, key, aborts);
      assert AllCut(link, rows);
      SuccessIsSound(h, link, header, rows, ending, appId, key, aborts);
    }
    if forall r :: r in rows ==> Sound(r) && CutsCleanly(link.maxTransferSize, ROW_HEADER_SIZE, |r.data|) {
      forall i | 0 <= i < |rows| ensures Confirms(link, kind, acts + ActsOf(PROGRAM, rows[..i]), rows[i]) {
        SoundConfirms(link, kind, acts + ActsOf(PROGRAM, rows[..i]), rows[i]);
      }
      SessionEnds(h, link, header, rows, ending, appId, key, aborts);
      assert AllCut(link, rows);
    }
  }

  lemma SuccessIsSound(h: Host, link: Link, header: Header, rows: seq<Row>, ending: Text, appId: Byte, key: seq<Byte>,
                       aborts: nat -> bool)
    requires Usable(link) && Seen(h.history).pending == [] && AppOf(appId) == INVALID_APP
    requires header.siliconId < 0x1_0000_0000 && IsEnding(ending) && forall r :: r in rows ==> Printable(r)
    requires ReportsData(link, ChecksumKind(header.checksumType))
    requires RunFile(h, link, PROGRAM, FileText(header, rows, ending), appId, key, aborts).err == CYRET_SUCCESS
    ensures forall r :: r in rows ==> Sound(r)
  {
    hide FileText, HeaderText, NextLine, ParseHeader, RunRows, Start, Conclude, End, HasCommBit, Seen, ReportsData;
    hide Sound, RowTexts;
    var kind := ChecksumKind(header.checksumType);
    FileBack(header, rows, ending);
    HeaderTextWritable(header);
    HeaderRoundTrip(header);
    RowTextsBack(rows);
    var h1, rest := h.(checksum := kind), NextLine(File(FileText(header, rows, ending), false)).rest;
    var started := Start(h1, link, header, key);
    StartKind(h1, link, header, key);
    SeeStart(h1, link, header, key);
    RowsAreSound(started.host, link, kind, rest, aborts, 0);
  }

  lemma StartKind(h: Host, link: Link, header: Header, key: seq<Byte>)
    ensures Start(h, link, header, key).host.checksum == h.checksum
  {
    hide FrameOf, EnterErr, ReplyErr;
  }

  // ---------- Such a device ----------

  function HeldData(history: seq<Event>): Byte
  {
    var act := LastAct(history);
    if act.Programmed? then Complement(act.data) else 0
  }

  /** One device for all files with the same header. */
  function DataDevice(size: nat, header: Header): Link
  {
    ModelDevice(size, header, HeldData)
  }

  lemma DataDeviceReports(size: nat, header: Header, kind: ChecksumType)
    ensures ReportsData(DataDevice(size, header), kind)
  {
    hide AnswerTo, ModelDevice, LastAct, Complement, RowId;
    forall history: seq<Event>, arrayId: Byte, rowNum: nat, data: seq<Byte> |
      LastAct(history) == Programmed(arrayId, rowNum, data)
      ensures AnswerTo(DataDevice(size, header), kind, history, CMD_GET_ROW_CHECKSUM, RowId(arrayId, rowNum)).buf[4]
           == Complement(data)
    {
      ModelReports(size, header, HeldData, kind, history, Row(arrayId, rowNum, data, 0));
    }
  }

  /** For every transfer size and header there is one device that tells the sound files from the others. */
  lemma DataDeviceDecides(h: Host, size: nat, header: Header, rows: seq<Row>, ending: Text, appId: Byte, key: seq<Byte>,
                          aborts: nat -> bool)
    requires ROW_HEADER_SIZE <= size <= MAX_COMMAND_SIZE
    requires Seen(h.history).pending == [] && AppOf(appId) == INVALID_APP && forall k :: !aborts(k)
    requires header.siliconId < 0x1_0000_0000 && IsEnding(ending) && forall r :: r in rows ==> Printable(r)
    ensures Usable(DataDevice(size, header))
    ensures RunFile(h, DataDevice(size, header), PROGRAM, FileText(header, rows, ending), appId, key, aborts).err
         == CYRET_SUCCESS
       <==> forall r :: r in rows ==> Sound(r) && CutsCleanly(size, ROW_HEADER_SIZE, |r.data|)
  {
    hide FileText, RunFile, Seen, Serves, Identifies, ReportsData, CutsCleanly, Sound;
    var kind := ChecksumKind(header.checksumType);
    ModelServes(size, header, HeldData, kind, rows);
    ModelIdentifies(size, header, HeldData, kind);
    DataDeviceReports(size, header, kind);
    SoundFileIff(h, DataDevice(size, header), header, rows, ending, appId, key, aborts);
  }
}
