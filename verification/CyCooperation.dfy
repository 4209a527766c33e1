/**
  When success is possible.  For every file there is a device against which it is programmed successfully
  exactly if its rows can be cut up.  A device that reports of a row only what it has been given does as well,
  and exists for every file that does not contradict itself.
 */
module CyCooperation {
  import opened Bytes
  import opened Hex
  import opened CyErrors
  import opened CyParse
  import opened CyFile
  import opened CyChunks
  import opened CyFrames
  import opened CyHost
  import opened CyTrace
  import opened CyLog
  import opened CyWhole

  /** The device's answer to one command. */
  function AnswerTo(link: Link, kind: ChecksumType, history: seq<Event>, code: Byte, p: seq<Byte>): Reply
  {
    link.device(history, Exchange(FrameOf(kind, code, p)))
  }

  /** Every command is acknowledged with a well-formed reply. */
  ghost predicate Acknowledges(link: Link, kind: ChecksumType)
  {
    && (forall history: seq<Event> :: link.device(history, Open).err == CYRET_SUCCESS)
    && (forall history: seq<Event>, code: Byte, p: seq<Byte> ::
          ReplyErr(AnswerTo(link, kind, history, code, p), ReplySize(code)) == CYRET_SUCCESS)
  }

  /** The device is the one the header asks for, with a supported version, and calls its application valid. */
  ghost predicate Identifies(link: Link, kind: ChecksumType, header: Header)
  {
    forall history: seq<Event>, p: seq<Byte> ::
      && EnterErr(kind, AnswerTo(link, kind, history, CMD_ENTER_BOOTLOADER, p), header) == CYRET_SUCCESS
      && AnswerTo(link, kind, history, CMD_VERIFY_CHECKSUM, p).buf[4] != 0
  }

  /** All the rows lie in the range it reports for their arrays. */
  ghost predicate Holds(link: Link, kind: ChecksumType, row: Row)
  {
    forall history: seq<Event> ::
      RowErr(Geometry(AnswerTo(link, kind, history, CMD_GET_FLASH_SIZE, [row.arrayId])), row.rowNum) == CYRET_SUCCESS
  }

  /** Asked for the checksum of the row it has just programmed, it reports that of the file. */
  ghost predicate Remembers(link: Link, kind: ChecksumType, row: Row)
  {
    forall history: seq<Event> ::
      LastAct(history) == Programmed(row.arrayId, row.rowNum, row.data) ==>
        AnswerTo(link, kind, history, CMD_GET_ROW_CHECKSUM, RowId(row.arrayId, row.rowNum)).buf[4] == Adjusted(row)
  }

  function LastAct(history: seq<Event>): Act
  {
    var acts := Seen(history).acts;
    if acts == [] then Failed else acts[|acts| - 1]
  }

  /** Nothing is wrong with any command or any of the rows; what is reported of a row is another matter. */
  ghost predicate Serves(link: Link, kind: ChecksumType, rows: seq<Row>)
  {
    Acknowledges(link, kind) && forall row :: row in rows ==> Holds(link, kind, row)
  }

  ghost predicate Cooperates(link: Link, kind: ChecksumType, rows: seq<Row>)
  {
    Serves(link, kind, rows) && forall row :: row in rows ==> Remembers(link, kind, row)
  }

  /** Asked for the checksum of the row when it has been programmed right after `acts`, it reports that of the file. */
  ghost predicate Confirms(link: Link, kind: ChecksumType, acts: seq<Act>, row: Row)
  {
    forall history: seq<Event> ::
      Seen(history).acts == acts + [Programmed(row.arrayId, row.rowNum, row.data)] ==>
        AnswerTo(link, kind, history, CMD_GET_ROW_CHECKSUM, RowId(row.arrayId, row.rowNum)).buf[4] == Adjusted(row)
  }

  /** The same for all the rows `todo`, programmed and checked one after the other after `acts`. */
  ghost predicate ConfirmsAll(link: Link, kind: ChecksumType, acts: seq<Act>, todo: seq<Row>)
  {
    forall i :: 0 <= i < |todo| ==> Confirms(link, kind, acts + ActsOf(PROGRAM, todo[..i]), todo[i])
  }

  lemma ConfirmsFirst(link: Link, kind: ChecksumType, acts: seq<Act>, todo: seq<Row>)
    requires Usable(link) && ConfirmsAll(link, kind, acts, todo) && todo != []
    ensures Confirms(link, kind, acts, todo[0])
    ensures ConfirmsAll(link, kind, acts + RowActs(PROGRAM, todo[0]), todo[1..])
  {
    hide Confirms, RowActs;
    var rest := todo[1..];
    assert Confirms(link, kind, acts + ActsOf(PROGRAM, todo[..0]), todo[0]) && acts + ActsOf(PROGRAM, []) == acts;
    forall i | 0 <= i < |rest|
      ensures Confirms(link, kind, acts + RowActs(PROGRAM, todo[0]) + ActsOf(PROGRAM, rest[..i]), rest[i])
    {
      assert todo[..i + 1] == [todo[0]] + rest[..i];
      MoreActs(acts, [], link, PROGRAM, todo[0], rest[..i]);
      assert Confirms(link, kind, acts + ActsOf(PROGRAM, todo[..i + 1]), todo[i + 1]);
    }
  }

  /** What the host has in its table does not rule out any of the rows. */
  ghost predicate TableAllows(table: RowTable, rows: seq<Row>)
  {
    forall row :: row in rows && row.arrayId < MAX_FLASH_ARRAYS ==>
      table[row.arrayId] == NO_FLASH_ARRAY_DATA || RowErr(table[row.arrayId], row.rowNum) == CYRET_SUCCESS
  }

  ghost predicate Ready(h: Host, kind: ChecksumType, rows: seq<Row>)
  {
    h.checksum == kind && TableAllows(h.validRows, rows)
  }

  lemma CommandSucceeds(h: Host, link: Link, kind: ChecksumType, rows: seq<Row>, code: Byte, p: seq<Byte>)
    requires Acknowledges(link, kind) && Ready(h, kind, rows)
    ensures var r := Command(h, link, code, p, ReplySize(code)); r.err == CYRET_SUCCESS && Ready(r.host, kind, rows)
  {
    hide FrameOf, ReplyErr, TableAllows;
    assert ReplyErr(AnswerTo(link, kind, h.history, code, p), ReplySize(code)) == CYRET_SUCCESS;
  }

  lemma CheckSucceeds(h: Host, link: Link, kind: ChecksumType, rows: seq<Row>, row: Row)
    requires Serves(link, kind, rows) && Ready(h, kind, rows) && row in rows
    ensures var r := CheckRow(h, link, row.arrayId, row.rowNum); r.err == CYRET_SUCCESS && Ready(r.host, kind, rows)
  {
    hide FrameOf, ReplyErr, RowErr, Geometry;
    CommandSucceeds(h, link, kind, rows, CMD_GET_FLASH_SIZE, [row.arrayId]);
    var range := Geometry(AnswerTo(link, kind, h.history, CMD_GET_FLASH_SIZE, [row.arrayId]));
    forall other | other in rows && other.arrayId == row.arrayId
      ensures RowErr(range, other.rowNum) == CYRET_SUCCESS
    {
      assert Holds(link, kind, other);
    }
  }

  /** The data is sent ahead to its end, or past the end of the row. */
  lemma {:induction false} SendEnds(h: Host, link: Link, kind: ChecksumType, rows: seq<Row>, data: seq<Byte>,
                                    maxRemaining: nat, offset: nat)
    requires Acknowledges(link, kind) && Ready(h, kind, rows) && Usable(link) && offset <= |data|
    ensures var r := SendData(h, link, data, maxRemaining, offset);
            if FinalOffset(link.maxTransferSize, |data|, maxRemaining, offset) <= |data|
            then r.err == CYRET_SUCCESS && Ready(r.host, kind, rows)
            else r.err == UNDEFINED
    decreases |data| - offset
  {
    hide Command, Acknowledges, Ready;
    var next := offset + ChunkSize(link.maxTransferSize, |data|);
    if |data| - offset > maxRemaining && next <= |data| {
      CommandSucceeds(h, link, kind, rows, CMD_SEND_DATA, data[offset..next]);
      SendEnds(Command(h, link, CMD_SEND_DATA, data[offset..next], 0).host, link, kind, rows, data, maxRemaining, next);
    }
  }

  lemma ProgramEnds(h: Host, link: Link, kind: ChecksumType, rows: seq<Row>, row: Row)
    requires Serves(link, kind, rows) && Ready(h, kind, rows) && Usable(link) && row in rows
    ensures var r := ProgramRow(h, link, row.arrayId, row.rowNum, row.data);
            if CutsCleanly(link.maxTransferSize, ROW_HEADER_SIZE, |row.data|)
            then r.err == CYRET_SUCCESS && Ready(r.host, kind, rows)
            else r.err == UNDEFINED
  {
    hide Command, CheckRow, SendData, Acknowledges, Ready, Holds, Remembers, RowId, CutsCleanly;
    CheckSucceeds(h, link, kind, rows, row);
    var checked, limit := CheckRow(h, link, row.arrayId, row.rowNum).host, link.maxTransferSize - ROW_HEADER_SIZE;
    StopsInsideIff(link.maxTransferSize, ROW_HEADER_SIZE, |row.data|);
    SendEnds(checked, link, kind, rows, row.data, limit, 0);
    var sent := SendData(checked, link, row.data, limit, 0);
    if sent.err == CYRET_SUCCESS {
      CommandSucceeds(sent.host, link, kind, rows, CMD_PROGRAM_ROW,
        RowId(row.arrayId, row.rowNum) + row.data[sent.offset..]);
    }
  }

  lemma VerifySucceeds(h: Host, link: Link, kind: ChecksumType, rows: seq<Row>, acts: seq<Act>, row: Row)
    requires Serves(link, kind, rows) && Ready(h, kind, rows) && row in rows
    requires Confirms(link, kind, acts, row)
    requires Seen(h.history).acts == acts + [Programmed(row.arrayId, row.rowNum, row.data)]
    ensures var r := VerifyRow(h, link, row.arrayId, row.rowNum, Adjusted(row));
            r.err == CYRET_SUCCESS && Ready(r.host, kind, rows)
  {
    hide Command, CheckRow, Acknowledges, TableAllows, Holds, FrameOf, Seen, RowId, Adjusted;
    CheckSucceeds(h, link, kind, rows, row);
    var checked := CheckRow(h, link, row.arrayId, row.rowNum).host;
    SeeCheck(h, link, row.arrayId, row.rowNum);
    CommandSucceeds(checked, link, kind, rows, CMD_GET_ROW_CHECKSUM, RowId(row.arrayId, row.rowNum));
    assert AnswerTo(link, kind, checked.history, CMD_GET_ROW_CHECKSUM, RowId(row.arrayId, row.rowNum)).buf[4] ==
             Adjusted(row);
  }

  lemma LineEnds(h: Host, link: Link, kind: ChecksumType, rows: seq<Row>, line: Text)
    requires Serves(link, kind, rows) && Ready(h, kind, rows) && Usable(link) && Seen(h.history).pending == []
    requires ParseRow(line).RowOK? && ParseRow(line).row in rows && |line| < 2 * MAX_BUFFER_SIZE
    requires Confirms(link, kind, Seen(h.history).acts, ParseRow(line).row)
    ensures var r := ProcessDataRow(h, link, PROGRAM, line);
            if CanBeCut(link, line) then r.err == CYRET_SUCCESS && Ready(r.host, kind, rows) else r.err == UNDEFINED
  {
    hide ParseRow, Serves, Confirms, TableAllows, ProgramRow, VerifyRow, Seen, CutsCleanly, Adjusted;
    var row := ParseRow(line).row;
    ParsedFits(line);
    ProgramEnds(h, link, kind, rows, row);
    if CanBeCut(link, line) {
      SeeProgram(h, link, row.arrayId, row.rowNum, row.data);
      VerifySucceeds(ProgramRow(h, link, row.arrayId, row.rowNum, row.data).host, link, kind, rows,
                     Seen(h.history).acts, row);
    }
  }

  ghost predicate AllCanBeCut(link: Link, lines: seq<Text>)
    requires Usable(link)
  {
    forall l :: l in lines ==> CanBeCut(link, l)
  }

  lemma AllCanBeCutMore(link: Link, line: Text, lines: seq<Text>)
    requires Usable(link)
    ensures AllCanBeCut(link, [line] + lines) <==> CanBeCut(link, line) && AllCanBeCut(link, lines)
  {
    hide CanBeCut;
    var all := [line] + lines;
    assert line in all && forall l :: l in lines ==> l in all;
  }

  /** The loop gets to the end of the file, or to the first row that cannot be cut up. */
  lemma {:induction false} RowsEnd(h: Host, link: Link, kind: ChecksumType, rows: seq<Row>, f: File,
                                   aborts: nat -> bool, i: nat)
    requires Serves(link, kind, rows) && Ready(h, kind, rows) && Usable(link) && Seen(h.history).pending == []
    requires Lines(f).1 == CYRET_ERR_EOF && forall k :: !aborts(k)
    requires AllRows(Lines(f).0) && forall l :: l in Lines(f).0 ==> ParseRow(l).row in rows
    requires ConfirmsAll(link, kind, Seen(h.history).acts, RowsOf(Lines(f).0))
    ensures var r := RunRows(h, link, PROGRAM, f, aborts, i);
            if AllCanBeCut(link, Lines(f).0) then r.err == CYRET_SUCCESS && r.host.checksum == kind
            else r.err == UNDEFINED
    decreases |f.content|
  {
    hide ParseRow, Serves, TableAllows, ProcessDataRow, Seen, CanBeCut, NextLine, RowActs, AllCanBeCut, ConfirmsAll;
    if NextLine(f).Line? {
      var text, rest := NextLine(f).text, NextLine(f).rest;
      assert Lines(f).0 == [text] + Lines(rest).0 && Lines(f).0[1..] == Lines(rest).0;
      ConfirmsFirst(link, kind, Seen(h.history).acts, RowsOf(Lines(f).0));
      assert RowsOf(Lines(f).0)[1..] == RowsOf(Lines(rest).0);
      AllCanBeCutMore(link, text, Lines(rest).0);
      LineEnds(h, link, kind, rows, text);
      if CanBeCut(link, text) {
        SeeLine(h, link, PROGRAM, text);
        RowsEnd(ProcessDataRow(h, link, PROGRAM, text).host, link, kind, rows, rest, aborts, i + 1);
      }
    } else {
      NoneToCut(link);
    }
  }

  lemma NoneToCut(link: Link)
    requires Usable(link)
    ensures AllCanBeCut(link, [])
  {
  }

  lemma StartSucceeds(h: Host, link: Link, kind: ChecksumType, rows: seq<Row>, header: Header, key: seq<Byte>)
    requires Acknowledges(link, kind) && Identifies(link, kind, header) && h.checksum == kind
    ensures var r := Start(h, link, header, key); r.err == CYRET_SUCCESS && Ready(r.host, kind, rows)
  {
    hide FrameOf, ReplyErr, EnterErr;
    var entering := Entry(h, link);
    assert EnterErr(kind, AnswerTo(link, kind, entering.history, CMD_ENTER_BOOTLOADER, key), header) == CYRET_SUCCESS;
  }

  lemma ConclusionSucceeds(h: Host, link: Link, kind: ChecksumType, header: Header)
    requires Acknowledges(link, kind) && Identifies(link, kind, header) && h.checksum == kind
    ensures Conclude(h, link, PROGRAM, INVALID_APP).err == CYRET_SUCCESS
  {
    hide FrameOf, ReplyErr, EnterErr;
    CommandSucceeds(h, link, kind, [], CMD_VERIFY_CHECKSUM, []);
    assert AnswerTo(link, kind, h.history, CMD_VERIFY_CHECKSUM, []).buf[4] != 0;
  }

  /** What a session has done before the first row. */
  function Beginning(h: Host, header: Header, key: seq<Byte>): seq<Act>
  {
    Seen(h.history).acts + EntryActs(header, key)
  }

  /**
    A written file, for a single application, against a device that serves and confirms its rows in their order:
    if all rows can be cut up it is programmed successfully, and if one cannot the host ends up past its end.
   */
  lemma SessionEnds(h: Host, link: Link, header: Header, rows: seq<Row>, ending: Text, appId: Byte, key: seq<Byte>,
                    aborts: nat -> bool)
    requires Usable(link) && Seen(h.history).pending == [] && AppOf(appId) == INVALID_APP && forall k :: !aborts(k)
    requires header.siliconId < 0x1_0000_0000 && IsEnding(ending) && forall r :: r in rows ==> Printable(r)
    requires Serves(link, ChecksumKind(header.checksumType), rows)
    requires Identifies(link, ChecksumKind(header.checksumType), header)
    requires ConfirmsAll(link, ChecksumKind(header.checksumType), Beginning(h, header, key), rows)
    ensures RunFile(h, link, PROGRAM, FileText(header, rows, ending), appId, key, aborts).err
         == if AllCut(link, rows) then CYRET_SUCCESS else UNDEFINED
  {
    hide FileText, HeaderText, NextLine, ParseHeader, ParseRow, RunRows, Start, Conclude, End, HasCommBit, Seen;
    hide Acknowledges, Identifies, Holds, ConfirmsAll, TableAllows, AllCanBeCut, AllCut, RowTexts, Lines;
    var kind := ChecksumKind(header.checksumType);
    FileBack(header, rows, ending);
    HeaderTextWritable(header);
    HeaderRoundTrip(header);
    RowTextsBack(rows);
    TextsParse(rows);
    TextsCutIff(link, rows);
    var h1, rest := h.(checksum := kind), NextLine(File(FileText(header, rows, ending), false)).rest;
    StartSucceeds(h1, link, kind, rows, header, key);
    SeeStart(h1, link, header, key);
    var started := Start(h1, link, header, key).host;
    RowsEnd(started, link, kind, rows, rest, aborts, 0);
    if AllCut(link, rows) {
      ConclusionSucceeds(RunRows(started, link, PROGRAM, rest, aborts, 0).host, link, kind, header);
    }
  }

  lemma RemembersConfirms(link: Link, kind: ChecksumType, acts: seq<Act>, row: Row)
    requires Remembers(link, kind, row)
    ensures Confirms(link, kind, acts, row)
  {
    hide AnswerTo, Seen, RowId, Adjusted;
  }

  /** So it goes against every device that cooperates. */
  lemma CooperationIff(h: Host, link: Link, header: Header, rows: seq<Row>, ending: Text, appId: Byte, key: seq<Byte>,
                       aborts: nat -> bool)
    requires Usable(link) && Seen(h.history).pending == [] && AppOf(appId) == INVALID_APP && forall k :: !aborts(k)
    requires header.siliconId < 0x1_0000_0000 && IsEnding(ending) && forall r :: r in rows ==> Printable(r)
    requires Cooperates(link, ChecksumKind(header.checksumType), rows) &&
             Identifies(link, ChecksumKind(header.checksumType), header)
    ensures RunFile(h, link, PROGRAM, FileText(header, rows, ending), appId, key, aborts).err
         == if AllCut(link, rows) then CYRET_SUCCESS else UNDEFINED
  {
    hide FileText, RunFile, Seen, Serves, Identifies, Remembers, Confirms, AllCut, ActsOf;
    var kind, acts := ChecksumKind(header.checksumType), Beginning(h, header, key);
    forall i | 0 <= i < |rows| ensures Confirms(link, kind, acts + ActsOf(PROGRAM, rows[..i]), rows[i]) {
      RemembersConfirms(link, kind, acts + ActsOf(PROGRAM, rows[..i]), rows[i]);
    }
    SessionEnds(h, link, header, rows, ending, appId, key, aborts);
  }

  lemma {:induction false} TextsParse(rows: seq<Row>)
    requires forall r :: r in rows ==> Printable(r)
    ensures forall l :: l in RowTexts(rows) ==> ParseRow(l).RowOK? && ParseRow(l).row in rows
  {
    hide ParseRow, RowText;
    if rows != [] {
      assert rows[0] in rows;
      RowRoundTrip(rows[0]);
      TextsParse(rows[1..]);
    }
  }

  lemma {:induction false} TextsCutIff(link: Link, rows: seq<Row>)
    requires Usable(link) && forall r :: r in rows ==> Printable(r)
    ensures AllCanBeCut(link, RowTexts(rows)) <==> AllCut(link, rows)
  {
    hide ParseRow, RowText, CutsCleanly, AllCanBeCut;
    if rows == [] {
      NoneToCut(link);
    } else {
      assert rows[0] in rows;
      RowRoundTrip(rows[0]);
      AllCanBeCutMore(link, RowText(rows[0]), RowTexts(rows[1..]));
      TextsCutIff(link, rows[1..]);
      assert rows == [rows[0]] + rows[1..];
    }
  }

  // ---------- A device that cooperates ----------

  /** Rows for the same place with the same data have the same checksum. */
  ghost predicate Consistent(rows: seq<Row>)
  {
    forall r, s | r in rows && s in rows && r.arrayId == s.arrayId && r.rowNum == s.rowNum && r.data == s.data :: r == s
  }

  /** What to report of the row last programmed: what the file says of a row with its place and data. */
  function Reported(rows: seq<Row>, act: Act): Byte
  {
    if rows == [] then 0
    else if act == Programmed(rows[0].arrayId, rows[0].rowNum, rows[0].data) then Adjusted(rows[0])
    else Reported(rows[1..], act)
  }

  /** The data of the replies: the device the header asks for, with rows 0 to 0xFFFF in every array. */
  function DataFor(header: Header, checksum: Byte, code: Byte): (r: seq<Byte>)
    ensures |r| == ReplySize(code)
  {
    if code == CMD_ENTER_BOOTLOADER then LittleEndian32(header.siliconId) + [header.siliconRev, 0, 0, 1]
    else if code == CMD_GET_FLASH_SIZE then [0, 0, 0xFF, 0xFF]
    else if code == CMD_GET_APP_STATUS then [0, 0]
    else if code == CMD_VERIFY_CHECKSUM then [1]
    else if code == CMD_GET_ROW_CHECKSUM then [checksum]
    else []
  }

  function ReplyWith(data: seq<Byte>): (r: Reply)
    requires |data| <= 8
    ensures r.buf[4..4 + |data|] == data
  {
    Answer(CYRET_SUCCESS, [CMD_START, 0, |data|, 0] + data + [0, 0, CMD_STOP] +
      seq(MAX_COMMAND_SIZE - 7 - |data|, _ => 0))
  }

  function ModelReply(header: Header, checksum: Byte, request: Request): Reply
  {
    if request.Exchange? && IsFrame(request.frame)
    then ReplyWith(DataFor(header, checksum, CodeOf(request.frame)))
    else ReplyWith([])
  }

  /** A device that reports `report` of what has happened when it is asked for a row's checksum. */
  function ModelDevice(size: nat, header: Header, report: seq<Event> -> Byte): Link
  {
    Link(size, (history, request) => ModelReply(header, report(history), request), true)
  }

  lemma ReplyAccepted(data: seq<Byte>)
    requires |data| <= 8
    ensures ReplyErr(ReplyWith(data), |data|) == CYRET_SUCCESS
  {
  }

  lemma ModelAnswers(size: nat, header: Header, report: seq<Event> -> Byte, kind: ChecksumType, history: seq<Event>,
                     code: Byte, p: seq<Byte>)
    ensures AnswerTo(ModelDevice(size, header, report), kind, history, code, p)
         == ReplyWith(DataFor(header, report(history), code))
  {
    hide FrameOf, ReplyWith, DataFor;
    FrameParts(kind, code, p);
  }

  lemma ModelAcknowledges(size: nat, header: Header, report: seq<Event> -> Byte, kind: ChecksumType)
    ensures Acknowledges(ModelDevice(size, header, report), kind)
  {
    hide AnswerTo, ReplyErr, DataFor, ReplySize;
    var link := ModelDevice(size, header, report);
    forall history: seq<Event> ensures link.device(history, Open).err == CYRET_SUCCESS {
      assert ModelReply(header, report(history), Open) == ReplyWith([]);
    }
    forall history: seq<Event>, code: Byte, p: seq<Byte>
      ensures ReplyErr(AnswerTo(link, kind, history, code, p), ReplySize(code)) == CYRET_SUCCESS
    {
      ModelAnswers(size, header, report, kind, history, code, p);
      ReplyAccepted(DataFor(header, report(history), code));
    }
  }

  lemma ModelIdentifies(size: nat, header: Header, report: seq<Event> -> Byte, kind: ChecksumType)
    requires header.siliconId < 0x1_0000_0000
    ensures Identifies(ModelDevice(size, header, report), kind, header)
  {
    hide AnswerTo, EnterErr;
    var link := ModelDevice(size, header, report);
    forall history: seq<Event>, p: seq<Byte>
      ensures EnterErr(kind, AnswerTo(link, kind, history, CMD_ENTER_BOOTLOADER, p), header) == CYRET_SUCCESS
      ensures AnswerTo(link, kind, history, CMD_VERIFY_CHECKSUM, p).buf[4] != 0
    {
      ModelAnswers(size, header, report, kind, history, CMD_ENTER_BOOTLOADER, p);
      ModelEntered(kind, header);
      ModelAnswers(size, header, report, kind, history, CMD_VERIFY_CHECKSUM, p);
    }
  }

  lemma ModelEntered(kind: ChecksumType, header: Header)
    requires header.siliconId < 0x1_0000_0000
    ensures EnterErr(kind, ReplyWith(LittleEndian32(header.siliconId) + [header.siliconRev, 0, 0, 1]), header)
         == CYRET_SUCCESS
  {
    hide LittleEndian32, ReadLittleEndian32, ReplyErr;
    LittleEndianRead32(header.siliconId);
    var id := LittleEndian32(header.siliconId);
    var data := id + [header.siliconRev, 0, 0, 1];
    ReplyAccepted(data);
    var reply := ReplyWith(data);
    assert reply.buf[4..12] == data;
    assert reply.buf[4] == id[0] && reply.buf[5] == id[1] && reply.buf[6] == id[2] && reply.buf[7] == id[3];
    assert reply.buf[8] == data[4] && reply.buf[11] == data[7];
  }

  lemma ModelServes(size: nat, header: Header, report: seq<Event> -> Byte, kind: ChecksumType, rows: seq<Row>)
    requires forall row :: row in rows ==> row.rowNum < 0x1_0000
    ensures Serves(ModelDevice(size, header, report), kind, rows)
  {
    hide AnswerTo, Acknowledges;
    var link := ModelDevice(size, header, report);
    ModelAcknowledges(size, header, report, kind);
    forall row, history: seq<Event> | row in rows
      ensures RowErr(Geometry(AnswerTo(link, kind, history, CMD_GET_FLASH_SIZE, [row.arrayId])), row.rowNum)
           == CYRET_SUCCESS
    {
      ModelAnswers(size, header, report, kind, history, CMD_GET_FLASH_SIZE, [row.arrayId]);
    }
  }

  lemma ModelReports(size: nat, header: Header, report: seq<Event> -> Byte, kind: ChecksumType, history: seq<Event>,
                     row: Row)
    ensures AnswerTo(ModelDevice(size, header, report), kind, history, CMD_GET_ROW_CHECKSUM,
                     RowId(row.arrayId, row.rowNum)).buf[4] == report(history)
  {
    hide AnswerTo, RowId;
    ModelAnswers(size, header, report, kind, history, CMD_GET_ROW_CHECKSUM, RowId(row.arrayId, row.rowNum));
  }

  /** It reports what the file says of a row with the place and data of the last one programmed. */
  function FaithfulDevice(size: nat, header: Header, rows: seq<Row>): Link
  {
    ModelDevice(size, header, history => Reported(rows, LastAct(history)))
  }

  lemma {:induction false} ReportedRow(all: seq<Row>, rows: seq<Row>, row: Row)
    requires Consistent(all) && row in rows && row in all && forall r :: r in rows ==> r in all
    ensures Reported(rows, Programmed(row.arrayId, row.rowNum, row.data)) == Adjusted(row)
    decreases |rows|
  {
    hide Adjusted;
    if rows[0] != row {
      assert rows[0] in all;
      ReportedRow(all, rows[1..], row);
    }
  }

  lemma FaithfulRemembers(size: nat, header: Header, rows: seq<Row>, kind: ChecksumType, row: Row)
    requires Consistent(rows) && row in rows
    ensures Remembers(FaithfulDevice(size, header, rows), kind, row)
  {
    hide AnswerTo, LastAct, Adjusted, RowId, Consistent, ModelDevice;
    var link := FaithfulDevice(size, header, rows);
    ReportedRow(rows, rows, row);
    forall history: seq<Event> | LastAct(history) == Programmed(row.arrayId, row.rowNum, row.data)
      ensures AnswerTo(link, kind, history, CMD_GET_ROW_CHECKSUM, RowId(row.arrayId, row.rowNum)).buf[4]
           == Adjusted(row)
    {
      ModelReports(size, header, h => Reported(rows, LastAct(h)), kind, history, row);
    }
  }

  /** An acknowledged PROGRAM_ROW is all that needs to have happened for a row to be remembered. */
  lemma OnceProgrammed(kind: ChecksumType, row: Row)
    requires row.rowNum < 0x1_0000
    ensures exists history :: LastAct(history) == Programmed(row.arrayId, row.rowNum, row.data)
  {
    hide FrameOf, RowId, ReplyErr;
    var p := RowId(row.arrayId, row.rowNum) + row.data;
    FrameParts(kind, CMD_PROGRAM_ROW, p);
    RowIdRead(row.arrayId, row.rowNum, row.data);
    ReplyAccepted([]);
    var e := Event(Exchange(FrameOf(kind, CMD_PROGRAM_ROW, p)), ReplyWith([]));
    assert [e][..0] == [] && [] + row.data == row.data;
    assert Seen([e]) == See(Seen([]), e);
    assert LastAct([e]) == Programmed(row.arrayId, row.rowNum, row.data);
  }

  lemma SameChecksum(link: Link, kind: ChecksumType, rows: seq<Row>, r: Row, s: Row)
    requires Cooperates(link, kind, rows) && r in rows && s in rows && r.rowNum < 0x1_0000
    requires r.arrayId == s.arrayId && r.rowNum == s.rowNum && r.data == s.data
    ensures r == s
  {
    hide AnswerTo, LastAct, RowId, Adjusted, Acknowledges, Holds;
    OnceProgrammed(kind, r);
    var history :| LastAct(history) == Programmed(r.arrayId, r.rowNum, r.data);
    assert Remembers(link, kind, r) && Remembers(link, kind, s);
    assert AnswerTo(link, kind, history, CMD_GET_ROW_CHECKSUM, RowId(r.arrayId, r.rowNum)).buf[4] == Adjusted(r);
    assert AnswerTo(link, kind, history, CMD_GET_ROW_CHECKSUM, RowId(s.arrayId, s.rowNum)).buf[4] == Adjusted(s);
    SameAdjusted(r, s);
  }

  lemma SameAdjusted(r: Row, s: Row)
    requires r.arrayId == s.arrayId && r.rowNum == s.rowNum && r.data == s.data && Adjusted(r) == Adjusted(s)
    ensures r == s
  {
    var rest := r.arrayId + r.rowNum + r.rowNum / 256 + |r.data| + |r.data| / 256;
    assert Adjusted(r) == (r.checksum + rest) % 256 && Adjusted(s) == (s.checksum + rest) % 256;
    SameSummand(r.checksum, s.checksum, rest);
  }

  lemma SameSummand(a: Byte, b: Byte, rest: nat)
    requires (a + rest) % 256 == (b + rest) % 256
    ensures a == b
  {
  }

  /** There is a device that cooperates exactly if the file does not contradict itself. */
  lemma CooperationPossibleIff(size: nat, header: Header, rows: seq<Row>, kind: ChecksumType)
    requires header.siliconId < 0x1_0000_0000 && forall r :: r in rows ==> r.rowNum < 0x1_0000
    ensures (exists link: Link ::
               link.maxTransferSize == size && Cooperates(link, kind, rows) && Identifies(link, kind, header))
       <==> Consistent(rows)
  {
    hide Serves, Identifies, Remembers;
    if Consistent(rows) {
      var link := FaithfulDevice(size, header, rows);
      var report := history => Reported(rows, LastAct(history));
      ModelServes(size, header, report, kind, rows);
      ModelIdentifies(size, header, report, kind);
      forall row | row in rows ensures Remembers(link, kind, row) {
        FaithfulRemembers(size, header, rows, kind, row);
      }
      assert link.maxTransferSize == size && Cooperates(link, kind, rows) && Identifies(link, kind, header);
    }
    if link: Link :| link.maxTransferSize == size && Cooperates(link, kind, rows) && Identifies(link, kind, header) {
      forall r, s | r in rows && s in rows && r.arrayId == s.arrayId && r.rowNum == s.rowNum && r.data == s.data
        ensures r == s
      {
        SameChecksum(link, kind, rows, r, s);
      }
    }
  }

  // ---------- A device that goes by the order of the file ----------

  /** How many rows have been checked since the device was opened. */
  function Checks(acts: seq<Act>): nat
  {
    if acts == [] then 0
    else
      var last := acts[|acts| - 1];
      if last.Opened? then 0 else Checks(acts[..|acts| - 1]) + if last.Checked? then 1 else 0
  }

  lemma ChecksOne(acts: seq<Act>, a: Act)
    ensures Checks(acts + [a]) == if a.Opened? then 0 else Checks(acts) + if a.Checked? then 1 else 0
  {
    assert (acts + [a])[..|acts|] == acts;
  }

  lemma {:induction false} ChecksRows(acts: seq<Act>, rows: seq<Row>)
    ensures Checks(acts + ActsOf(PROGRAM, rows)) == Checks(acts) + |rows|
    decreases |rows|
  {
    hide Adjusted;
    if rows == [] {
      assert acts + [] == acts;
    } else {
      var row := rows[0];
      var programmed := acts + [Programmed(row.arrayId, row.rowNum, row.data)];
      var checked := programmed + [Checked(row.arrayId, row.rowNum, Adjusted(row))];
      ChecksOne(acts, Programmed(row.arrayId, row.rowNum, row.data));
      ChecksOne(programmed, Checked(row.arrayId, row.rowNum, Adjusted(row)));
      ChecksRows(checked, rows[1..]);
      assert acts + ActsOf(PROGRAM, rows) == checked + ActsOf(PROGRAM, rows[1..]);
    }
  }

  /** It reports the checksums of the rows in their order, one for each time it is asked. */
  function InOrder(rows: seq<Row>, acts: seq<Act>): Byte
  {
    if Checks(acts) < |rows| then Adjusted(rows[Checks(acts)]) else 0
  }

  lemma InOrderConfirms(size: nat, header: Header, rows: seq<Row>, kind: ChecksumType, h: Host, key: seq<Byte>)
    ensures ConfirmsAll(ModelDevice(size, header, history => InOrder(rows, Seen(history).acts)), kind,
                        Beginning(h, header, key), rows)
  {
    hide AnswerTo, Seen, Adjusted, RowId, ModelDevice, ActsOf, Checks;
    var report := history => InOrder(rows, Seen(history).acts);
    var acts, entered := Seen(h.history).acts, Entered(key, header.siliconId, header.siliconRev, 1);
    ChecksOne(acts, Opened);
    ChecksOne(acts + [Opened], entered);
    assert acts + [Opened] + [entered] == Beginning(h, header, key);
    forall i, history: seq<Event> |
      0 <= i < |rows| &&
      Seen(history).acts == Beginning(h, header, key) + ActsOf(PROGRAM, rows[..i])
                            + [Programmed(rows[i].arrayId, rows[i].rowNum, rows[i].data)]
      ensures AnswerTo(ModelDevice(size, header, report), kind, history, CMD_GET_ROW_CHECKSUM,
                       RowId(rows[i].arrayId, rows[i].rowNum)).buf[4] == Adjusted(rows[i])
    {
      ChecksRows(Beginning(h, header, key), rows[..i]);
      ChecksOne(Beginning(h, header, key) + ActsOf(PROGRAM, rows[..i]),
                Programmed(rows[i].arrayId, rows[i].rowNum, rows[i].data));
      ModelReports(size, header, report, kind, history, rows[i]);
    }
  }

  /**
    For which files there is a device of a given transfer size against which they are programmed successfully:
    exactly for those whose rows can be cut up.
   */
  lemma SuccessPossibleIff(h: Host, size: nat, header: Header, rows: seq<Row>, ending: Text, appId: Byte,
                           key: seq<Byte>, aborts: nat -> bool)
    requires ROW_HEADER_SIZE <= size <= MAX_COMMAND_SIZE
    requires Seen(h.history).pending == [] && AppOf(appId) == INVALID_APP && forall k :: !aborts(k)
    requires header.siliconId < 0x1_0000_0000 && IsEnding(ending) && forall r :: r in rows ==> Printable(r)
    ensures (exists link: Link ::
               && Usable(link) && link.maxTransferSize == size
               && RunFile(h, link, PROGRAM, FileText(header, rows, ending), appId, key, aborts).err == CYRET_SUCCESS)
       <==> forall r :: r in rows ==> CutsCleanly(size, ROW_HEADER_SIZE, |r.data|)
  {
    hide FileText, RunFile, Seen, Serves, Identifies, ConfirmsAll, CutsCleanly;
    if link: Link :|
      && Usable(link) && link.maxTransferSize == size
      && RunFile(h, link, PROGRAM, FileText(header, rows, ending), appId, key, aborts).err == CYRET_SUCCESS
    {
      var first, last := WrittenFileSession(h, link, PROGRAM, header, rows, ending, appId, key, aborts);
      assert AllCut(link, rows);
    }
    var kind := ChecksumKind(header.checksumType);
    var report := history => InOrder(rows, Seen(history).acts);
    var device := ModelDevice(size, header, report);
    ModelServes(size, header, report, kind, rows);
    ModelIdentifies(size, header, report, kind);
    InOrderConfirms(size, header, rows, kind, h, key);
    SessionEnds(h, device, header, rows, ending, appId, key, aborts);
    assert Usable(device) && device.maxTransferSize == size;
  }
}
