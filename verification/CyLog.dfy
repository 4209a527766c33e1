/**
  What a successful session has done to the device, read off the frames on the wire and the replies to
  them, without looking at how the host came to send them.
 */
module CyLog {
  import opened Bytes
  import opened Hex
  import opened CyErrors
  import opened CyParse
  import opened CyFile
  import opened CyChunks
  import opened CyFrames
  import opened CyHost
  import opened CyTrace

  datatype Act =
    | Opened
    | Entered(key: seq<Byte>, siliconId: nat, siliconRev: Byte, version: Byte)
    | AppStatus(app: Byte, isValid: Byte, isActive: Byte)
    | Activated(app: Byte)
    | Programmed(arrayId: Byte, rowNum: nat, data: seq<Byte>)
    | Erased(arrayId: Byte, rowNum: nat)
    | Checked(arrayId: Byte, rowNum: nat, checksum: Byte)
    | AppChecked(valid: bool)
    | Stored(address: nat, crc: nat, data: seq<Byte>)
    | Compared(address: nat, crc: nat, data: seq<Byte>)
    | Wiped(address: nat)
    | Left
    | Closed
    | Other(code: Byte)
    | Refused(code: Byte, status: Byte)
    | Failed

  /** Row data received but not programmed yet, and what has been done. */
  datatype Device = Device(pending: seq<Byte>, acts: seq<Act>)

  /** The bytes of data in the reply to a command. */
  function ReplySize(code: Byte): (r: nat)
    ensures r <= 8
  {
    if code == CMD_ENTER_BOOTLOADER then 8
    else if code == CMD_GET_FLASH_SIZE then 4
    else if code == CMD_GET_APP_STATUS then 2
    else if code == CMD_GET_ROW_CHECKSUM || code == CMD_VERIFY_CHECKSUM then 1
    else 0
  }

  function Did(d: Device, act: Act): Device
  {
    d.(acts := d.acts + [act])
  }

  /** The commands for a whole address range of the newer file format. */
  function ObeyData(d: Device, code: Byte, p: seq<Byte>): Device
  {
    if |p| < 4 then Did(d, Other(code))
    else
      var address := ReadLittleEndian32(p[0], p[1], p[2], p[3]);
      if code == CMD_ERASE_DATA then Did(d, Wiped(address))
      else if |p| < 8 then Did(d, Other(code))
      else
        var crc := ReadLittleEndian32(p[4], p[5], p[6], p[7]);
        var data := d.pending + p[8..];
        var act := if code == CMD_PROGRAM_DATA then Stored(address, crc, data) else Compared(address, crc, data);
        Device([], d.acts + [act])
  }

  /** An acknowledged command as the device carries it out. */
  function Obey(d: Device, code: Byte, p: seq<Byte>, reply: Reply): Device
  {
    if code == CMD_SEND_DATA then d.(pending := d.pending + p)
    else if code == CMD_GET_FLASH_SIZE then d
    else if code == CMD_ENTER_BOOTLOADER then Did(d, Entered(p, SiliconId(reply), reply.buf[8], reply.buf[11]))
    else if code == CMD_VERIFY_CHECKSUM then Did(d, AppChecked(reply.buf[4] != 0))
    else if code in {CMD_PROGRAM_DATA, CMD_VERIFY_DATA, CMD_ERASE_DATA} then ObeyData(d, code, p)
    else if code == CMD_GET_APP_STATUS && |p| == 1 then Did(d, AppStatus(p[0], reply.buf[4], reply.buf[5]))
    else if code == CMD_SET_ACTIVE_APP && |p| == 1 then Did(d, Activated(p[0]))
    else if |p| < 3 then Did(d, Other(code))
    else
      var rowNum := ReadLittleEndian(p[1], p[2]);
      if code == CMD_PROGRAM_ROW then Device([], d.acts + [Programmed(p[0], rowNum, d.pending + p[3..])])
      else if code == CMD_ERASE_ROW then Did(d, Erased(p[0], rowNum))
      else if code == CMD_GET_ROW_CHECKSUM then Did(d, Checked(p[0], rowNum, reply.buf[4]))
      else Did(d, Other(code))
  }

  function See(d: Device, e: Event): Device
  {
    match e.request
    case Open => Did(d, if e.reply.err == CYRET_SUCCESS then Opened else Failed)
    case Write(_) => Did(d, Left)
    case Close => Did(d, Closed)
    case Exchange(frame) =>
      if !IsFrame(frame) || e.reply.err != CYRET_SUCCESS then Did(d, Failed)
      else if e.reply.buf[1] != 0 then Did(d, Refused(CodeOf(frame), e.reply.buf[1]))
      else if ReplyErr(e.reply, ReplySize(CodeOf(frame))) != CYRET_SUCCESS then Did(d, Failed)
      else Obey(d, CodeOf(frame), PayloadOf(frame), e.reply)
  }

  /** The device after everything on the wire so far. */
  function Seen(history: seq<Event>): Device
  {
    if history == [] then Device([], [])
    else See(Seen(history[..|history| - 1]), history[|history| - 1])
  }

  lemma SeeOne(h: Host, link: Link, request: Request)
    ensures Seen(Ask(h, link, request).history) == See(Seen(h.history), Event(request, ReplyTo(h, link, request)))
  {
    assert Ask(h, link, request).history[..|h.history|] == h.history;
  }

  /** A command the device has acknowledged. */
  lemma SeeCommand(h: Host, link: Link, code: Byte, p: seq<Byte>)
    requires Command(h, link, code, p, ReplySize(code)).err == CYRET_SUCCESS
    ensures Seen(Command(h, link, code, p, ReplySize(code)).host.history)
         == Obey(Seen(h.history), code, p, ReplyTo(h, link, CommandOf(h, code, p)))
  {
    hide FrameOf, ReplyOK, Seen, Obey;
    FrameParts(h.checksum, code, p);
    SeeOne(h, link, CommandOf(h, code, p));
  }

  lemma RowIdRead(arrayId: Byte, rowNum: nat, rest: seq<Byte>)
    requires rowNum < 0x1_0000
    ensures var p := RowId(arrayId, rowNum) + rest;
            |p| >= 3 && p[0] == arrayId && ReadLittleEndian(p[1], p[2]) == rowNum && p[3..] == rest
  {
    LittleEndianRead(rowNum);
  }

  /** Asking for the flash size does nothing to the device. */
  lemma SeeCheck(h: Host, link: Link, arrayId: Byte, rowNum: nat)
    requires CheckRow(h, link, arrayId, rowNum).err == CYRET_SUCCESS
    ensures Seen(CheckRow(h, link, arrayId, rowNum).host.history) == Seen(h.history)
  {
    hide Command, Seen, Geometry, RowErr;
    if arrayId < MAX_FLASH_ARRAYS && !(link.caching && h.validRows[arrayId] != NO_FLASH_ARRAY_DATA) {
      SeeCommand(h, link, CMD_GET_FLASH_SIZE, [arrayId]);
    }
  }

  /** The data sent ahead is waiting in the device; on success the row was cut up cleanly. */
  lemma {:induction false} SeeSent(h: Host, link: Link, data: seq<Byte>, maxRemaining: nat, offset: nat)
    requires Usable(link) && offset <= |data|
    requires SendData(h, link, data, maxRemaining, offset).err == CYRET_SUCCESS
    ensures var r := SendData(h, link, data, maxRemaining, offset);
            && r.offset == FinalOffset(link.maxTransferSize, |data|, maxRemaining, offset)
            && offset <= r.offset <= |data|
            && Seen(r.host.history) == Seen(h.history).(pending := Seen(h.history).pending + data[offset..r.offset])
    decreases |data| - offset
  {
    hide Command, Seen;
    var d := Seen(h.history);
    if |data| - offset <= maxRemaining {
      assert data[offset..offset] == [] && d.pending + [] == d.pending;
    } else {
      var next := offset + ChunkSize(link.maxTransferSize, |data|);
      var sent := Command(h, link, CMD_SEND_DATA, data[offset..next], 0);
      SeeCommand(h, link, CMD_SEND_DATA, data[offset..next]);
      SeeSent(sent.host, link, data, maxRemaining, next);
      var end := SendData(h, link, data, maxRemaining, offset).offset;
      assert data[offset..next] + data[next..end] == data[offset..end];
      assert (d.pending + data[offset..next]) + data[next..end] == d.pending + (data[offset..next] + data[next..end]);
    }
  }

  /** A row that is programmed reaches the device whole, and could be cut up cleanly. */
  lemma SeeProgram(h: Host, link: Link, arrayId: Byte, rowNum: nat, data: seq<Byte>)
    requires Usable(link) && rowNum < 0x1_0000 && Seen(h.history).pending == []
    requires ProgramRow(h, link, arrayId, rowNum, data).err == CYRET_SUCCESS
    ensures Seen(ProgramRow(h, link, arrayId, rowNum, data).host.history)
         == Did(Seen(h.history), Programmed(arrayId, rowNum, data))
    ensures CutsCleanly(link.maxTransferSize, ROW_HEADER_SIZE, |data|)
  {
    hide Command, Seen, CheckRow, SendData;
    var checked := CheckRow(h, link, arrayId, rowNum);
    SeeCheck(h, link, arrayId, rowNum);
    var limit := link.maxTransferSize - ROW_HEADER_SIZE;
    var sent := SendData(checked.host, link, data, limit, 0);
    SeeSent(checked.host, link, data, limit, 0);
    StopsInsideIff(link.maxTransferSize, ROW_HEADER_SIZE, |data|);
    SeeCommand(sent.host, link, CMD_PROGRAM_ROW, RowId(arrayId, rowNum) + data[sent.offset..]);
    RowIdRead(arrayId, rowNum, data[sent.offset..]);
    assert [] + data[0..sent.offset] + data[sent.offset..] == data;
  }

  lemma SeeVerify(h: Host, link: Link, arrayId: Byte, rowNum: nat, checksum: Byte)
    requires rowNum < 0x1_0000
    requires VerifyRow(h, link, arrayId, rowNum, checksum).err == CYRET_SUCCESS
    ensures Seen(VerifyRow(h, link, arrayId, rowNum, checksum).host.history)
         == Did(Seen(h.history), Checked(arrayId, rowNum, checksum))
  {
    hide Command, Seen, CheckRow, RowId;
    SeeCheck(h, link, arrayId, rowNum);
    var checked := CheckRow(h, link, arrayId, rowNum);
    SeeCommand(checked.host, link, CMD_GET_ROW_CHECKSUM, RowId(arrayId, rowNum));
    RowIdRead(arrayId, rowNum, []);
    assert RowId(arrayId, rowNum) + [] == RowId(arrayId, rowNum);
  }

  lemma SeeErase(h: Host, link: Link, arrayId: Byte, rowNum: nat)
    requires rowNum < 0x1_0000
    requires EraseRow(h, link, arrayId, rowNum).err == CYRET_SUCCESS
    ensures Seen(EraseRow(h, link, arrayId, rowNum).host.history) == Did(Seen(h.history), Erased(arrayId, rowNum))
  {
    hide Command, Seen, CheckRow, RowId;
    SeeCheck(h, link, arrayId, rowNum);
    var checked := CheckRow(h, link, arrayId, rowNum);
    SeeCommand(checked.host, link, CMD_ERASE_ROW, RowId(arrayId, rowNum));
    RowIdRead(arrayId, rowNum, []);
    assert RowId(arrayId, rowNum) + [] == RowId(arrayId, rowNum);
  }

  // ---------- Rows and files ----------

  /** What an action does with one row of the file. */
  function RowActs(action: Action, row: Row): seq<Act>
  {
    match action
    case ERASE => [Erased(row.arrayId, row.rowNum)]
    case PROGRAM => [Programmed(row.arrayId, row.rowNum, row.data), Checked(row.arrayId, row.rowNum, Adjusted(row))]
    case VERIFY => [Checked(row.arrayId, row.rowNum, Adjusted(row))]
  }

  lemma SeeRow(h: Host, link: Link, action: Action, row: Row)
    requires Usable(link) && RowFits(row) && Seen(h.history).pending == []
    requires ActOn(h, link, action, row).err == CYRET_SUCCESS
    ensures Seen(ActOn(h, link, action, row).host.history) == Device([], Seen(h.history).acts + RowActs(action, row))
    ensures action == PROGRAM ==> CutsCleanly(link.maxTransferSize, ROW_HEADER_SIZE, |row.data|)
  {
    hide Seen, EraseRow, VerifyRow, ProgramRow, CutsCleanly, Adjusted;
    match action
    case ERASE =>
      SeeErase(h, link, row.arrayId, row.rowNum);
    case PROGRAM =>
      SeeProgram(h, link, row.arrayId, row.rowNum, row.data);
      SeeVerify(ProgramRow(h, link, row.arrayId, row.rowNum, row.data).host, link, row.arrayId, row.rowNum,
        Adjusted(row));
    case VERIFY =>
      SeeVerify(h, link, row.arrayId, row.rowNum, Adjusted(row));
  }

  predicate AllRows(lines: seq<Text>)
  {
    forall l :: l in lines ==> ParseRow(l).RowOK?
  }

  function RowsOf(lines: seq<Text>): seq<Row>
    requires AllRows(lines)
  {
    if lines == [] then [] else [ParseRow(lines[0]).row] + RowsOf(lines[1..])
  }

  function ActsOf(action: Action, rows: seq<Row>): seq<Act>
  {
    if rows == [] then [] else RowActs(action, rows[0]) + ActsOf(action, rows[1..])
  }

  function Ids(rows: seq<Row>): seq<(Byte, nat)>
  {
    if rows == [] then [] else [(rows[0].arrayId, rows[0].rowNum)] + Ids(rows[1..])
  }

  ghost predicate AllCut(link: Link, rows: seq<Row>)
    requires Usable(link)
  {
    forall r :: r in rows ==> CutsCleanly(link.maxTransferSize, ROW_HEADER_SIZE, |r.data|)
  }

  /** One line that is processed successfully. */
  lemma SeeLine(h: Host, link: Link, action: Action, line: Text)
    requires Usable(link) && Seen(h.history).pending == [] && |line| < 2 * MAX_BUFFER_SIZE
    requires ProcessDataRow(h, link, action, line).err == CYRET_SUCCESS
    ensures ParseRow(line).RowOK?
    ensures var r, row := ProcessDataRow(h, link, action, line).host, ParseRow(line).row;
            && Seen(r.history) == Device([], Seen(h.history).acts + RowActs(action, row))
            && r.progress == h.progress + [(row.arrayId, row.rowNum)]
            && (action == PROGRAM ==> CutsCleanly(link.maxTransferSize, ROW_HEADER_SIZE, |row.data|))
  {
    hide Seen, ParseRow, ActOn, RowActs, CutsCleanly;
    ParsedFails(line);
    ParsedFits(line);
    SeeRow(h, link, action, ParseRow(line).row);
    ActProgress(h, link, action, ParseRow(line).row);
  }

  lemma ParsedFails(line: Text)
    ensures ParseRow(line).RowError? ==> ParseRow(line).err != CYRET_SUCCESS
  {
  }

  lemma {:induction false} SendProgress(h: Host, link: Link, data: seq<Byte>, maxRemaining: nat, offset: nat)
    requires Usable(link) && offset <= |data|
    ensures var r := SendData(h, link, data, maxRemaining, offset).host;
            r.progress == h.progress && r.checksum == h.checksum
    decreases |data| - offset
  {
    hide FrameOf, ReplyErr;
    var n := ChunkSize(link.maxTransferSize, |data|);
    if |data| - offset > maxRemaining && offset + n <= |data| {
      SendProgress(Command(h, link, CMD_SEND_DATA, data[offset..offset + n], 0).host, link, data, maxRemaining,
        offset + n);
    }
  }

  lemma ActProgress(h: Host, link: Link, action: Action, row: Row)
    requires Usable(link)
    ensures ActOn(h, link, action, row).host.progress == h.progress
    ensures ActOn(h, link, action, row).host.checksum == h.checksum
    ensures ProgramRow(h, link, row.arrayId, row.rowNum, row.data).host.checksum == h.checksum
  {
    hide FrameOf, ReplyErr, SendData;
    SendProgress(CheckRow(h, link, row.arrayId, row.rowNum).host, link, row.data,
      link.maxTransferSize - ROW_HEADER_SIZE, 0);
  }

  /** The loop over the lines, from any point in the file. */
  lemma {:induction false} SeeRows(h: Host, link: Link, action: Action, f: File, aborts: nat -> bool, i: nat)
    requires Usable(link) && Seen(h.history).pending == []
    requires RunRows(h, link, action, f, aborts, i).err == CYRET_SUCCESS
    ensures Lines(f).1 == CYRET_ERR_EOF && AllRows(Lines(f).0)
    ensures var r, rows := RunRows(h, link, action, f, aborts, i).host, RowsOf(Lines(f).0);
            && Seen(r.history) == Device([], Seen(h.history).acts + ActsOf(action, rows))
            && r.progress == h.progress + Ids(rows)
            && (action == PROGRAM ==> AllCut(link, rows))
    decreases |f.content|
  {
    hide Seen, ParseRow, NextLine, ActsOf, Ids, AllCut, ProcessDataRow, RowsOf, RowActs, CutsCleanly;
    if NextLine(f).Line? {
      var text, rest := NextLine(f).text, NextLine(f).rest;
      SeeLine(h, link, action, text);
      var done := ProcessDataRow(h, link, action, text).host;
      SeeRows(done, link, action, rest, aborts, i + 1);
      assert Lines(f).0 == [text] + Lines(rest).0;
      MoreRows(text, Lines(rest).0);
      var row, later := ParseRow(text).row, RowsOf(Lines(rest).0);
      MoreActs(Seen(h.history).acts, h.progress, link, action, row, later);
    } else {
      NoRows(link, action);
      assert Seen(h.history).acts + [] == Seen(h.history).acts;
      assert h.progress + [] == h.progress;
    }
  }

  lemma MoreRows(line: Text, lines: seq<Text>)
    requires ParseRow(line).RowOK? && AllRows(lines)
    ensures AllRows([line] + lines) && RowsOf([line] + lines) == [ParseRow(line).row] + RowsOf(lines)
  {
    hide ParseRow;
    assert ([line] + lines)[1..] == lines;
  }

  lemma NoRows(link: Link, action: Action)
    requires Usable(link)
    ensures RowsOf([]) == [] && ActsOf(action, []) == [] && Ids([]) == [] && AllCut(link, [])
  {
  }

  lemma MoreActs(acts: seq<Act>, progress: seq<(Byte, nat)>, link: Link, action: Action, row: Row, later: seq<Row>)
    requires Usable(link)
    ensures acts + ActsOf(action, [row] + later) == acts + RowActs(action, row) + ActsOf(action, later)
    ensures progress + Ids([row] + later) == progress + [(row.arrayId, row.rowNum)] + Ids(later)
    ensures AllCut(link, [row] + later)
       <==> CutsCleanly(link.maxTransferSize, ROW_HEADER_SIZE, |row.data|) && AllCut(link, later)
  {
    hide RowActs, CutsCleanly;
    var all := [row] + later;
    assert all[1..] == later && row in all && forall r :: r in later ==> r in all;
  }

  // ---------- The session ----------

  lemma SeeStart(h: Host, link: Link, header: Header, key: seq<Byte>)
    requires Start(h, link, header, key).err == CYRET_SUCCESS
    ensures Seen(Start(h, link, header, key).host.history)
         == Seen(h.history).(acts := Seen(h.history).acts + EntryActs(header, key))
    ensures Start(h, link, header, key).host.progress == h.progress
  {
    hide Seen, FrameOf, ReplyErr, TryParseStatus;
    var entering := Entry(h, link);
    SeeOne(h.(validRows := NothingKnown()), link, Open);
    SeeCommand(entering, link, CMD_ENTER_BOOTLOADER, key);
  }

  /** Opened and entered, with the key given, the header's silicon id and revision and a supported version. */
  function EntryActs(header: Header, key: seq<Byte>): seq<Act>
  {
    [Opened, Entered(key, header.siliconId, header.siliconRev, 1)]
  }

  /** A request for the state of an application that succeeds, or that the device does not know. */
  lemma SeeAppStatus(h: Host, link: Link, app: Byte)
    ensures var r, reply := GetAppStatus(h, link, app), ReplyTo(h, link, CommandOf(h, CMD_GET_APP_STATUS, [app]));
            && r.host.progress == h.progress
            && (r.err == CYRET_SUCCESS ==>
                  Seen(r.host.history) == Did(Seen(h.history), AppStatus(app, reply.buf[4], reply.buf[5])))
            && (r.err == CYRET_ERR_BTLDR_MASK + CYBTLDR_STAT_ERR_CMD ==>
                  Seen(r.host.history) in {Did(Seen(h.history), Refused(CMD_GET_APP_STATUS, CYBTLDR_STAT_ERR_CMD)),
                                           Did(Seen(h.history), Failed)})
  {
    hide Seen, FrameOf, ReplyOK, TryParseStatus;
    var request := CommandOf(h, CMD_GET_APP_STATUS, [app]);
    FrameParts(h.checksum, CMD_GET_APP_STATUS, [app]);
    SeeOne(h, link, request);
  }

  /** Before the rows: with a target among two applications, that it is not running, unless it is only verified. */
  ghost predicate Preliminary(action: Action, appId: Byte, first: seq<Act>)
  {
    if appId != 1 && appId != 2 then first == []
    else
      && |first| == 1 && first[0].AppStatus? && first[0].app == appId - 1
      && (action == VERIFY || first[0].isActive == 0)
  }

  /**
    After the rows: the application check; or, with a target among two applications that has been programmed, its
    state, and that it is made the active one if the flag read is 0.  A device that does not know the request has one
    application.
   */
  ghost predicate Conclusion(action: Action, appId: Byte, last: seq<Act>)
  {
    if action == ERASE then last == []
    else if action == VERIFY || (appId != 1 && appId != 2) then last == [AppChecked(true)]
    else
      || last in {[Refused(CMD_GET_APP_STATUS, CYBTLDR_STAT_ERR_CMD)], [Failed]}
      || (|last| == 2 && last[0].AppStatus? && last[0].app == appId - 1 && last[0].isValid == 0
          && last[1] == Activated(appId - 1))
  }

  lemma SeeBegin(h: Host, link: Link, action: Action, header: Header, appId: Byte, key: seq<Byte>)
    returns (first: seq<Act>)
    requires Begin(h, link, action, header, AppOf(appId), key).err == CYRET_SUCCESS
    ensures Preliminary(action, appId, first)
    ensures var r := Begin(h, link, action, header, AppOf(appId), key).host;
            && Seen(r.history) == Seen(h.history).(acts := Seen(h.history).acts + EntryActs(header, key) + first)
            && r.progress == h.progress
  {
    hide Seen, FrameOf, Start, GetAppStatus;
    SeeStart(h, link, header, key);
    var started, app := Start(h, link, header, key).host, AppOf(appId);
    first := [];
    if app != INVALID_APP {
      SeeAppStatus(started, link, app);
      first := [AppStatus(app, Data(started, link, CMD_GET_APP_STATUS, [app], 0),
                          Data(started, link, CMD_GET_APP_STATUS, [app], 1))];
    } else {
      assert Seen(started.history).acts + [] == Seen(started.history).acts;
    }
  }

  lemma SeeConclude(h: Host, link: Link, action: Action, appId: Byte) returns (last: seq<Act>)
    requires Conclude(h, link, action, AppOf(appId)).err == CYRET_SUCCESS
    ensures Conclusion(action, appId, last)
    ensures var r := Conclude(h, link, action, AppOf(appId)).host;
            && Seen(r.history) == Seen(h.history).(acts := Seen(h.history).acts + last)
            && r.progress == h.progress
  {
    hide Seen, FrameOf, ReplyErr, GetAppStatus;
    var app := AppOf(appId);
    if action == ERASE {
      last := [];
      assert Seen(h.history).acts + [] == Seen(h.history).acts;
    } else if action == VERIFY || app == INVALID_APP {
      last := [AppChecked(true)];
      SeeCommand(h, link, CMD_VERIFY_CHECKSUM, []);
    } else {
      SeeAppStatus(h, link, app);
      var status := GetAppStatus(h, link, app);
      if status.err == CYRET_SUCCESS {
        SeeCommand(status.host, link, CMD_SET_ACTIVE_APP, [app]);
        last := [AppStatus(app, Data(h, link, CMD_GET_APP_STATUS, [app], 0),
                           Data(h, link, CMD_GET_APP_STATUS, [app], 1)), Activated(app)];
      } else {
        last := [Seen(status.host.history).acts[|Seen(h.history).acts|]];
      }
    }
  }

  lemma SeeEnd(h: Host, link: Link)
    ensures var d, d2 := Seen(h.history), Seen(End(h, link).history);
            d2 == d.(acts := d.acts + [Left]) || d2 == d.(acts := d.acts + [Left, Closed])
    ensures End(h, link).progress == h.progress
  {
    hide Seen, FrameOf;
    var exit := Write(FrameOf(h.checksum, CMD_EXIT_BOOTLOADER, []));
    SeeOne(h, link, exit);
    SeeOne(Ask(h, link, exit), link, Close);
  }

  /** What a successful session leaves behind: `acts`, and the leave-taking. */
  ghost predicate Done(d: Device, acts: seq<Act>)
  {
    d in {Device([], acts + [Left]), Device([], acts + [Left, Closed])}
  }

  /**
    A successful run of a file: the device was opened and entered once, with the key, the silicon id and revision of
    the header and a supported version; then, with two applications, the target was not running; then every row of
    the file, in file order, was programmed whole and checked against the file's checksum; then came the conclusion,
    and the bootloader was left once.  Every line of the file was a row and the file was read to its end.
   */
  lemma SuccessfulSession(h: Host, link: Link, action: Action, line: Text, f: File, appId: Byte, key: seq<Byte>,
                          aborts: nat -> bool) returns (first: seq<Act>, last: seq<Act>)
    requires Usable(link) && Seen(h.history).pending == []
    requires RunAction(h, link, action, line, f, appId, key, aborts).err == CYRET_SUCCESS
    ensures ParseHeader(line).HeaderOK? && Lines(f).1 == CYRET_ERR_EOF && AllRows(Lines(f).0)
    ensures Preliminary(action, appId, first) && Conclusion(action, appId, last)
    ensures var r, rows := RunAction(h, link, action, line, f, appId, key, aborts).host, RowsOf(Lines(f).0);
            && Done(Seen(r.history), Seen(h.history).acts + EntryActs(ParseHeader(line).header, key) + first
                                     + ActsOf(action, rows) + last)
            && r.progress == h.progress + Ids(rows)
            && (action == PROGRAM ==> AllCut(link, rows))
  {
    hide Seen, RunRows, Begin, Conclude, End, ParseHeader, HasCommBit, AllCut, Ids, Preliminary, Conclusion, EntryActs;
    HeaderFails(line);
    var header := ParseHeader(line).header;
    var h1 := h.(checksum := ChecksumKind(header.checksumType));
    var begun := Begin(h1, link, action, header, AppOf(appId), key);
    first := SeeBegin(h1, link, action, header, appId, key);
    SeeRows(begun.host, link, action, f, aborts, 0);
    var rows := RunRows(begun.host, link, action, f, aborts, 0);
    last := SeeConclude(rows.host, link, action, appId);
    var concluded := Conclude(rows.host, link, action, AppOf(appId)).host;
    SeeEnd(concluded, link);
    Joining(Seen(concluded.history).acts);
  }

  lemma HeaderFails(line: Text)
    ensures ParseHeader(line).HeaderError? ==> ParseHeader(line).err != CYRET_SUCCESS
  {
  }

  lemma Joining(acts: seq<Act>)
    ensures Done(Device([], acts + [Left]), acts) && Done(Device([], acts + [Left, Closed]), acts)
  {
  }
}
