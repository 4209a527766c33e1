/**
  What every session keeps to, whatever the device answers: sound frames that fit the connection, flash
  sizes asked for only when nothing is known of them, and one exit at the end.
 */
module CyTrace {
  import opened Bytes
  import opened Hex
  import opened BootloaderTransport
  import opened CyErrors
  import opened CyParse
  import opened CyFile
  import opened CyChunks
  import opened CyFrames
  import opened CyHost

  // ---------- Reading frames ----------

  predicate IsFrame(frame: seq<Byte>)
  {
    |frame| >= BASE_CMD_SIZE
  }

  function CodeOf(frame: seq<Byte>): Byte
    requires IsFrame(frame)
  {
    frame[1]
  }

  function PayloadOf(frame: seq<Byte>): seq<Byte>
    requires IsFrame(frame)
  {
    frame[4..|frame| - 3]
  }

  lemma FrameParts(kind: ChecksumType, code: Byte, payload: seq<Byte>)
    ensures var frame := FrameOf(kind, code, payload);
            && |frame| == BASE_CMD_SIZE + |payload|
            && CodeOf(frame) == code && PayloadOf(frame) == payload
  {
    hide Checksum16;
  }

  // ---------- The invariant ----------

  /** A frame that the device can recognise and the connection can carry. */
  ghost predicate Sane(kind: ChecksumType, link: Link, request: Request)
  {
    && request.Exchange? && BASE_CMD_SIZE <= |request.frame| <= link.maxTransferSize
    && TryParseStatus(kind, request.frame, |request.frame|) == Some(CodeOf(request.frame))
  }

  predicate AsksFor(request: Request, arrayId: Byte)
  {
    && request.Exchange? && IsFrame(request.frame)
    && CodeOf(request.frame) == CMD_GET_FLASH_SIZE && PayloadOf(request.frame) == [arrayId]
  }

  /** What the replies since the connection was opened say about an array's rows. */
  function Known(history: seq<Event>, arrayId: Byte): nat
  {
    if history == [] then NO_FLASH_ARRAY_DATA
    else
      var last := history[|history| - 1];
      if last.request == Open then NO_FLASH_ARRAY_DATA
      else if AsksFor(last.request, arrayId) && ReplyErr(last.reply, 4) == CYRET_SUCCESS then Geometry(last.reply)
      else Known(history[..|history| - 1], arrayId)
  }

  ghost predicate TableIsKnown(h: Host)
  {
    forall a: Byte :: a < MAX_FLASH_ARRAYS ==> h.validRows[a] == Known(h.history, a)
  }

  /** Event `i` does not ask for what is known already. */
  ghost predicate Needed(history: seq<Event>, i: nat)
    requires i < |history|
  {
    forall a: Byte :: AsksFor(history[i].request, a) ==>
      a < MAX_FLASH_ARRAYS && Known(history[..i], a) == NO_FLASH_ARRAY_DATA
  }

  ghost predicate Good(link: Link, base: Host, h: Host)
  {
    && base.history <= h.history && h.checksum == base.checksum
    && TableIsKnown(h)
    && (forall i :: |base.history| <= i < |h.history| ==> Sane(h.checksum, link, h.history[i].request))
    && (forall i :: |base.history| <= i < |h.history| ==> Needed(h.history, i))
  }

  /** One more event keeps the invariant. */
  lemma EventGood(link: Link, base: Host, h: Host, e: Event, h2: Host)
    requires Good(link, base, h) && h2.checksum == h.checksum && h2.history == h.history + [e]
    requires Sane(h.checksum, link, e.request) && TableIsKnown(h2)
    requires forall a: Byte :: AsksFor(e.request, a) ==>
             a < MAX_FLASH_ARRAYS && Known(h.history, a) == NO_FLASH_ARRAY_DATA
    ensures Good(link, base, h2)
  {
    hide Sane, Known, TableIsKnown, AsksFor;
    forall i | |base.history| <= i < |h2.history|
      ensures Needed(h2.history, i)
    {
      if i < |h.history| {
        assert Needed(h.history, i);
        assert h2.history[..i] == h.history[..i];
      } else {
        assert h2.history[..i] == h.history;
      }
    }
  }

  lemma SaneFrame(kind: ChecksumType, link: Link, code: Byte, payload: seq<Byte>)
    requires BASE_CMD_SIZE + |payload| <= link.maxTransferSize <= MAX_COMMAND_SIZE
    ensures Sane(kind, link, Exchange(FrameOf(kind, code, payload)))
  {
    hide FrameOf, TryParseStatus;
    var frame := FrameOf(kind, code, payload);
    FrameParts(kind, code, payload);
    CreatedIsParsed(kind, code, payload, []);
    assert frame + [] == frame;
  }

  lemma CommandGood(link: Link, base: Host, h: Host, code: Byte, payload: seq<Byte>, dataSize: nat)
    requires Good(link, base, h) && Usable(link) && dataSize < 256
    requires code != CMD_GET_FLASH_SIZE && BASE_CMD_SIZE + |payload| <= link.maxTransferSize
    ensures Good(link, base, Command(h, link, code, payload, dataSize).host)
  {
    hide Sane, FrameOf, ReplyErr, Good;
    var h2 := Command(h, link, code, payload, dataSize).host;
    SaneFrame(h.checksum, link, code, payload);
    FrameParts(h.checksum, code, payload);
    assert h2.history[..|h.history|] == h.history;
    assert TableIsKnown(h) by { GoodTable(link, base, h); }
    EventGood(link, base, h, h2.history[|h.history|], h2);
  }

  lemma GoodTable(link: Link, base: Host, h: Host)
    requires Good(link, base, h)
    ensures TableIsKnown(h)
  {
  }

  lemma ValidateGood(link: Link, base: Host, h: Host, arrayId: Byte, rowNum: nat)
    requires Good(link, base, h) && Usable(link) && link.caching
    ensures Good(link, base, ValidateRow(h, link, arrayId, rowNum).host)
  {
    hide Sane, FrameOf, ReplyErr, Good, Geometry;
    GoodTable(link, base, h);
    var h2 := ValidateRow(h, link, arrayId, rowNum).host;
    if h2 != h {
      SaneFrame(h.checksum, link, CMD_GET_FLASH_SIZE, [arrayId]);
      FrameParts(h.checksum, CMD_GET_FLASH_SIZE, [arrayId]);
      assert h2.history[..|h.history|] == h.history;
      EventGood(link, base, h, h2.history[|h.history|], h2);
    }
  }

  // ---------- Which rows are let through ----------

  /** The array has no known rows, or this is not one of them. */
  predicate Outside(range: nat, rowNum: nat)
  {
    rowNum < range / 0x1_0000 || range % 0x1_0000 < rowNum
  }

  /**
    A row of a flash array outside the range that is known of it is refused, and nothing at all is sent; other
    arrays are left to the device.
   */
  lemma RowRefused(h: Host, link: Link, action: Action, row: Row)
    requires Usable(link) && link.caching && row.arrayId < 0x40
    requires h.validRows[row.arrayId] != 0 && Outside(h.validRows[row.arrayId], row.rowNum)
    ensures ActOn(h, link, action, row) == Step(CYRET_ERR_ROW, h)
  {
    hide FrameOf, ReplyErr, SendData, RowId;
  }

  /** The same if the device must be asked first: one question, and nothing else. */
  lemma RowRefusedWhenAsked(h: Host, link: Link, action: Action, row: Row)
    requires Usable(link) && row.arrayId < 0x40 && (link.caching ==> h.validRows[row.arrayId] == 0)
    requires var reply := ReplyTo(h, link, CommandOf(h, CMD_GET_FLASH_SIZE, [row.arrayId]));
             ReplyErr(reply, 4) == CYRET_SUCCESS && Outside(Geometry(reply), row.rowNum)
    ensures var r, asked := ActOn(h, link, action, row), CommandOf(h, CMD_GET_FLASH_SIZE, [row.arrayId]);
            r.err == CYRET_ERR_ROW && r.host.history == h.history + [Event(asked, ReplyTo(h, link, asked))]
  {
    hide FrameOf, ReplyErr, SendData, RowId, Geometry;
  }

  /** A row of a flash array that an action succeeds on lies in the range the device has reported for its array. */
  lemma RowInRange(link: Link, base: Host, h: Host, action: Action, row: Row)
    requires Good(link, base, h) && Usable(link) && link.caching && row.arrayId < 0x40
    requires ActOn(h, link, action, row).err == CYRET_SUCCESS
    ensures !Outside(Known(ActOn(h, link, action, row).host.history, row.arrayId), row.rowNum)
  {
    hide Good, Known, CheckRow, Command, SendData, RowId, Adjusted;
    ActGood(link, base, h, action, row);
    var r := ActOn(h, link, action, row).host;
    assert TableIsKnown(r) by { GoodTable(link, base, r); }
    match action
    case ERASE =>
      CheckInTable(h, link, row);
      TableStays(CheckRow(h, link, row.arrayId, row.rowNum).host, link, CMD_ERASE_ROW, RowId(row.arrayId, row.rowNum),
                 0);
    case PROGRAM =>
      var programmed := ProgramRow(h, link, row.arrayId, row.rowNum, row.data).host;
      CheckInTable(programmed, link, row);
      TableStays(CheckRow(programmed, link, row.arrayId, row.rowNum).host, link, CMD_GET_ROW_CHECKSUM,
                 RowId(row.arrayId, row.rowNum), 1);
    case VERIFY =>
      CheckInTable(h, link, row);
      TableStays(CheckRow(h, link, row.arrayId, row.rowNum).host, link, CMD_GET_ROW_CHECKSUM,
                 RowId(row.arrayId, row.rowNum), 1);
  }

  lemma CheckInTable(h: Host, link: Link, row: Row)
    requires row.arrayId < 0x40 && CheckRow(h, link, row.arrayId, row.rowNum).err == CYRET_SUCCESS && link.caching
    ensures !Outside(CheckRow(h, link, row.arrayId, row.rowNum).host.validRows[row.arrayId], row.rowNum)
  {
    hide Command, Geometry;
  }

  lemma TableStays(h: Host, link: Link, code: Byte, payload: seq<Byte>, dataSize: nat)
    requires dataSize < 256
    ensures Command(h, link, code, payload, dataSize).host.validRows == h.validRows
  {
    hide FrameOf, ReplyErr;
  }

  lemma {:induction false} SendGood(link: Link, base: Host, h: Host, data: seq<Byte>, maxRemaining: nat, offset: nat)
    requires Good(link, base, h) && Usable(link) && offset <= |data|
    ensures Good(link, base, SendData(h, link, data, maxRemaining, offset).host)
    decreases |data| - offset
  {
    hide Good, Command;
    var n := ChunkSize(link.maxTransferSize, |data|);
    if |data| - offset > maxRemaining && offset + n <= |data| {
      CommandGood(link, base, h, CMD_SEND_DATA, data[offset..offset + n], 0);
      var sent := Command(h, link, CMD_SEND_DATA, data[offset..offset + n], 0);
      if sent.err == CYRET_SUCCESS {
        SendGood(link, base, sent.host, data, maxRemaining, offset + n);
      }
    }
  }

  lemma {:induction false} SendLeaves(link: Link, h: Host, data: seq<Byte>, maxRemaining: nat, offset: nat)
    requires Usable(link) && offset <= |data|
    ensures var r := SendData(h, link, data, maxRemaining, offset);
            r.err == CYRET_SUCCESS ==> |data| - r.offset <= maxRemaining
    decreases |data| - offset
  {
    hide Command;
    var n := ChunkSize(link.maxTransferSize, |data|);
    if |data| - offset > maxRemaining && offset + n <= |data| {
      var sent := Command(h, link, CMD_SEND_DATA, data[offset..offset + n], 0);
      if sent.err == CYRET_SUCCESS {
        SendLeaves(link, sent.host, data, maxRemaining, offset + n);
      }
    }
  }

  lemma ActGood(link: Link, base: Host, h: Host, action: Action, row: Row)
    requires Good(link, base, h) && Usable(link) && link.caching
    ensures Good(link, base, ActOn(h, link, action, row).host)
  {
    hide ProgramRow, VerifyRow, Good;
    match action
    case ERASE =>
      CheckGood(link, base, h, row.arrayId, row.rowNum);
      var checked := CheckRow(h, link, row.arrayId, row.rowNum);
      CommandGood(link, base, checked.host, CMD_ERASE_ROW, RowId(row.arrayId, row.rowNum), 0);
    case PROGRAM =>
      ProgramGood(link, base, h, row.arrayId, row.rowNum, row.data);
      var programmed := ProgramRow(h, link, row.arrayId, row.rowNum, row.data);
      VerifyGood(link, base, programmed.host, row.arrayId, row.rowNum, Adjusted(row));
    case VERIFY =>
      VerifyGood(link, base, h, row.arrayId, row.rowNum, Adjusted(row));
  }

  lemma CheckGood(link: Link, base: Host, h: Host, arrayId: Byte, rowNum: nat)
    requires Good(link, base, h) && Usable(link) && link.caching
    ensures Good(link, base, CheckRow(h, link, arrayId, rowNum).host)
  {
    hide Good, ValidateRow;
    ValidateGood(link, base, h, arrayId, rowNum);
  }

  lemma ProgramGood(link: Link, base: Host, h: Host, arrayId: Byte, rowNum: nat, data: seq<Byte>)
    requires Good(link, base, h) && Usable(link) && link.caching
    ensures Good(link, base, ProgramRow(h, link, arrayId, rowNum, data).host)
  {
    hide Good, CheckRow, SendData, Command;
    CheckGood(link, base, h, arrayId, rowNum);
    var checked := CheckRow(h, link, arrayId, rowNum);
    if checked.err == CYRET_SUCCESS {
      var limit := link.maxTransferSize - ROW_HEADER_SIZE;
      SendGood(link, base, checked.host, data, limit, 0);
      SendLeaves(link, checked.host, data, limit, 0);
      var sent := SendData(checked.host, link, data, limit, 0);
      if sent.err == CYRET_SUCCESS {
        CommandGood(link, base, sent.host, CMD_PROGRAM_ROW, RowId(arrayId, rowNum) + data[sent.offset..], 0);
      }
    }
  }

  lemma VerifyGood(link: Link, base: Host, h: Host, arrayId: Byte, rowNum: nat, checksum: Byte)
    requires Good(link, base, h) && Usable(link) && link.caching
    ensures Good(link, base, VerifyRow(h, link, arrayId, rowNum, checksum).host)
  {
    hide Good, CheckRow, Command;
    CheckGood(link, base, h, arrayId, rowNum);
    var checked := CheckRow(h, link, arrayId, rowNum);
    CommandGood(link, base, checked.host, CMD_GET_ROW_CHECKSUM, RowId(arrayId, rowNum), 1);
  }

  lemma ProgressGood(link: Link, base: Host, h: Host, progress: seq<(Byte, nat)>)
    requires Good(link, base, h)
    ensures Good(link, base, h.(progress := progress))
  {
  }

  lemma {:induction false} RowsGood(link: Link, base: Host, h: Host, action: Action, f: File,
                                    aborts: nat -> bool, i: nat)
    requires Good(link, base, h) && Usable(link) && link.caching
    ensures Good(link, base, RunRows(h, link, action, f, aborts, i).host)
    decreases |f.content|
  {
    hide Good, ActOn, ParseRow, NextLine;
    if !aborts(i) && NextLine(f).Line? {
      var line := NextLine(f).text;
      if ParseRow(line).RowOK? {
        ActGood(link, base, h, action, ParseRow(line).row);
        var acted := ActOn(h, link, action, ParseRow(line).row).host;
        ProgressGood(link, base, acted, acted.progress + [(ParseRow(line).row.arrayId, ParseRow(line).row.rowNum)]);
      }
      var done := ProcessDataRow(h, link, action, line);
      assert Good(link, base, done.host);
      RowsGood(link, base, done.host, action, NextLine(f).rest, aborts, i + 1);
    }
  }

  /**
    On the eigenbus, whose frames hold at most 52 bytes, every frame of every session goes out as one line
    of text that parses back to the frame, for any address and sequence number.
   */
  lemma SessionFramesArrive(kind: ChecksumType, link: Link, request: Request, address: Byte, seqNum: Byte)
    requires link.maxTransferSize == 52 && Sane(kind, link, request)
    ensures |Front(address, seqNum, request.frame)| == 15
    ensures var lines := LinesFrom(Front(address, seqNum, request.frame), request.frame, 0);
            && |lines| == 1 && |lines[0]| >= PREFIX_LEN
            && ParsePacket(lines[0][PREFIX_LEN..], seqNum) == Accepted(request.frame)
  {
    hide TryParseStatus, ParsePacket, Front, LinesFrom;
    FrameSurvivesIff(address, seqNum, request.frame);
  }

  // ---------- The session as a whole ----------

  /** The host once the connection has been opened. */
  function Entry(h: Host, link: Link): Host
  {
    Ask(h.(validRows := NothingKnown()), link, Open)
  }

  lemma BeginGood(h: Host, link: Link, action: Action, header: Header, app: Byte, key: seq<Byte>)
    requires Usable(link) && BASE_CMD_SIZE + |key| <= link.maxTransferSize
    ensures Good(link, Entry(h, link), Begin(h, link, action, header, app, key).host)
  {
    hide Good, Command, EnterErr, StatusErr;
    var base := Entry(h, link);
    EntryGood(h, link);
    CommandGood(link, base, base, CMD_ENTER_BOOTLOADER, key, 8);
    var started := Start(h, link, header, key).host;
    CommandGood(link, base, started, CMD_GET_APP_STATUS, [app], 2);
  }

  lemma EntryGood(h: Host, link: Link)
    ensures Good(link, Entry(h, link), Entry(h, link))
  {
  }

  lemma ConcludeGood(link: Link, base: Host, h: Host, action: Action, app: Byte)
    requires Good(link, base, h) && Usable(link)
    ensures Good(link, base, Conclude(h, link, action, app).host)
  {
    hide Good, Command, StatusErr, ReplyErr;
    CommandGood(link, base, h, CMD_GET_APP_STATUS, [app], 2);
    var status := GetAppStatus(h, link, app).host;
    CommandGood(link, base, status, CMD_SET_ACTIVE_APP, [app], 0);
    CommandGood(link, base, h, CMD_VERIFY_CHECKSUM, [], 1);
  }

  /** How a session may end: not at all, with a failed exit, or with an exit and the closing of the connection. */
  predicate Farewell(kind: ChecksumType, events: seq<Event>)
  {
    || events == []
    || (&& events[0].request == Write(FrameOf(kind, CMD_EXIT_BOOTLOADER, []))
        && if events[0].reply.err != CYRET_SUCCESS then |events| == 1 else |events| == 2 && events[1].request == Close)
  }

  /** The session up to the point where the conclusion would follow. */
  function UpToRows(h: Host, link: Link, action: Action, line: Text, f: File, appId: Byte, key: seq<Byte>,
                    aborts: nat -> bool): Step
    requires Usable(link) && ParseHeader(line).HeaderOK?
  {
    var header := ParseHeader(line).header;
    var begun := Begin(h.(checksum := ChecksumKind(header.checksumType)), link, action, header, AppOf(appId), key);
    if begun.err != CYRET_SUCCESS then begun else RunRows(begun.host, link, action, f, aborts, 0)
  }

  /**
    Every session, whatever the device answers: the connection is opened, then come only sound frames that
    fit, no flash size is asked for while the table holds one, and after the exit there is nothing but the
    closing of the connection.  The exit is sent, unless the session is undefined or has failed before its
    conclusion with the communication bit set.
   */
  lemma EverySession(h: Host, link: Link, action: Action, line: Text, f: File, appId: Byte, key: seq<Byte>,
                     aborts: nat -> bool)
    requires Usable(link) && link.caching && ParseHeader(line).HeaderOK?
    requires BASE_CMD_SIZE + |key| <= link.maxTransferSize
    ensures exists last: Host, end: seq<Event> ::
              IsSession(h, link, ParseHeader(line).header, UpToRows(h, link, action, line, f, appId, key, aborts),
                last, end, RunAction(h, link, action, line, f, appId, key, aborts))
  {
    hide Good, RunRows, Begin, Conclude, NextLine, ParseHeader, HasCommBit, Farewell, End;
    var header, app := ParseHeader(line).header, AppOf(appId);
    var h1 := h.(checksum := ChecksumKind(header.checksumType));
    var base := Entry(h1, link);
    BeginGood(h1, link, action, header, app, key);
    var begun := Begin(h1, link, action, header, app, key);
    RowsGood(link, base, begun.host, action, f, aborts, 0);
    var rows := UpToRows(h, link, action, line, f, appId, key, aborts);
    var concluded := if rows.err == CYRET_SUCCESS then Conclude(rows.host, link, action, app) else rows;
    var last := concluded.host;
    ConcludeGood(link, base, rows.host, action, app);
    GoodKind(link, base, last);
    var r := Finish(rows, link, action, app);
    var silent := concluded.err == UNDEFINED || (rows.err != CYRET_SUCCESS && HasCommBit(rows.err));
    EndFarewell(last, link);
    var end := if silent then [] else End(last, link).history[|last.history|..];
    assert Farewell(last.checksum, end) by { NoFarewell(last.checksum); }
    assert r == RunAction(h, link, action, line, f, appId, key, aborts);
    assert IsSession(h, link, header, rows, last, end, r);
  }

  /**
    `r` is how a session ends that started as `h`: `rows` is how far it got before its conclusion, `last` the host
    before it takes its leave, `end` the leave-taking.
   */
  ghost predicate IsSession(h: Host, link: Link, header: Header, rows: Step, last: Host, end: seq<Event>, r: Step)
  {
    var kind := if header.checksumType == 1 then CrcChecksumType else SumChecksumType;
    && Good(link, Entry(h.(checksum := kind), link), last)
    && (rows.err != CYRET_SUCCESS ==> r.err == rows.err && last == rows.host)
    && r.host.history == last.history + end && Farewell(kind, end)
    && (end == [] <==> r.err == UNDEFINED || (rows.err != CYRET_SUCCESS && HasCommBit(rows.err)))
  }

  lemma GoodKind(link: Link, base: Host, h: Host)
    requires Good(link, base, h)
    ensures h.checksum == base.checksum
  {
  }

  lemma NoFarewell(kind: ChecksumType)
    ensures Farewell(kind, [])
  {
  }

  lemma EndFarewell(h: Host, link: Link)
    ensures h.history <= End(h, link).history
    ensures var end := End(h, link).history[|h.history|..]; end != [] && Farewell(h.checksum, end)
  {
    hide FrameOf;
  }
}
