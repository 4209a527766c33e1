/** Bootload sessions on whole files: what a written file makes the device do, and which files are safe to program. */
module CyWhole {
  import opened Bytes
  import opened Hex
  import opened CyErrors
  import opened CyParse
  import opened CyFile
  import opened CyChunks
  import opened CyFrames
  import opened CyHost
  import opened CyTrace
  import opened CyLog
  import opened BootloaderTransport

  // ---------- Undefined behaviour ----------

  /** A failed transfer after which the host looks beyond its reply buffer. */
  predicate Strays(e: Event)
  {
    && e.request.Exchange? && IsFrame(e.request.frame)
    && CodeOf(e.request.frame) in {CMD_ENTER_BOOTLOADER, CMD_GET_APP_STATUS}
    && e.reply.err != CYRET_SUCCESS && LooksBeyond(e.reply.buf)
  }

  /** Among the events from number `n` on there is one of those. */
  ghost predicate Strayed(history: seq<Event>, n: nat)
  {
    exists i :: n <= i < |history| && Strays(history[i])
  }

  /** What began as `h` has ended undefined exactly if the host has looked beyond its reply buffer since. */
  ghost predicate Tells(h: Host, r: Step)
  {
    h.history <= r.host.history && (r.err == UNDEFINED <==> Strayed(r.host.history, |h.history|))
  }

  lemma TellsNothing(h: Host, err: int)
    requires err != UNDEFINED
    ensures Tells(h, Step(err, h))
  {
  }

  lemma TellsThen(h: Host, m: Step, r: Step)
    requires Tells(h, m) && m.err != UNDEFINED && Tells(m.host, r)
    ensures Tells(h, r)
  {
    hide Strays;
    var k := |m.host.history|;
    forall i | |h.history| <= i < k ensures !Strays(r.host.history[i]) {
      assert r.host.history[i] == m.host.history[i];
    }
  }

  /** Only the history of the host counts. */
  lemma TellsAs(h: Host, r: Step, h2: Host, r2: Step)
    requires Tells(h, r) && h2.history == h.history && r2.host.history == r.host.history
    requires r.err == UNDEFINED <==> r2.err == UNDEFINED
    ensures Tells(h2, r2)
  {
  }

  lemma AskTells(h: Host, link: Link, request: Request, err: int)
    requires err == UNDEFINED <==> Strays(Event(request, ReplyTo(h, link, request)))
    ensures Tells(h, Step(err, Ask(h, link, request)))
  {
    hide Strays;
    var r := Ask(h, link, request);
    assert r.history[|h.history|] == Event(request, ReplyTo(h, link, request));
  }

  lemma CommandTells(h: Host, link: Link, code: Byte, p: seq<Byte>, dataSize: nat)
    requires dataSize < 256 && code !in {CMD_ENTER_BOOTLOADER, CMD_GET_APP_STATUS}
    ensures Tells(h, Command(h, link, code, p, dataSize)) && Command(h, link, code, p, dataSize).err != UNDEFINED
  {
    hide FrameOf, ReplyOK, Tells;
    FrameParts(h.checksum, code, p);
    AskTells(h, link, CommandOf(h, code, p), Command(h, link, code, p, dataSize).err);
  }

  /** The two commands after which a failed transfer is looked into. */
  lemma StatusTells(h: Host, link: Link, code: Byte, p: seq<Byte>, size: nat)
    requires code in {CMD_ENTER_BOOTLOADER, CMD_GET_APP_STATUS}
    ensures var request := CommandOf(h, code, p);
            var reply := ReplyTo(h, link, request);
            forall err: int :: (err == UNDEFINED <==> reply.err != CYRET_SUCCESS && LooksBeyond(reply.buf)) ==>
              Tells(h, Step(err, Ask(h, link, request)))
  {
    hide FrameOf, Tells, LooksBeyond;
    FrameParts(h.checksum, code, p);
    var request := CommandOf(h, code, p);
    var reply := ReplyTo(h, link, request);
    forall err: int | err == UNDEFINED <==> reply.err != CYRET_SUCCESS && LooksBeyond(reply.buf)
      ensures Tells(h, Step(err, Ask(h, link, request)))
    {
      AskTells(h, link, request, err);
    }
  }

  lemma CheckTells(h: Host, link: Link, arrayId: Byte, rowNum: nat)
    ensures Tells(h, CheckRow(h, link, arrayId, rowNum)) && CheckRow(h, link, arrayId, rowNum).err != UNDEFINED
  {
    hide Command, Tells, Geometry;
    var asked := Command(h, link, CMD_GET_FLASH_SIZE, [arrayId], 4);
    CommandTells(h, link, CMD_GET_FLASH_SIZE, [arrayId], 4);
    var r := CheckRow(h, link, arrayId, rowNum);
    if r.host == h {
      TellsNothing(h, r.err);
    } else {
      TellsAs(h, asked, h, r);
    }
  }

  /** The loop runs past the row only if its final offset would. */
  lemma {:induction false} SendTells(h: Host, link: Link, data: seq<Byte>, maxRemaining: nat, offset: nat)
    requires Usable(link) && offset <= |data|
    requires FinalOffset(link.maxTransferSize, |data|, maxRemaining, offset) <= |data|
    ensures var r := SendData(h, link, data, maxRemaining, offset); r.err != UNDEFINED && Tells(h, Step(r.err, r.host))
    decreases |data| - offset
  {
    hide Command, Tells;
    var next := offset + ChunkSize(link.maxTransferSize, |data|);
    if |data| - offset <= maxRemaining {
      TellsNothing(h, CYRET_SUCCESS);
    } else {
      var sent := Command(h, link, CMD_SEND_DATA, data[offset..next], 0);
      CommandTells(h, link, CMD_SEND_DATA, data[offset..next], 0);
      if sent.err == CYRET_SUCCESS {
        SendTells(sent.host, link, data, maxRemaining, next);
        var r := SendData(sent.host, link, data, maxRemaining, next);
        TellsThen(h, sent, Step(r.err, r.host));
      }
    }
  }

  lemma ProgramTells(h: Host, link: Link, arrayId: Byte, rowNum: nat, data: seq<Byte>)
    requires Usable(link) && CutsCleanly(link.maxTransferSize, ROW_HEADER_SIZE, |data|)
    ensures var r := ProgramRow(h, link, arrayId, rowNum, data); r.err != UNDEFINED && Tells(h, r)
  {
    hide Command, CheckRow, SendData, CutsCleanly, RowId, Tells;
    var checked := CheckRow(h, link, arrayId, rowNum);
    CheckTells(h, link, arrayId, rowNum);
    if checked.err == CYRET_SUCCESS {
      var limit := link.maxTransferSize - ROW_HEADER_SIZE;
      StopsInsideIff(link.maxTransferSize, ROW_HEADER_SIZE, |data|);
      SendTells(checked.host, link, data, limit, 0);
      var sent := SendData(checked.host, link, data, limit, 0);
      TellsThen(h, checked, Step(sent.err, sent.host));
      if sent.err == CYRET_SUCCESS {
        CommandTells(sent.host, link, CMD_PROGRAM_ROW, RowId(arrayId, rowNum) + data[sent.offset..], 0);
        TellsThen(h, Step(sent.err, sent.host), ProgramRow(h, link, arrayId, rowNum, data));
      }
    }
  }

  lemma VerifyTells(h: Host, link: Link, arrayId: Byte, rowNum: nat, checksum: Byte)
    ensures var r := VerifyRow(h, link, arrayId, rowNum, checksum); r.err != UNDEFINED && Tells(h, r)
  {
    hide Command, CheckRow, RowId, Tells;
    var checked := CheckRow(h, link, arrayId, rowNum);
    CheckTells(h, link, arrayId, rowNum);
    if checked.err == CYRET_SUCCESS {
      var asked := Command(checked.host, link, CMD_GET_ROW_CHECKSUM, RowId(arrayId, rowNum), 1);
      CommandTells(checked.host, link, CMD_GET_ROW_CHECKSUM, RowId(arrayId, rowNum), 1);
      TellsThen(h, checked, asked);
      TellsAs(h, asked, h, VerifyRow(h, link, arrayId, rowNum, checksum));
    }
  }

  lemma EraseTells(h: Host, link: Link, arrayId: Byte, rowNum: nat)
    ensures var r := EraseRow(h, link, arrayId, rowNum); r.err != UNDEFINED && Tells(h, r)
  {
    hide Command, CheckRow, RowId, Tells;
    var checked := CheckRow(h, link, arrayId, rowNum);
    CheckTells(h, link, arrayId, rowNum);
    if checked.err == CYRET_SUCCESS {
      CommandTells(checked.host, link, CMD_ERASE_ROW, RowId(arrayId, rowNum), 0);
      TellsThen(h, checked, EraseRow(h, link, arrayId, rowNum));
    }
  }

  lemma ActTells(h: Host, link: Link, action: Action, row: Row)
    requires Usable(link)
    requires action == PROGRAM ==> CutsCleanly(link.maxTransferSize, ROW_HEADER_SIZE, |row.data|)
    ensures var r := ActOn(h, link, action, row); r.err != UNDEFINED && Tells(h, r)
  {
    hide EraseRow, ProgramRow, VerifyRow, CutsCleanly, Adjusted, Tells;
    match action
    case ERASE => EraseTells(h, link, row.arrayId, row.rowNum);
    case VERIFY => VerifyTells(h, link, row.arrayId, row.rowNum, Adjusted(row));
    case PROGRAM =>
      var programmed := ProgramRow(h, link, row.arrayId, row.rowNum, row.data);
      ProgramTells(h, link, row.arrayId, row.rowNum, row.data);
      if programmed.err == CYRET_SUCCESS {
        VerifyTells(programmed.host, link, row.arrayId, row.rowNum, Adjusted(row));
        TellsThen(h, programmed, ActOn(h, link, action, row));
      }
  }

  ghost predicate CanBeCut(link: Link, line: Text)
    requires Usable(link)
  {
    ParseRow(line).RowOK? ==> CutsCleanly(link.maxTransferSize, ROW_HEADER_SIZE, |ParseRow(line).row.data|)
  }

  lemma LineTells(h: Host, link: Link, action: Action, line: Text)
    requires Usable(link) && (action == PROGRAM ==> CanBeCut(link, line))
    ensures var r := ProcessDataRow(h, link, action, line); r.err != UNDEFINED && Tells(h, r)
  {
    hide ActOn, CutsCleanly, Packed, Tells;
    var r := ProcessDataRow(h, link, action, line);
    if ParseRow(line).RowOK? {
      hide ParseRow;
      ActTells(h, link, action, ParseRow(line).row);
      TellsAs(h, ActOn(h, link, action, ParseRow(line).row), h, r);
    } else {
      TellsNothing(h, r.err);
    }
  }

  lemma {:induction false} RowsTell(h: Host, link: Link, action: Action, f: File, aborts: nat -> bool, i: nat)
    requires Usable(link)
    requires action == PROGRAM ==> forall l :: l in Lines(f).0 ==> CanBeCut(link, l)
    ensures var r := RunRows(h, link, action, f, aborts, i); r.err != UNDEFINED && Tells(h, r)
    decreases |f.content|
  {
    hide ProcessDataRow, NextLine, CanBeCut, Tells;
    var r := RunRows(h, link, action, f, aborts, i);
    if aborts(i) || NextLine(f).NoLine? {
      ReadDefined(f);
      TellsNothing(h, r.err);
    } else {
      var text, rest := NextLine(f).text, NextLine(f).rest;
      assert Lines(f).0 == [text] + Lines(rest).0;
      LineTells(h, link, action, text);
      var done := ProcessDataRow(h, link, action, text);
      if done.err == CYRET_SUCCESS {
        RowsTell(done.host, link, action, rest, aborts, i + 1);
        TellsThen(h, done, r);
      }
    }
  }

  lemma ReadDefined(f: File)
    ensures NextLine(f).NoLine? ==> NextLine(f).err != UNDEFINED
  {
  }

  lemma EnterErrDefined(kind: ChecksumType, reply: Reply, expected: Header)
    ensures EnterErr(kind, reply, expected) == UNDEFINED <==> reply.err != CYRET_SUCCESS && LooksBeyond(reply.buf)
  {
    hide TryParseStatus, LooksBeyond, ReplyOK;
  }

  lemma StartTells(h: Host, link: Link, header: Header, key: seq<Byte>)
    ensures Tells(h, Start(h, link, header, key))
  {
    hide FrameOf, EnterErr, LooksBeyond, Tells, NothingKnown;
    var blank := h.(validRows := NothingKnown());
    var r, entering := Start(h, link, header, key), Entry(h, link);
    var openErr := ReplyTo(blank, link, Open).err;
    var afterOpen := Step(if openErr != CYRET_SUCCESS then WithCommBit(openErr) else CYRET_SUCCESS, entering);
    AskTells(blank, link, Open, afterOpen.err);
    TellsAs(blank, afterOpen, h, afterOpen);
    if openErr == CYRET_SUCCESS {
      var request := CommandOf(entering, CMD_ENTER_BOOTLOADER, key);
      EnterErrDefined(h.checksum, ReplyTo(entering, link, request), header);
      StatusTells(entering, link, CMD_ENTER_BOOTLOADER, key, 15);
      assert r == Step(EnterErr(h.checksum, ReplyTo(entering, link, request), header), Ask(entering, link, request));
      TellsThen(h, afterOpen, r);
    }
  }

  lemma AppStatusTells(h: Host, link: Link, app: Byte)
    ensures Tells(h, GetAppStatus(h, link, app))
  {
    hide FrameOf, TryParseStatus, LooksBeyond, ReplyOK, Tells;
    StatusTells(h, link, CMD_GET_APP_STATUS, [app], 9);
  }

  lemma BeginTells(h: Host, link: Link, action: Action, header: Header, app: Byte, key: seq<Byte>)
    ensures Tells(h, Begin(h, link, action, header, app, key))
  {
    hide FrameOf, Start, GetAppStatus, Tells;
    var started := Start(h, link, header, key);
    StartTells(h, link, header, key);
    if started.err == CYRET_SUCCESS && app != INVALID_APP {
      var status := GetAppStatus(started.host, link, app);
      AppStatusTells(started.host, link, app);
      TellsThen(h, started, status);
      TellsAs(h, status, h, Begin(h, link, action, header, app, key));
    }
  }

  lemma ConcludeTells(h: Host, link: Link, action: Action, app: Byte)
    ensures Tells(h, Conclude(h, link, action, app))
  {
    hide FrameOf, GetAppStatus, Command, Tells;
    var r := Conclude(h, link, action, app);
    if action == PROGRAM && app != INVALID_APP {
      var status := GetAppStatus(h, link, app);
      AppStatusTells(h, link, app);
      if status.err == CYRET_SUCCESS {
        CommandTells(status.host, link, CMD_SET_ACTIVE_APP, [app], 0);
        TellsThen(h, status, Command(status.host, link, CMD_SET_ACTIVE_APP, [app], 0));
      }
      if r.host == status.host {
        TellsAs(h, status, h, r);
      }
    } else if action == ERASE {
      TellsNothing(h, CYRET_SUCCESS);
    } else {
      CommandTells(h, link, CMD_VERIFY_CHECKSUM, [], 1);
      TellsAs(h, Command(h, link, CMD_VERIFY_CHECKSUM, [], 1), h, r);
    }
  }

  lemma EndTells(h: Host, link: Link, err: int)
    requires err != UNDEFINED
    ensures Tells(h, Step(err, End(h, link)))
  {
    hide FrameOf, Tells;
    var exit := Write(FrameOf(h.checksum, CMD_EXIT_BOOTLOADER, []));
    AskTells(h, link, exit, err);
    AskTells(Ask(h, link, exit), link, Close, err);
    TellsThen(h, Step(err, Ask(h, link, exit)), Step(err, Ask(Ask(h, link, exit), link, Close)));
  }

  lemma FinishTells(h: Host, r: Step, link: Link, action: Action, app: Byte)
    requires Tells(h, r)
    ensures Tells(h, Finish(r, link, action, app))
  {
    hide Conclude, End, HasCommBit, Tells;
    var concluded := if r.err == CYRET_SUCCESS then Conclude(r.host, link, action, app) else r;
    if r.err == CYRET_SUCCESS {
      ConcludeTells(r.host, link, action, app);
      TellsThen(h, r, concluded);
    }
    if concluded.err != UNDEFINED {
      EndTells(concluded.host, link, concluded.err);
      TellsThen(h, concluded, Step(concluded.err, End(concluded.host, link)));
    }
  }

  /**
    With rows that can be cut up, or an action that programs none: whatever the device and the file, the
    session ends undefined exactly if the transfer of an ENTER or a status command has failed with a start
    byte and a length field in the reply buffer that leads beyond it.
   */
  lemma SessionUndefinedIff(h: Host, link: Link, action: Action, line: Text, f: File, appId: Byte, key: seq<Byte>,
                            aborts: nat -> bool)
    requires Usable(link)
    requires action == PROGRAM ==> forall l :: l in Lines(f).0 ==> CanBeCut(link, l)
    ensures var r := RunAction(h, link, action, line, f, appId, key, aborts);
            h.history <= r.host.history && (r.err == UNDEFINED <==> Strayed(r.host.history, |h.history|))
  {
    hide RunRows, Begin, Finish, HasCommBit, Lines, CanBeCut, ParseHeader, Strayed;
    var r := RunAction(h, link, action, line, f, appId, key, aborts);
    if ParseHeader(line).HeaderError? {
      HeaderDefined(line);
      TellsNothing(h, r.err);
    } else {
      var header, app := ParseHeader(line).header, AppOf(appId);
      var h1 := h.(checksum := ChecksumKind(header.checksumType));
      var begun := Begin(h1, link, action, header, app, key);
      BeginTells(h1, link, action, header, app, key);
      var rows := if begun.err != CYRET_SUCCESS then begun else RunRows(begun.host, link, action, f, aborts, 0);
      if begun.err == CYRET_SUCCESS {
        RowsTell(begun.host, link, action, f, aborts, 0);
        TellsThen(h1, begun, rows);
      }
      FinishTells(h1, rows, link, action, app);
      TellsAs(h1, r, h, r);
    }
  }

  lemma HeaderDefined(line: Text)
    ensures ParseHeader(line).HeaderError? ==> ParseHeader(line).err != UNDEFINED
  {
    hide Packed;
  }

  /** A failed first transfer that leaves a start byte and the length 0xFFFF behind is enough. */
  lemma LongLength(h: Host, link: Link, action: Action, line: Text, f: File, appId: Byte, key: seq<Byte>,
                   aborts: nat -> bool, reply: Reply)
    requires Usable(link) && ParseHeader(line).HeaderOK?
    requires reply.err == 1 && reply.buf[..4] == [CMD_START, 0, 0xFF, 0xFF]
    requires forall history :: link.device(history, Open).err == CYRET_SUCCESS
    requires forall history, frame :: link.device(history, Exchange(frame)) == reply
    ensures RunAction(h, link, action, line, f, appId, key, aborts).err == UNDEFINED
  {
    hide ParseHeader, FrameOf, TryParseStatus;
    assert LooksBeyond(reply.buf) by {
      assert reply.buf[0] == reply.buf[..4][0] && reply.buf[2] == reply.buf[..4][2] &&
             reply.buf[3] == reply.buf[..4][3];
    }
  }

  // ---------- A file as the tools write it ----------

  function RowTexts(rows: seq<Row>): seq<Text>
  {
    if rows == [] then [] else [RowText(rows[0])] + RowTexts(rows[1..])
  }

  /** A header line and the row lines, each with its line ending. */
  function FileText(header: Header, rows: seq<Row>, ending: Text): Text
  {
    Joined([HeaderText(header)] + RowTexts(rows), ending)
  }

  ghost predicate Printable(row: Row)
  {
    row.rowNum < 0x1_0000 && |row.data| <= 760
  }

  lemma DigitsOnly(data: seq<Byte>)
    ensures forall c :: c in HexBytes(data) ==> IsDigit(c)
  {
    if data != [] {
      DigitsOnly(data[..|data| - 1]);
      DigitRoundTrip(data[|data| - 1] / 16);
      DigitRoundTrip(data[|data| - 1] % 16);
    }
  }

  lemma RowTextWritable(row: Row)
    requires Printable(row)
    ensures Writable(RowText(row)) && !IsComment(RowText(row))
  {
    hide HexBytes, RowBytes;
    var bytes := RowBytes(row);
    RowBytesLength(row);
    DigitsOnly(bytes);
    HexBytesLength(bytes);
    PlainWritable(RowText(row));
  }

  /** Digits and colons alone are neither line endings nor comment signs. */
  lemma PlainWritable(text: Text)
    requires |text| <= CHUNK_SIZE - 2 && forall c :: c in text ==> IsDigit(c) || c == COLON
    ensures Writable(text) && !IsComment(text)
  {
    if text != [] {
      assert text[|text| - 1] in text && text[0] in text;
    }
  }

  lemma RowBytesLength(row: Row)
    ensures |RowBytes(row)| == MIN_SIZE + |row.data|
  {
  }

  lemma HeaderTextWritable(header: Header)
    ensures Writable(HeaderText(header)) && !IsComment(HeaderText(header)) && HeaderText(header) != []
  {
    hide HexBytes;
    var data := BigEndian32(header.siliconId) + [header.siliconRev, header.checksumType];
    DigitsOnly(data);
    HexBytesLength(data);
    PlainWritable(HeaderText(header));
  }

  lemma {:induction false} RowTextsBack(rows: seq<Row>)
    requires forall r :: r in rows ==> Printable(r)
    ensures forall l :: l in RowTexts(rows) ==> Writable(l)
    ensures Uncommented(RowTexts(rows)) == RowTexts(rows)
    ensures AllRows(RowTexts(rows)) && RowsOf(RowTexts(rows)) == rows
  {
    hide RowText, Writable, IsComment, ParseRow;
    if rows != [] {
      RowTextWritable(rows[0]);
      RowRoundTrip(rows[0]);
      RowTextsBack(rows[1..]);
      var texts := RowTexts(rows);
      assert texts[0] == RowText(rows[0]) && texts[1..] == RowTexts(rows[1..]);
      assert Uncommented(texts) == [texts[0]] + Uncommented(texts[1..]);
      assert rows == [rows[0]] + rows[1..];
    }
  }

  /** The lines of a written file come back as they were written, and the end of the file is found. */
  lemma FileBack(header: Header, rows: seq<Row>, ending: Text)
    requires IsEnding(ending) && forall r :: r in rows ==> Printable(r)
    ensures var read := NextLine(File(FileText(header, rows, ending), false));
            read.Line? && read.text == HeaderText(header) && Lines(read.rest) == (RowTexts(rows), CYRET_ERR_EOF)
  {
    hide HeaderText, Writable, IsComment, NextLine, RowTexts;
    var lines := [HeaderText(header)] + RowTexts(rows);
    HeaderTextWritable(header);
    RowTextsBack(rows);
    WrittenLines(lines, ending);
    assert lines[1..] == RowTexts(rows);
    assert Uncommented(lines) == lines;
    var f := File(FileText(header, rows, ending), false);
    assert Lines(f).0[0] == HeaderText(header) && Lines(f).0[1..] == RowTexts(rows);
  }

  /**
    A written file, run to success: the device does exactly what the rows say, in their order, whatever the rows
    and whatever device it is.
   */
  lemma WrittenFileSession(h: Host, link: Link, action: Action, header: Header, rows: seq<Row>, ending: Text,
                           appId: Byte, key: seq<Byte>, aborts: nat -> bool)
    returns (first: seq<Act>, last: seq<Act>)
    requires Usable(link) && Seen(h.history).pending == []
    requires header.siliconId < 0x1_0000_0000 && IsEnding(ending) && forall r :: r in rows ==> Printable(r)
    requires RunFile(h, link, action, FileText(header, rows, ending), appId, key, aborts).err == CYRET_SUCCESS
    ensures Preliminary(action, appId, first) && Conclusion(action, appId, last)
    ensures var r := RunFile(h, link, action, FileText(header, rows, ending), appId, key, aborts).host;
            && Done(Seen(r.history),
                    Seen(h.history).acts + EntryActs(header, key) + first + ActsOf(action, rows) + last)
            && r.progress == h.progress + Ids(rows)
            && (action == PROGRAM ==> AllCut(link, rows))
  {
    hide Seen, RunAction, NextLine, HeaderText, ParseHeader, AllCut, Ids, RowTexts, FileText, Done, ActsOf;
    hide Preliminary, Conclusion, EntryActs;
    var f := File(FileText(header, rows, ending), false);
    FileBack(header, rows, ending);
    HeaderTextWritable(header);
    HeaderRoundTrip(header);
    RowTextsBack(rows);
    first, last := SuccessfulSession(h, link, action, HeaderText(header), NextLine(f).rest, appId, key, aborts);
  }

  /** A last line without its newline is enough to make every run of a file fail. */
  lemma UnterminatedFails(h: Host, link: Link, action: Action, content: Text, appId: Byte, key: seq<Byte>,
                          aborts: nat -> bool)
    requires Usable(link) && Unterminated(content) % CHUNK_SIZE != 0
    ensures RunFile(h, link, action, content, appId, key, aborts).err != CYRET_SUCCESS
  {
    hide RunRows, Begin, Conclude, End, NextLine, ParseHeader, HasCommBit, Unterminated;
    var f := File(content, false);
    CleanEndIff(f);
    if NextLine(f).Line? && ParseHeader(NextLine(f).text).HeaderOK? {
      var header := ParseHeader(NextLine(f).text).header;
      var h1 := h.(checksum := ChecksumKind(header.checksumType));
      var begun := Begin(h1, link, action, header, AppOf(appId), key);
      RowsNeedEnd(begun.host, link, action, NextLine(f).rest, aborts, 0);
    } else {
      if NextLine(f).Line? { HeaderFails(NextLine(f).text); }
    }
  }

  lemma {:induction false} RowsNeedEnd(h: Host, link: Link, action: Action, f: File, aborts: nat -> bool, i: nat)
    requires Usable(link) && Lines(f).1 != CYRET_ERR_EOF
    ensures RunRows(h, link, action, f, aborts, i).err != CYRET_SUCCESS
    decreases |f.content|
  {
    hide ProcessDataRow, NextLine;
    if NextLine(f).Line? {
      RowsNeedEnd(ProcessDataRow(h, link, action, NextLine(f).text).host, link, action, NextLine(f).rest, aborts,
        i + 1);
    }
  }
}
