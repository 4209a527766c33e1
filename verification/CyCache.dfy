/**
  The flash-size cache changes nothing but the number of questions: against a device with a fixed geometry
  the host and a host that asks every time end the same way and send the same other commands.
 */
module CyCache {
  import opened Bytes
  import opened Hex
  import opened CyErrors
  import opened CyParse
  import opened CyFile
  import opened CyChunks
  import opened CyFrames
  import opened CyHost
  import opened CyTrace

  predicate IsQuery(request: Request)
  {
    request.Exchange? && IsFrame(request.frame) && CodeOf(request.frame) == CMD_GET_FLASH_SIZE
  }

  /** The history without the questions about the flash size. */
  function Quiet(history: seq<Event>): seq<Event>
  {
    if history == [] then []
    else
      var last := history[|history| - 1];
      Quiet(history[..|history| - 1]) + if IsQuery(last.request) then [] else [last]
  }

  /** Questions about the flash size of array `a` are always answered with `answer(a)`, error or not. */
  ghost predicate Fixed(link: Link, answer: Byte -> Reply)
  {
    forall history: seq<Event>, kind: ChecksumType, a: Byte ::
      link.device(history, Exchange(FrameOf(kind, CMD_GET_FLASH_SIZE, [a]))) == answer(a)
  }

  /** Having been asked makes no difference to any later reply. */
  ghost predicate Indifferent(link: Link)
  {
    forall history: seq<Event>, request: Request ::
      link.device(history, request) == link.device(Quiet(history), request)
  }

  /** The table holds nothing but the device's answers. */
  ghost predicate TableFrom(answer: Byte -> Reply, table: RowTable)
  {
    forall a: Byte :: a < MAX_FLASH_ARRAYS ==>
      table[a] == NO_FLASH_ARRAY_DATA || (ReplyErr(answer(a), 4) == CYRET_SUCCESS && table[a] == Geometry(answer(a)))
  }

  ghost predicate Same(answer: Byte -> Reply, h: Host, h2: Host)
  {
    && Quiet(h.history) == Quiet(h2.history) && h.checksum == h2.checksum && h.progress == h2.progress
    && TableFrom(answer, h.validRows)
  }

  function Uncached(link: Link): Link
  {
    link.(caching := false)
  }

  lemma QuietAsk(h: Host, link: Link, request: Request)
    ensures Quiet(Ask(h, link, request).history)
         == Quiet(h.history) + if IsQuery(request) then [] else [Event(request, ReplyTo(h, link, request))]
  {
    assert Ask(h, link, request).history[..|h.history|] == h.history;
  }

  lemma SameReply(answer: Byte -> Reply, h: Host, h2: Host, link: Link, request: Request)
    requires Indifferent(link) && Same(answer, h, h2)
    ensures ReplyTo(h, link, request) == ReplyTo(h2, Uncached(link), request)
    ensures Same(answer, Ask(h, link, request), Ask(h2, Uncached(link), request))
  {
    hide Quiet, TableFrom;
    assert link.device(h.history, request) == link.device(Quiet(h.history), request)
        == link.device(h2.history, request);
    QuietAsk(h, link, request);
    QuietAsk(h2, Uncached(link), request);
  }

  lemma SameCommand(answer: Byte -> Reply, h: Host, h2: Host, link: Link, code: Byte, p: seq<Byte>, dataSize: nat)
    requires Indifferent(link) && Same(answer, h, h2) && dataSize < 256
    ensures Command(h, link, code, p, dataSize).err == Command(h2, Uncached(link), code, p, dataSize).err
    ensures Same(answer, Command(h, link, code, p, dataSize).host, Command(h2, Uncached(link), code, p, dataSize).host)
  {
    hide Same, FrameOf, ReplyErr;
    assert h.checksum == h2.checksum by { SameKind(answer, h, h2); }
    SameReply(answer, h, h2, link, CommandOf(h, code, p));
  }

  lemma SameKind(answer: Byte -> Reply, h: Host, h2: Host)
    requires Same(answer, h, h2)
    ensures h.checksum == h2.checksum && h.progress == h2.progress && TableFrom(answer, h.validRows)
  {
  }

  lemma SameCheck(answer: Byte -> Reply, h: Host, h2: Host, link: Link, arrayId: Byte, rowNum: nat)
    requires Fixed(link, answer) && Same(answer, h, h2)
    ensures CheckRow(h, link, arrayId, rowNum).err == CheckRow(h2, Uncached(link), arrayId, rowNum).err
    ensures Same(answer, CheckRow(h, link, arrayId, rowNum).host, CheckRow(h2, Uncached(link), arrayId, rowNum).host)
  {
    hide FrameOf, ReplyErr, Geometry, RowErr, Quiet;
    if arrayId < MAX_FLASH_ARRAYS {
      QueryQuiet(h, link, arrayId);
      QueryQuiet(h2, Uncached(link), arrayId);
      assert ReplyTo(h, link, CommandOf(h, CMD_GET_FLASH_SIZE, [arrayId])) == answer(arrayId);
      assert ReplyTo(h2, Uncached(link), CommandOf(h2, CMD_GET_FLASH_SIZE, [arrayId])) == answer(arrayId);
    }
  }

  lemma QueryQuiet(h: Host, link: Link, arrayId: Byte)
    ensures Quiet(Command(h, link, CMD_GET_FLASH_SIZE, [arrayId], 4).host.history) == Quiet(h.history)
  {
    hide FrameOf, ReplyErr;
    FrameParts(h.checksum, CMD_GET_FLASH_SIZE, [arrayId]);
    QuietAsk(h, link, CommandOf(h, CMD_GET_FLASH_SIZE, [arrayId]));
    assert Quiet(h.history) + [] == Quiet(h.history);
  }

  lemma {:induction false} SameSend(answer: Byte -> Reply, h: Host, h2: Host, link: Link, data: seq<Byte>,
                                    maxRemaining: nat, offset: nat)
    requires Indifferent(link) && Same(answer, h, h2) && Usable(link) && offset <= |data|
    ensures var r := SendData(h, link, data, maxRemaining, offset);
            var r2 := SendData(h2, Uncached(link), data, maxRemaining, offset);
            r.err == r2.err && r.offset == r2.offset && Same(answer, r.host, r2.host)
    decreases |data| - offset
  {
    hide Same, Command, Indifferent;
    var next := offset + ChunkSize(link.maxTransferSize, |data|);
    if |data| - offset > maxRemaining && next <= |data| {
      SameCommand(answer, h, h2, link, CMD_SEND_DATA, data[offset..next], 0);
      var sent := Command(h, link, CMD_SEND_DATA, data[offset..next], 0);
      var sent2 := Command(h2, Uncached(link), CMD_SEND_DATA, data[offset..next], 0);
      if sent.err == CYRET_SUCCESS {
        SameSend(answer, sent.host, sent2.host, link, data, maxRemaining, next);
      }
    }
  }

  lemma SameProgram(answer: Byte -> Reply, h: Host, h2: Host, link: Link, arrayId: Byte, rowNum: nat, data: seq<Byte>)
    requires Fixed(link, answer) && Indifferent(link) && Same(answer, h, h2) && Usable(link)
    ensures var r := ProgramRow(h, link, arrayId, rowNum, data);
            var r2 := ProgramRow(h2, Uncached(link), arrayId, rowNum, data);
            r.err == r2.err && Same(answer, r.host, r2.host)
  {
    hide Same, Command, CheckRow, SendData, Indifferent, Fixed, RowId;
    SameCheck(answer, h, h2, link, arrayId, rowNum);
    var checked, checked2 := CheckRow(h, link, arrayId, rowNum), CheckRow(h2, Uncached(link), arrayId, rowNum);
    var limit := link.maxTransferSize - ROW_HEADER_SIZE;
    SameSend(answer, checked.host, checked2.host, link, data, limit, 0);
    var sent := SendData(checked.host, link, data, limit, 0);
    var sent2 := SendData(checked2.host, Uncached(link), data, limit, 0);
    if sent.err == CYRET_SUCCESS {
      SameCommand(answer, sent.host, sent2.host, link, CMD_PROGRAM_ROW,
                  RowId(arrayId, rowNum) + data[sent.offset..], 0);
    }
  }

  lemma SameVerify(answer: Byte -> Reply, h: Host, h2: Host, link: Link, arrayId: Byte, rowNum: nat, checksum: Byte)
    requires Fixed(link, answer) && Indifferent(link) && Same(answer, h, h2)
    ensures var r := VerifyRow(h, link, arrayId, rowNum, checksum);
            var r2 := VerifyRow(h2, Uncached(link), arrayId, rowNum, checksum);
            r.err == r2.err && Same(answer, r.host, r2.host)
  {
    hide Same, Command, CheckRow, Indifferent, Fixed, RowId, FrameOf;
    SameCheck(answer, h, h2, link, arrayId, rowNum);
    var checked, checked2 :=
      CheckRow(h, link, arrayId, rowNum).host, CheckRow(h2, Uncached(link), arrayId, rowNum).host;
    SameKind(answer, checked, checked2);
    SameCommand(answer, checked, checked2, link, CMD_GET_ROW_CHECKSUM, RowId(arrayId, rowNum), 1);
    SameReply(answer, checked, checked2, link, CommandOf(checked, CMD_GET_ROW_CHECKSUM, RowId(arrayId, rowNum)));
  }

  lemma SameAct(answer: Byte -> Reply, h: Host, h2: Host, link: Link, action: Action, row: Row)
    requires Fixed(link, answer) && Indifferent(link) && Same(answer, h, h2) && Usable(link)
    ensures var r, r2 := ActOn(h, link, action, row), ActOn(h2, Uncached(link), action, row);
            r.err == r2.err && Same(answer, r.host, r2.host)
  {
    hide Same, Command, CheckRow, ProgramRow, VerifyRow, Indifferent, Fixed, RowId, Adjusted;
    match action
    case ERASE =>
      SameCheck(answer, h, h2, link, row.arrayId, row.rowNum);
      SameCommand(answer, CheckRow(h, link, row.arrayId, row.rowNum).host,
                  CheckRow(h2, Uncached(link), row.arrayId, row.rowNum).host, link,
                  CMD_ERASE_ROW, RowId(row.arrayId, row.rowNum), 0);
    case PROGRAM =>
      SameProgram(answer, h, h2, link, row.arrayId, row.rowNum, row.data);
      SameVerify(answer, ProgramRow(h, link, row.arrayId, row.rowNum, row.data).host,
                 ProgramRow(h2, Uncached(link), row.arrayId, row.rowNum, row.data).host, link,
                 row.arrayId, row.rowNum, Adjusted(row));
    case VERIFY =>
      SameVerify(answer, h, h2, link, row.arrayId, row.rowNum, Adjusted(row));
  }

  lemma SameLine(answer: Byte -> Reply, h: Host, h2: Host, link: Link, action: Action, line: Text)
    requires Fixed(link, answer) && Indifferent(link) && Same(answer, h, h2) && Usable(link)
    ensures var r, r2 := ProcessDataRow(h, link, action, line), ProcessDataRow(h2, Uncached(link), action, line);
            r.err == r2.err && Same(answer, r.host, r2.host)
  {
    hide ActOn, ParseRow, Indifferent, Fixed, Quiet, TableFrom;
    if ParseRow(line).RowOK? {
      SameAct(answer, h, h2, link, action, ParseRow(line).row);
    }
  }

  lemma {:induction false} SameRows(answer: Byte -> Reply, h: Host, h2: Host, link: Link, action: Action, f: File,
                                    aborts: nat -> bool, i: nat)
    requires Fixed(link, answer) && Indifferent(link) && Same(answer, h, h2) && Usable(link)
    ensures var r, r2 := RunRows(h, link, action, f, aborts, i), RunRows(h2, Uncached(link), action, f, aborts, i);
            r.err == r2.err && Same(answer, r.host, r2.host)
    decreases |f.content|
  {
    hide ProcessDataRow, NextLine, Indifferent, Fixed, Same;
    if !aborts(i) && NextLine(f).Line? {
      var line, rest := NextLine(f).text, NextLine(f).rest;
      SameLine(answer, h, h2, link, action, line);
      SameRows(answer, ProcessDataRow(h, link, action, line).host,
        ProcessDataRow(h2, Uncached(link), action, line).host,
               link, action, rest, aborts, i + 1);
    }
  }

  lemma SameStatus(answer: Byte -> Reply, h: Host, h2: Host, link: Link, app: Byte)
    requires Indifferent(link) && Same(answer, h, h2)
    ensures var r, r2 := GetAppStatus(h, link, app), GetAppStatus(h2, Uncached(link), app);
            r.err == r2.err && Same(answer, r.host, r2.host)
    ensures ReplyTo(h, link, CommandOf(h, CMD_GET_APP_STATUS, [app])) ==
             ReplyTo(h2, Uncached(link), CommandOf(h2, CMD_GET_APP_STATUS, [app]))
  {
    hide Same, FrameOf, StatusErr, ReplyErr, Indifferent;
    SameKind(answer, h, h2);
    SameReply(answer, h, h2, link, CommandOf(h, CMD_GET_APP_STATUS, [app]));
  }

  lemma SameBegin(answer: Byte -> Reply, h: Host, link: Link, action: Action, header: Header, app: Byte, key: seq<Byte>)
    requires Indifferent(link)
    ensures var r, r2 := Begin(h, link, action, header, app, key), Begin(h, Uncached(link), action, header, app, key);
            r.err == r2.err && Same(answer, r.host, r2.host)
  {
    hide Same, FrameOf, EnterErr, ReplyErr, StatusErr, Indifferent, GetAppStatus, NothingKnown;
    var blank := h.(validRows := NothingKnown());
    assert Same(answer, blank, blank) by { BlankSame(answer, h); }
    SameReply(answer, blank, blank, link, Open);
    var entering, entering2 := Ask(blank, link, Open), Ask(blank, Uncached(link), Open);
    SameReply(answer, entering, entering2, link, CommandOf(entering, CMD_ENTER_BOOTLOADER, key));
    var started, started2 := Start(h, link, header, key), Start(h, Uncached(link), header, key);
    assert started.err == started2.err && Same(answer, started.host, started2.host);
    SameStatus(answer, started.host, started2.host, link, app);
  }

  lemma BlankSame(answer: Byte -> Reply, h: Host)
    ensures Same(answer, h.(validRows := NothingKnown()), h.(validRows := NothingKnown()))
  {
  }

  lemma SameConclude(answer: Byte -> Reply, h: Host, h2: Host, link: Link, action: Action, app: Byte)
    requires Indifferent(link) && Same(answer, h, h2)
    ensures var r, r2 := Conclude(h, link, action, app), Conclude(h2, Uncached(link), action, app);
            r.err == r2.err && Same(answer, r.host, r2.host)
  {
    hide Same, FrameOf, ReplyErr, StatusErr, Indifferent, GetAppStatus, Command;
    SameKind(answer, h, h2);
    SameStatus(answer, h, h2, link, app);
    var status, status2 := GetAppStatus(h, link, app).host, GetAppStatus(h2, Uncached(link), app).host;
    SameCommand(answer, status, status2, link, CMD_SET_ACTIVE_APP, [app], 0);
    SameCommand(answer, h, h2, link, CMD_VERIFY_CHECKSUM, [], 1);
    SameReply(answer, h, h2, link, CommandOf(h, CMD_VERIFY_CHECKSUM, []));
  }

  lemma SameEnd(answer: Byte -> Reply, h: Host, h2: Host, link: Link)
    requires Indifferent(link) && Same(answer, h, h2)
    ensures Same(answer, End(h, link), End(h2, Uncached(link)))
  {
    hide Same, FrameOf, Indifferent;
    SameKind(answer, h, h2);
    var exit := Write(FrameOf(h.checksum, CMD_EXIT_BOOTLOADER, []));
    SameReply(answer, h, h2, link, exit);
    SameReply(answer, Ask(h, link, exit), Ask(h2, Uncached(link), exit), link, Close);
  }

  /**
    Whatever the file and the action, with and without the cache: the same result, the same progress
    reports, and the same history but for the questions about the flash size.
   */
  lemma CacheIsTransparent(answer: Byte -> Reply, h: Host, link: Link, action: Action, content: Text, appId: Byte,
                           key: seq<Byte>, aborts: nat -> bool)
    requires Fixed(link, answer) && Indifferent(link) && Usable(link)
    ensures var r := RunFile(h, link, action, content, appId, key, aborts);
            var r2 := RunFile(h, Uncached(link), action, content, appId, key, aborts);
            r.err == r2.err && r.host.progress == r2.host.progress && Quiet(r.host.history) == Quiet(r2.host.history)
  {
    hide RunRows, Begin, Conclude, End, NextLine, ParseHeader, HasCommBit, Fixed, Indifferent, Quiet, TableFrom;
    var read := NextLine(File(content, false));
    if read.Line? && read.text != [] && ParseHeader(read.text).HeaderOK? {
      var header, app := ParseHeader(read.text).header, AppOf(appId);
      var h1 := h.(checksum := ChecksumKind(header.checksumType));
      SameBegin(answer, h1, link, action, header, app, key);
      var begun := Begin(h1, link, action, header, app, key);
      var begun2 := Begin(h1, Uncached(link), action, header, app, key);
      SameRows(answer, begun.host, begun2.host, link, action, read.rest, aborts, 0);
      var rows := if begun.err != CYRET_SUCCESS then begun else RunRows(begun.host, link, action, read.rest, aborts, 0);
      var rows2 := if begun2.err != CYRET_SUCCESS then begun2
        else RunRows(begun2.host, Uncached(link), action, read.rest, aborts, 0);
      SameConclude(answer, rows.host, rows2.host, link, action, app);
      SameEnd(answer, Conclude(rows.host, link, action, app).host,
        Conclude(rows2.host, Uncached(link), action, app).host, link);
      SameEnd(answer, rows.host, rows2.host, link);
    }
  }
}
