/**
  The bootload host with its global variables, updated in place.  Every method does what the corresponding
  function on plain data says; whatever uses the connection requires that there is one, so nothing does
  after the exit.
 */
module CySession {
  import opened Bytes
  import opened Hex
  import opened CyErrors
  import opened CyParse
  import opened CyFile
  import opened CyChunks
  import opened CyFrames
  import opened CyHost
  import opened CyTrace

  datatype Connection = Connection(maxTransferSize: nat, device: (seq<Event>, Request) -> Reply)

  class Session {
    var comm: Option<Connection>   // null before the start and after the exit
    const validRows: array<nat>
    var checksum: ChecksumType
    var history: seq<Event>
    var progress: seq<(Byte, nat)>

    ghost predicate Valid()
      reads `comm
    {
      && validRows.Length == MAX_FLASH_ARRAYS
      && (comm.Some? ==> ROW_HEADER_SIZE <= comm.value.maxTransferSize <= MAX_COMMAND_SIZE)
    }

    ghost predicate Connected()
      reads `comm
    {
      Valid() && comm.Some?
    }

    ghost function Link(): (r: CyHost.Link)
      requires Connected()
      reads `comm
      ensures Usable(r) && r.caching
    {
      LinkOf(comm.value)
    }

    ghost function Host(): CyHost.Host
      requires Valid()
      reads this, validRows
    {
      CyHost.Host(history, validRows[..], checksum, progress)
    }

    constructor ()
      ensures Valid() && fresh(validRows) && comm == None
      ensures Host() == CyHost.Host([], NothingKnown(), SumChecksumType, [])
    {
      validRows := new nat[MAX_FLASH_ARRAYS](_ => NO_FLASH_ARRAY_DATA);
      comm, checksum, history, progress := None, SumChecksumType, [], [];
      new;
      assert validRows[..] == NothingKnown();
    }

    /** One call of the connection. */
    method Call(request: Request) returns (reply: Reply)
      requires Connected()
      modifies `history
      ensures reply == ReplyTo(old(Host()), Link(), request) && Host() == Ask(old(Host()), Link(), request)
    {
      reply := comm.value.device(history, request);
      history := history + [Event(request, reply)];
    }

    /** `CyBtldr_TransferData` of the frame that `CreateCmd` makes of a code and its data. */
    method TransferData(code: Byte, data: seq<Byte>) returns (err: int, outBuf: seq<Byte>)
      requires Connected() && BASE_CMD_SIZE + |data| <= MAX_COMMAND_SIZE
      modifies `history
      ensures Host() == Ask(old(Host()), Link(), CommandOf(old(Host()), code, data))
      ensures var reply := ReplyTo(old(Host()), Link(), CommandOf(old(Host()), code, data));
              outBuf == reply.buf && err == if reply.err == CYRET_SUCCESS then CYRET_SUCCESS else WithCommBit(reply.err)
    {
      hide FrameOf, Ask, ReplyTo;
      var inBuf := new Byte[MAX_COMMAND_SIZE];
      var cmdSize := BASE_CMD_SIZE + |data|;
      var i := 0;
      while i < |data|
        invariant 0 <= i <= |data| && inBuf[4..4 + i] == data[..i]
        modifies inBuf
      {
        inBuf[i + 4] := data[i];
        i := i + 1;
      }
      ghost var payload := inBuf[4..cmdSize - 3];
      assert payload == data;
      CreateCmd(checksum, inBuf, cmdSize, code);
      assert inBuf[..cmdSize] == FrameOf(checksum, code, payload);
      var reply := Call(Exchange(inBuf[..cmdSize]));
      outBuf := reply.buf;
      err := reply.err;
      if err != CYRET_SUCCESS {
        err := WithCommBit(err);
      }
    }

    /** `ParseGenericCmdResult`. */
    static method ParseGenericCmdResult(cmdBuf: seq<Byte>, dataSize: nat, expectedSize: nat)
      returns (err: int, status: Byte)
      requires |cmdBuf| == MAX_COMMAND_SIZE && dataSize < 256
      ensures status == cmdBuf[1]
      ensures err == if dataSize + BASE_CMD_SIZE != expectedSize then CYRET_ERR_LENGTH
                     else if status != 0 then CYRET_ERR_BTLDR_MASK + status
                     else if ReplyOK(cmdBuf, dataSize) then CYRET_SUCCESS
                     else CYRET_ERR_DATA
    {
      err := CYRET_SUCCESS;
      var cmdSize := dataSize + BASE_CMD_SIZE;
      status := cmdBuf[1];
      if cmdSize != expectedSize {
        err := CYRET_ERR_LENGTH;
      } else if status != 0 {
        err := CYRET_ERR_BTLDR_MASK + status;
      } else if cmdBuf[0] != CMD_START || cmdBuf[2] != dataSize % 256 || cmdBuf[3] != dataSize / 256 % 256
                || cmdBuf[cmdSize - 1] != CMD_STOP {
        err := CYRET_ERR_DATA;
      }
    }

    /** The steps all commands share: create the frame, transfer it, parse the result, let the status decide. */
    method Perform(code: Byte, data: seq<Byte>, resultSize: nat) returns (err: int, outBuf: seq<Byte>)
      requires Connected() && BASE_CMD_SIZE + |data| <= MAX_COMMAND_SIZE && resultSize < 256
      modifies `history
      ensures Step(err, Host()) == Command(old(Host()), Link(), code, data, resultSize)
      ensures outBuf == ReplyTo(old(Host()), Link(), CommandOf(old(Host()), code, data)).buf
    {
      hide FrameOf, ReplyOK;
      var status: Byte := 0;
      err, outBuf := TransferData(code, data);
      if err == CYRET_SUCCESS {
        err, status := ParseGenericCmdResult(outBuf, resultSize, BASE_CMD_SIZE + resultSize);
      }
      if status != 0 {
        err := CYRET_ERR_BTLDR_MASK + status;
      }
    }

    method ValidateRow(arrayId: Byte, rowNum: nat) returns (err: int)
      requires Connected()
      modifies `history, validRows
      ensures Step(err, Host()) == CyHost.ValidateRow(old(Host()), Link(), arrayId, rowNum)
    {
      hide Command;
      err := CYRET_SUCCESS;
      if arrayId < MAX_FLASH_ARRAYS {
        if validRows[arrayId] == NO_FLASH_ARRAY_DATA {
          ghost var table := validRows[..];
          var outBuf;
          err, outBuf := Perform(CMD_GET_FLASH_SIZE, [arrayId], 4);
          if err == CYRET_SUCCESS {
            validRows[arrayId] := FirstAndLast(outBuf);
            assert validRows[..] == table[arrayId := FirstAndLast(outBuf)];
          }
        }
        if err == CYRET_SUCCESS {
          var minRow, maxRow := validRows[arrayId] / 0x1_0000, validRows[arrayId] % 0x1_0000;
          if rowNum < minRow || rowNum > maxRow {
            err := CYRET_ERR_ROW;
          }
        }
      } else {
        err := CYRET_ERR_ARRAY;
      }
    }

    method CheckRow(arrayId: Byte, rowNum: nat) returns (err: int)
      requires Connected()
      modifies `history, validRows
      ensures Step(err, Host()) == CyHost.CheckRow(old(Host()), Link(), arrayId, rowNum)
    {
      hide CyHost.ValidateRow;
      err := CYRET_SUCCESS;
      if arrayId < MAX_FLASH_ARRAYS {
        err := ValidateRow(arrayId, rowNum);
      }
    }

    /** Sends ahead what the last frame has no room for.  A chunk past the row would read unwritten memory. */
    method SendData(buf: array<Byte>, size: nat, offset: nat, maxRemaining: nat) returns (err: int, newOffset: nat)
      requires Connected() && offset <= size <= buf.Length
      modifies `history
      ensures Sent(err, Host(), newOffset) == CyHost.SendData(old(Host()), Link(), buf[..size], maxRemaining, offset)
    {
      hide Command, ChunkSize;
      var subBufSize := ChunkSize(comm.value.maxTransferSize, size);
      ChunkFits(comm.value.maxTransferSize, size);
      err, newOffset := CYRET_SUCCESS, offset;
      while err == CYRET_SUCCESS && size - newOffset > maxRemaining
        invariant err == CYRET_SUCCESS ==> newOffset <= size
        invariant (if err == CYRET_SUCCESS
                   then CyHost.SendData(Host(), Link(), buf[..size], maxRemaining, newOffset)
                   else Sent(err, Host(), newOffset))
               == CyHost.SendData(old(Host()), Link(), buf[..size], maxRemaining, offset)
        decreases if err == CYRET_SUCCESS then 1 else 0, size - newOffset
      {
        if newOffset + subBufSize > size {
          return UNDEFINED, newOffset;
        }
        assert buf[..size][newOffset..newOffset + subBufSize] == buf[newOffset..newOffset + subBufSize];
        var outBuf;
        err, outBuf := Perform(CMD_SEND_DATA, buf[newOffset..newOffset + subBufSize], 0);
        newOffset := newOffset + subBufSize;
      }
    }

    method ProgramRow(arrayId: Byte, rowNum: nat, buf: array<Byte>, size: nat) returns (err: int)
      requires Connected() && size <= buf.Length
      modifies `history, validRows
      ensures Step(err, Host()) == CyHost.ProgramRow(old(Host()), Link(), arrayId, rowNum, buf[..size])
    {
      hide Command, CyHost.CheckRow, CyHost.SendData;
      err := CheckRow(arrayId, rowNum);
      if err == CYRET_SUCCESS {
        ghost var checked := Host();
        var limit := comm.value.maxTransferSize - ROW_HEADER_SIZE;
        var offset;
        err, offset := SendData(buf, size, 0, limit);
        if err == CYRET_SUCCESS {
          SendLeaves(Link(), checked, buf[..size], limit, 0);
          assert buf[..size][offset..] == buf[offset..size];
          var outBuf;
          err, outBuf := Perform(CMD_PROGRAM_ROW, RowId(arrayId, rowNum) + buf[offset..size], 0);
        }
      }
    }

    method EraseRow(arrayId: Byte, rowNum: nat) returns (err: int)
      requires Connected()
      modifies `history, validRows
      ensures Step(err, Host()) == CyHost.EraseRow(old(Host()), Link(), arrayId, rowNum)
    {
      hide Command, CyHost.CheckRow;
      err := CheckRow(arrayId, rowNum);
      if err == CYRET_SUCCESS {
        var outBuf;
        err, outBuf := Perform(CMD_ERASE_ROW, RowId(arrayId, rowNum), 0);
      }
    }

    method VerifyRow(arrayId: Byte, rowNum: nat, checksum: Byte) returns (err: int)
      requires Connected()
      modifies `history, validRows
      ensures Step(err, Host()) == CyHost.VerifyRow(old(Host()), Link(), arrayId, rowNum, checksum)
    {
      hide Command, CyHost.CheckRow;
      err := CheckRow(arrayId, rowNum);
      if err == CYRET_SUCCESS {
        var outBuf;
        err, outBuf := Perform(CMD_GET_ROW_CHECKSUM, RowId(arrayId, rowNum), 1);
        if err == CYRET_SUCCESS && outBuf[4] != checksum {
          err := CYRET_ERR_CHECKSUM;
        }
      }
    }

    method ProcessDataRow(action: Action, line: Text) returns (err: int)
      requires Connected() && |line| < 2 * MAX_BUFFER_SIZE
      modifies `history, `progress, validRows
      ensures Step(err, Host()) == CyHost.ProcessDataRow(old(Host()), Link(), action, line)
    {
      hide CyHost.EraseRow, CyHost.ProgramRow, CyHost.VerifyRow, ParseRow;
      var buffer := new Byte[MAX_BUFFER_SIZE];
      var arrayId, rowNum, bufSize, checksum;
      err, arrayId, rowNum, bufSize, checksum := ParseRowData(line, buffer);
      if err == CYRET_SUCCESS {
        ghost var row := Row(arrayId, rowNum, buffer[..bufSize], checksum);
        err := ActOn(action, arrayId, rowNum, buffer, bufSize, checksum);
        if err == CYRET_SUCCESS {
          progress := progress + [(arrayId, rowNum)];
        }
      }
    }

    /** The switch over the action: a programmed row is verified as well. */
    method ActOn(action: Action, arrayId: Byte, rowNum: nat, buffer: array<Byte>, bufSize: nat,
                 fileChecksum: Byte) returns (err: int)
      requires Connected() && bufSize <= buffer.Length
      modifies `history, validRows
      ensures Step(err, Host()) ==
              CyHost.ActOn(old(Host()), Link(), action, Row(arrayId, rowNum, buffer[..bufSize], fileChecksum))
    {
      hide CyHost.EraseRow, CyHost.ProgramRow, CyHost.VerifyRow;
      err := CYRET_SUCCESS;
      if action == ERASE {
        err := EraseRow(arrayId, rowNum);
        return;
      }
      if action == PROGRAM {
        err := ProgramRow(arrayId, rowNum, buffer, bufSize);
        if err != CYRET_SUCCESS { return; }
      }
      var adjusted := (fileChecksum + arrayId + rowNum + rowNum / 256 + bufSize + bufSize / 256) % 256;
      err := VerifyRow(arrayId, rowNum, adjusted);
    }

    method VerifyApplication() returns (err: int)
      requires Connected()
      modifies `history
      ensures Step(err, Host()) == CyHost.VerifyApplication(old(Host()), Link())
    {
      hide Command;
      var outBuf;
      err, outBuf := Perform(CMD_VERIFY_CHECKSUM, [], 1);
      if err == CYRET_SUCCESS && outBuf[4] == 0 {
        err := CYRET_ERR_CHECKSUM;
      }
    }

    method GetApplicationStatus(appId: Byte) returns (err: int, isValid: Byte, isActive: Byte)
      requires Connected()
      modifies `history
      ensures Step(err, Host()) == GetAppStatus(old(Host()), Link(), appId)
      ensures isValid == Data(old(Host()), Link(), CMD_GET_APP_STATUS, [appId], 0)
      ensures isActive == Data(old(Host()), Link(), CMD_GET_APP_STATUS, [appId], 1)
    {
      hide FrameOf, TryParseStatus, ReplyOK;
      var outBuf;
      err, outBuf := TransferData(CMD_GET_APP_STATUS, [appId]);
      isValid, isActive := outBuf[4], outBuf[5];
      err := OutcomeOf(err, outBuf, 2);
    }

    /**
      What the entry and status commands make of a transfer: a sound packet decides even after a failure, and
      its length field is trusted.
     */
    method OutcomeOf(transferErr: int, outBuf: seq<Byte>, resultSize: nat) returns (err: int)
      requires |outBuf| == MAX_COMMAND_SIZE && resultSize < 256
      ensures transferErr != CYRET_SUCCESS ==>
                err == if LooksBeyond(outBuf) then UNDEFINED
                       else match TryParseStatus(checksum, outBuf, BASE_CMD_SIZE + resultSize)
                            case Some(status) => CYRET_ERR_BTLDR_MASK + status
                            case None => transferErr
      ensures transferErr == CYRET_SUCCESS ==>
                err == if outBuf[1] != 0 then CYRET_ERR_BTLDR_MASK + outBuf[1]
                       else if ReplyOK(outBuf, resultSize) then CYRET_SUCCESS
                       else CYRET_ERR_DATA
    {
      hide TryParseStatus, ReplyOK;
      err := transferErr;
      if err == CYRET_SUCCESS {
        var status;
        err, status := ParseGenericCmdResult(outBuf, resultSize, BASE_CMD_SIZE + resultSize);
      } else if LooksBeyond(outBuf) {
        err := UNDEFINED;
      } else {
        var parsed := TryParseStatus(checksum, outBuf, BASE_CMD_SIZE + resultSize);
        if parsed.Some? {
          err := CYRET_ERR_BTLDR_MASK + parsed.value;
        }
      }
    }

    method StartBootloadOperation(connection: Connection, expSiId: nat, expSiRev: Byte, key: seq<Byte>)
      returns (err: int)
      requires Valid() && ROW_HEADER_SIZE <= connection.maxTransferSize <= MAX_COMMAND_SIZE && |key| <= 6
      modifies `comm, `history, validRows
      ensures Valid() && comm == Some(connection)
      ensures forall checksumType ::
                Step(err, Host()) ==
                  Start(old(Host()), LinkOf(connection), Header(expSiId, expSiRev, checksumType), key)
    {
      hide FrameOf, TryParseStatus, ReplyOK, NothingKnown;
      comm := Some(connection);
      ClearRows();
      var reply := Call(Open);
      err := reply.err;
      if err != CYRET_SUCCESS {
        err := WithCommBit(err);
        return;
      }
      var outBuf;
      err, outBuf := TransferData(CMD_ENTER_BOOTLOADER, key);
      err := OutcomeOf(err, outBuf, 8);
      if err == CYRET_SUCCESS {
        var siliconId := ReadLittleEndian32(outBuf[4], outBuf[5], outBuf[6], outBuf[7]);
        var siliconRev := outBuf[8];
        if expSiId != siliconId || expSiRev != siliconRev {
          err := CYRET_ERR_DEVICE;
        } else if outBuf[11] != 1 {
          err := CYRET_ERR_VERSION;
        }
      }
    }

    method ClearRows()
      requires Valid()
      modifies validRows
      ensures validRows[..] == NothingKnown()
    {
      for i := 0 to MAX_FLASH_ARRAYS
        invariant forall k :: 0 <= k < i ==> validRows[k] == NO_FLASH_ARRAY_DATA
      {
        validRows[i] := NO_FLASH_ARRAY_DATA;
      }
    }

    method EndBootloadOperation() returns (err: int)
      requires Connected()
      modifies `comm, `history
      ensures Valid() && comm == None && Host() == End(old(Host()), old(Link()))
    {
      hide FrameOf;
      var inBuf := new Byte[MAX_COMMAND_SIZE];
      ghost var payload := inBuf[4..4];
      assert payload == [];
      CreateCmd(checksum, inBuf, BASE_CMD_SIZE, CMD_EXIT_BOOTLOADER);
      assert inBuf[..BASE_CMD_SIZE] == FrameOf(checksum, CMD_EXIT_BOOTLOADER, []);
      var reply := Call(Write(inBuf[..BASE_CMD_SIZE]));
      err := reply.err;
      if err == CYRET_SUCCESS {
        reply := Call(Close);
        err := reply.err;
      }
      if err != CYRET_SUCCESS {
        err := WithCommBit(err);
      }
      comm := None;
    }

    /** The loop over the data lines; `aborts` says whether an abort has been asked for by then. */
    method RunRows(action: Action, dataFile: DataFile, aborts: nat -> bool) returns (err: int)
      requires Connected()
      modifies `history, `progress, validRows, dataFile
      ensures Step(err, Host()) == CyHost.RunRows(old(Host()), Link(), action, old(dataFile.State()), aborts, 0)
    {
      hide CyHost.ProcessDataRow, NextLine;
      err := CYRET_SUCCESS;
      var i := 0;
      while err == CYRET_SUCCESS
        invariant (if err == CYRET_SUCCESS
                   then CyHost.RunRows(Host(), Link(), action, dataFile.State(), aborts, i)
                   else Step(err, Host()))
               == CyHost.RunRows(old(Host()), Link(), action, old(dataFile.State()), aborts, 0)
        decreases if err == CYRET_SUCCESS then 1 else 0, |dataFile.content|
      {
        if aborts(i) { return CYRET_ABORT; }
        var line;
        err, line := dataFile.ReadLine();
        if err == CYRET_SUCCESS {
          err := ProcessDataRow(action, line);
          i := i + 1;
        } else if err == CYRET_ERR_EOF {
          return CYRET_SUCCESS;
        }
      }
    }

    /** Entering the bootloader, and the check that the application to be replaced is not running. */
    method Begin(action: Action, connection: Connection, header: Header, app: Byte, key: seq<Byte>) returns (err: int)
      requires Valid() && ROW_HEADER_SIZE <= connection.maxTransferSize <= MAX_COMMAND_SIZE && |key| <= 6
      modifies `comm, `history, validRows
      ensures Valid() && comm == Some(connection)
      ensures Step(err, Host()) == CyHost.Begin(old(Host()), LinkOf(connection), action, header, app, key)
    {
      hide Start, GetAppStatus;
      err := StartBootloadOperation(connection, header.siliconId, header.siliconRev, key);
      assert header == Header(header.siliconId, header.siliconRev, header.checksumType);
      assert Step(err, Host()) == Start(old(Host()), LinkOf(connection), header, key);
      if err == CYRET_SUCCESS && app != INVALID_APP {
        var isValid, isActive;
        err, isValid, isActive := GetApplicationStatus(app);
        if err == CYRET_SUCCESS && action != VERIFY && isActive != 0 {
          err := CYRET_ERR_ACTIVE;
        }
      }
    }

    /** What follows the last row. */
    method Conclude(action: Action, app: Byte) returns (err: int)
      requires Connected()
      modifies `history
      ensures Step(err, Host()) == CyHost.Conclude(old(Host()), Link(), action, app)
    {
      hide GetAppStatus, Command, CyHost.VerifyApplication;
      err := CYRET_SUCCESS;
      if action == PROGRAM && app != INVALID_APP {
        var isValid, isActive;
        err, isValid, isActive := GetApplicationStatus(app);
        if err == CYRET_SUCCESS {
          if isValid == 0 {
            var outBuf;
            err, outBuf := Perform(CMD_SET_ACTIVE_APP, [app], 0);
          } else {
            err := CYRET_ERR_CHECKSUM;
          }
        } else if err == CYRET_ERR_BTLDR_MASK + CYBTLDR_STAT_ERR_CMD {
          err := CYRET_SUCCESS;
        }
      } else if action == PROGRAM || action == VERIFY {
        err := VerifyApplication();
      }
    }

    /** `RunAction_v0` from the header line on. */
    method RunAction(action: Action, line: Text, dataFile: DataFile, appId: Byte, key: seq<Byte>,
                     connection: Connection, aborts: nat -> bool) returns (err: int)
      requires Valid() && ROW_HEADER_SIZE <= connection.maxTransferSize <= MAX_COMMAND_SIZE && |key| <= 6 &&
               |line| < 2 * MAX_BUFFER_SIZE
      modifies this, validRows, dataFile
      ensures Valid()
      ensures Step(err, Host())
           == CyHost.RunAction(old(Host()), LinkOf(connection), action, line, old(dataFile.State()), appId, key, aborts)
    {
      hide ParseHeader, CyHost.Begin, CyHost.RunRows, CyHost.Conclude, CyHost.End, HasCommBit;
      var siliconId, siliconRev, chksumtype;
      err, siliconId, siliconRev, chksumtype := ParseHeaderLine(line);
      if err != CYRET_SUCCESS { return; }
      checksum := ChecksumKind(chksumtype);
      var app := (appId - 1) % 256;
      if app > 1 {
        app := INVALID_APP;
      }
      err := Begin(action, connection, Header(siliconId, siliconRev, chksumtype), app, key);
      if err == CYRET_SUCCESS {
        err := RunRows(action, dataFile, aborts);
      }
      if err == CYRET_SUCCESS {
        err := Conclude(action, app);
        if err != UNDEFINED {
          var ignored := EndBootloadOperation();
        }
      } else if err != UNDEFINED && !HasCommBit(err) {
        var ignored := EndBootloadOperation();
      }
    }

    /** `CyBtldr_RunAction` on a file of the older format: the first line is the header. */
    method RunFile(action: Action, content: Text, appId: Byte, key: seq<Byte>, connection: Connection,
                   aborts: nat -> bool) returns (err: int)
      requires Valid() && ROW_HEADER_SIZE <= connection.maxTransferSize <= MAX_COMMAND_SIZE && |key| <= 6
      modifies this, validRows
      ensures Valid()
      ensures Step(err, Host()) == CyHost.RunFile(old(Host()), LinkOf(connection), action, content, appId, key, aborts)
    {
      hide NextLine, CyHost.RunAction;
      var dataFile := new DataFile(content);
      var line;
      err, line := dataFile.ReadLine();
      if err != CYRET_SUCCESS { return; }
      if line == [] { return CYRET_ERR_FILE; }
      err := RunAction(action, line, dataFile, appId, key, connection, aborts);
    }
  }

  function LinkOf(connection: Connection): CyHost.Link
  {
    CyHost.Link(connection.maxTransferSize, connection.device, true)
  }

  /** `(minRow << 16) + maxRow` of a reply. */
  function FirstAndLast(outBuf: seq<Byte>): nat
    requires |outBuf| == MAX_COMMAND_SIZE
  {
    ReadLittleEndian(outBuf[4], outBuf[5]) * 0x1_0000 + ReadLittleEndian(outBuf[6], outBuf[7])
  }

  lemma ChunkFits(maxTransfer: nat, size: nat)
    requires SEND_HEADER_SIZE < maxTransfer
    ensures SEND_HEADER_SIZE + ChunkSize(maxTransfer, size) <= maxTransfer
    ensures size > 0 ==> ChunkSize(maxTransfer, size) > 0
  {
  }
}
