/**
  A bootload session on values: what the host sends, step by step, against a device that answers as it
  likes.  The device is a function of everything that has happened on the connection so far.
 */
module CyHost {
  import opened Bytes
  import opened Hex
  import opened CyErrors
  import opened CyParse
  import opened CyFile
  import opened CyChunks
  import opened CyFrames

  const CMD_VERIFY_CHECKSUM: Byte := 0x31
  const CMD_GET_FLASH_SIZE: Byte := 0x32
  const CMD_GET_APP_STATUS: Byte := 0x33
  const CMD_ERASE_ROW: Byte := 0x34
  const CMD_SET_ACTIVE_APP: Byte := 0x36
  const CMD_SEND_DATA: Byte := 0x37
  const CMD_ENTER_BOOTLOADER: Byte := 0x38
  const CMD_PROGRAM_ROW: Byte := 0x39
  const CMD_GET_ROW_CHECKSUM: Byte := 0x3A
  const CMD_EXIT_BOOTLOADER: Byte := 0x3B
  const CMD_ERASE_DATA: Byte := 0x44
  const CMD_PROGRAM_DATA: Byte := 0x49
  const CMD_VERIFY_DATA: Byte := 0x4A

  const MAX_FLASH_ARRAYS: nat := 0x40
  const NO_FLASH_ARRAY_DATA: nat := 0

  /** The header of PROGRAM_ROW around its data. */
  const ROW_HEADER_SIZE: nat := 10

  /** What the connection returns: an error code and the 512 bytes of the reply buffer. */
  datatype Answer = Answer(err: Code, buf: seq<Byte>)
  type Reply = r: Answer | |r.buf| == MAX_COMMAND_SIZE witness Answer(0, seq(MAX_COMMAND_SIZE, _ => 0))

  datatype Request = Open | Exchange(frame: seq<Byte>) | Write(frame: seq<Byte>) | Close
  datatype Event = Event(request: Request, reply: Reply)

  /**
    The connection.  `caching` holds of the host; without it the host would ask for the flash size
    before every use.
   */
  datatype Link = Link(maxTransferSize: nat, device: (seq<Event>, Request) -> Reply, caching: bool)

  /** Frames must have room for the header of a row and must fit the host's buffers. */
  predicate Usable(link: Link)
  {
    ROW_HEADER_SIZE <= link.maxTransferSize <= MAX_COMMAND_SIZE
  }

  type RowTable = s: seq<nat> | |s| == MAX_FLASH_ARRAYS witness seq(MAX_FLASH_ARRAYS, _ => NO_FLASH_ARRAY_DATA)

  function NothingKnown(): RowTable
  {
    seq(MAX_FLASH_ARRAYS, _ => NO_FLASH_ARRAY_DATA)
  }

  datatype Host = Host(history: seq<Event>, validRows: RowTable, checksum: ChecksumType, progress: seq<(Byte, nat)>)

  datatype Step = Step(err: int, host: Host)

  datatype Sent = Sent(err: int, host: Host, offset: nat)

  datatype Action = PROGRAM | ERASE | VERIFY

  // ---------- One command ----------

  function ReplyTo(h: Host, link: Link, request: Request): Reply
  {
    link.device(h.history, request)
  }

  function Ask(h: Host, link: Link, request: Request): Host
  {
    h.(history := h.history + [Event(request, ReplyTo(h, link, request))])
  }

  /** What the host makes of a reply with `dataSize` data bytes. */
  function ReplyErr(reply: Reply, dataSize: nat): int
    requires dataSize < 256
  {
    if reply.err != CYRET_SUCCESS then WithCommBit(reply.err)
    else if reply.buf[1] != 0 then CYRET_ERR_BTLDR_MASK + reply.buf[1]
    else if !ReplyOK(reply.buf, dataSize) then CYRET_ERR_DATA
    else CYRET_SUCCESS
  }

  function CommandOf(h: Host, code: Byte, payload: seq<Byte>): Request
  {
    Exchange(FrameOf(h.checksum, code, payload))
  }

  /** One command whose reply carries `dataSize` bytes. */
  function Command(h: Host, link: Link, code: Byte, payload: seq<Byte>, dataSize: nat): (r: Step)
    requires dataSize < 256
  {
    var request := CommandOf(h, code, payload);
    Step(ReplyErr(ReplyTo(h, link, request), dataSize), Ask(h, link, request))
  }

  /** The data byte `k` of the reply to a command. */
  function Data(h: Host, link: Link, code: Byte, payload: seq<Byte>, k: nat): Byte
    requires k < 256
  {
    ReplyTo(h, link, CommandOf(h, code, payload)).buf[4 + k]
  }

  // ---------- Rows ----------

  /** First and last row as the host keeps them in one word. */
  function Geometry(reply: Reply): nat
  {
    ReadLittleEndian(reply.buf[4], reply.buf[5]) * 0x1_0000 + ReadLittleEndian(reply.buf[6], reply.buf[7])
  }

  function RowErr(range: nat, rowNum: nat): int
  {
    if range / 0x1_0000 <= rowNum <= range % 0x1_0000 then CYRET_SUCCESS else CYRET_ERR_ROW
  }

  /** `CyBtldr_ValidateRow`. */
  function ValidateRow(h: Host, link: Link, arrayId: Byte, rowNum: nat): Step
  {
    if arrayId >= MAX_FLASH_ARRAYS then Step(CYRET_ERR_ARRAY, h)
    else if link.caching && h.validRows[arrayId] != NO_FLASH_ARRAY_DATA
      then Step(RowErr(h.validRows[arrayId], rowNum), h)
    else
      var asked := Command(h, link, CMD_GET_FLASH_SIZE, [arrayId], 4);
      if asked.err != CYRET_SUCCESS then asked
      else
        var range := Geometry(ReplyTo(h, link, CommandOf(h, CMD_GET_FLASH_SIZE, [arrayId])));
        Step(RowErr(range, rowNum), asked.host.(validRows := asked.host.validRows[arrayId := range]))
  }

  /** Only flash rows are checked; the other arrays are left to the device. */
  function CheckRow(h: Host, link: Link, arrayId: Byte, rowNum: nat): Step
  {
    if arrayId < MAX_FLASH_ARRAYS then ValidateRow(h, link, arrayId, rowNum) else Step(CYRET_SUCCESS, h)
  }

  /**
    `SendData` from `offset` on, with the offset it stops at.  A chunk that would reach past the row is
    read from memory that was never written.
   */
  function SendData(h: Host, link: Link, data: seq<Byte>, maxRemaining: nat, offset: nat): (r: Sent)
    requires Usable(link) && offset <= |data|
    ensures r.err == CYRET_SUCCESS ==> r.offset <= |data|
    decreases |data| - offset
  {
    var n := ChunkSize(link.maxTransferSize, |data|);
    if |data| - offset <= maxRemaining then Sent(CYRET_SUCCESS, h, offset)
    else if offset + n > |data| then Sent(UNDEFINED, h, offset)
    else
      var sent := Command(h, link, CMD_SEND_DATA, data[offset..offset + n], 0);
      if sent.err != CYRET_SUCCESS then Sent(sent.err, sent.host, offset + n)
      else SendData(sent.host, link, data, maxRemaining, offset + n)
  }

  function RowId(arrayId: Byte, rowNum: nat): seq<Byte>
  {
    [arrayId] + LittleEndian(rowNum)
  }

  /** `CyBtldr_ProgramRow`. */
  function ProgramRow(h: Host, link: Link, arrayId: Byte, rowNum: nat, data: seq<Byte>): Step
    requires Usable(link)
  {
    var checked := CheckRow(h, link, arrayId, rowNum);
    if checked.err != CYRET_SUCCESS then checked
    else
      var sent := SendData(checked.host, link, data, link.maxTransferSize - ROW_HEADER_SIZE, 0);
      if sent.err != CYRET_SUCCESS then Step(sent.err, sent.host)
      else Command(sent.host, link, CMD_PROGRAM_ROW, RowId(arrayId, rowNum) + data[sent.offset..], 0)
  }

  /** `CyBtldr_EraseRow`. */
  function EraseRow(h: Host, link: Link, arrayId: Byte, rowNum: nat): Step
  {
    var checked := CheckRow(h, link, arrayId, rowNum);
    if checked.err != CYRET_SUCCESS then checked
    else Command(checked.host, link, CMD_ERASE_ROW, RowId(arrayId, rowNum), 0)
  }

  /** `CyBtldr_VerifyRow`. */
  function VerifyRow(h: Host, link: Link, arrayId: Byte, rowNum: nat, checksum: Byte): Step
  {
    var checked := CheckRow(h, link, arrayId, rowNum);
    if checked.err != CYRET_SUCCESS then checked
    else
      var asked := Command(checked.host, link, CMD_GET_ROW_CHECKSUM, RowId(arrayId, rowNum), 1);
      if asked.err == CYRET_SUCCESS &&
        Data(checked.host, link, CMD_GET_ROW_CHECKSUM, RowId(arrayId, rowNum), 0) != checksum
      then Step(CYRET_ERR_CHECKSUM, asked.host)
      else asked
  }

  /** The row checksum the device should report: the file's, and the bytes of the row's position and size. */
  function Adjusted(row: Row): Byte
  {
    (row.checksum + row.arrayId + row.rowNum + row.rowNum / 256 + |row.data| + |row.data| / 256) % 256
  }

  function ActOn(h: Host, link: Link, action: Action, row: Row): Step
    requires Usable(link)
  {
    match action
    case ERASE => EraseRow(h, link, row.arrayId, row.rowNum)
    case PROGRAM =>
      var programmed := ProgramRow(h, link, row.arrayId, row.rowNum, row.data);
      if programmed.err != CYRET_SUCCESS then programmed
      else VerifyRow(programmed.host, link, row.arrayId, row.rowNum, Adjusted(row))
    case VERIFY => VerifyRow(h, link, row.arrayId, row.rowNum, Adjusted(row))
  }

  /** `ProcessDataRow_v0`: success is reported to the progress callback. */
  function ProcessDataRow(h: Host, link: Link, action: Action, line: Text): Step
    requires Usable(link)
  {
    match ParseRow(line)
    case RowError(err) => Step(err, h)
    case RowOK(row) =>
      var acted := ActOn(h, link, action, row);
      if acted.err != CYRET_SUCCESS then acted
      else Step(CYRET_SUCCESS, acted.host.(progress := acted.host.progress + [(row.arrayId, row.rowNum)]))
  }

  // ---------- The session ----------

  /** `CyBtldr_StartBootloadOperation`; `key` is the security key, if there is one. */
  function Start(h: Host, link: Link, expected: Header, key: seq<Byte>): Step
  {
    var blank := h.(validRows := NothingKnown());
    var entering := Ask(blank, link, Open);
    var openErr := ReplyTo(blank, link, Open).err;
    if openErr != CYRET_SUCCESS then Step(WithCommBit(openErr), entering)
    else
      var reply := ReplyTo(entering, link, CommandOf(entering, CMD_ENTER_BOOTLOADER, key));
      Step(EnterErr(h.checksum, reply, expected), Command(entering, link, CMD_ENTER_BOOTLOADER, key, 8).host)
  }

  /**
    What the host makes of the reply to ENTER.  After a failed transfer a sound packet in the buffer
    still decides the error code.
   */
  function EnterErr(kind: ChecksumType, reply: Reply, expected: Header): int
  {
    var err := ReplyErr(reply, 8);
    if reply.err != CYRET_SUCCESS then StatusErr(kind, reply, 15)
    else if err != CYRET_SUCCESS then err
    else if SiliconId(reply) != expected.siliconId || reply.buf[8] != expected.siliconRev then CYRET_ERR_DEVICE
    else if reply.buf[11] != 1 then CYRET_ERR_VERSION
    else CYRET_SUCCESS
  }

  /**
    Does the length field lead beyond the reply buffer?  It is not checked before the checksum and the stop
    byte are looked for behind it.
   */
  predicate LooksBeyond(buf: seq<Byte>)
    requires |buf| == MAX_COMMAND_SIZE
  {
    buf[0] == CMD_START && ReadLittleEndian(buf[2], buf[3]) + BASE_CMD_SIZE > MAX_COMMAND_SIZE
  }

  function StatusErr(kind: ChecksumType, reply: Reply, size: nat): int
  {
    if LooksBeyond(reply.buf) then UNDEFINED
    else
      match TryParseStatus(kind, reply.buf, size)
      case Some(status) => CYRET_ERR_BTLDR_MASK + status
      case None => WithCommBit(reply.err)
  }

  function SiliconId(reply: Reply): nat
  {
    ReadLittleEndian32(reply.buf[4], reply.buf[5], reply.buf[6], reply.buf[7])
  }

  /** `CyBtldr_GetApplicationStatus`. */
  function GetAppStatus(h: Host, link: Link, appId: Byte): Step
  {
    var reply := ReplyTo(h, link, CommandOf(h, CMD_GET_APP_STATUS, [appId]));
    Step(if reply.err != CYRET_SUCCESS then StatusErr(h.checksum, reply, 9) else ReplyErr(reply, 2),
         Command(h, link, CMD_GET_APP_STATUS, [appId], 2).host)
  }

  /** `CyBtldr_VerifyApplication`. */
  function VerifyApplication(h: Host, link: Link): Step
  {
    var asked := Command(h, link, CMD_VERIFY_CHECKSUM, [], 1);
    if asked.err == CYRET_SUCCESS && Data(h, link, CMD_VERIFY_CHECKSUM, [], 0) == 0
    then Step(CYRET_ERR_CHECKSUM, asked.host)
    else asked
  }

  /** `CyBtldr_EndBootloadOperation`; its caller ignores how it ends. */
  function End(h: Host, link: Link): Host
  {
    var exit := Write(FrameOf(h.checksum, CMD_EXIT_BOOTLOADER, []));
    var written := Ask(h, link, exit);
    if ReplyTo(h, link, exit).err != CYRET_SUCCESS then written else Ask(written, link, Close)
  }

  /** The loop over the data lines; `aborts` says whether an abort has been asked for by then. */
  function RunRows(h: Host, link: Link, action: Action, f: File, aborts: nat -> bool, i: nat): Step
    requires Usable(link)
    decreases |f.content|
  {
    if aborts(i) then Step(CYRET_ABORT, h)
    else
      match NextLine(f)
      case NoLine(err) => Step(if err == CYRET_ERR_EOF then CYRET_SUCCESS else err, h)
      case Line(text, rest) =>
        var done := ProcessDataRow(h, link, action, text);
        if done.err != CYRET_SUCCESS then done else RunRows(done.host, link, action, rest, aborts, i + 1)
  }

  const INVALID_APP: Byte := 0xFF

  /** The application number of the bootloader: 1 and 2 become 0 and 1, everything else is invalid. */
  function AppOf(appId: Byte): Byte
  {
    if 1 <= appId <= 2 then appId - 1 else INVALID_APP
  }

  /** Entering, and for a multi-application bootloader the check that the target is not running. */
  function Begin(h: Host, link: Link, action: Action, header: Header, app: Byte, key: seq<Byte>): Step
  {
    var started := Start(h, link, header, key);
    if started.err != CYRET_SUCCESS || app == INVALID_APP then started
    else
      var status := GetAppStatus(started.host, link, app);
      if status.err == CYRET_SUCCESS && action != VERIFY && Data(started.host, link, CMD_GET_APP_STATUS, [app], 1) != 0
      then Step(CYRET_ERR_ACTIVE, status.host)
      else status
  }

  /** What follows the last row. */
  function Conclude(h: Host, link: Link, action: Action, app: Byte): Step
  {
    if action == PROGRAM && app != INVALID_APP then
      var status := GetAppStatus(h, link, app);
      if status.err == CYRET_SUCCESS then
        if Data(h, link, CMD_GET_APP_STATUS, [app], 0) == 0
        then Command(status.host, link, CMD_SET_ACTIVE_APP, [app], 0)
        else Step(CYRET_ERR_CHECKSUM, status.host)
      else if status.err == CYRET_ERR_BTLDR_MASK + CYBTLDR_STAT_ERR_CMD then Step(CYRET_SUCCESS, status.host)
      else status
    else if action == PROGRAM || action == VERIFY then VerifyApplication(h, link)
    else Step(CYRET_SUCCESS, h)
  }

  /** How a session ends that has got as far as `r` before its conclusion. */
  function Finish(r: Step, link: Link, action: Action, app: Byte): Step
  {
    if r.err == CYRET_SUCCESS then
      var concluded := Conclude(r.host, link, action, app);
      if concluded.err == UNDEFINED then concluded else Step(concluded.err, End(concluded.host, link))
    else if r.err == UNDEFINED || HasCommBit(r.err) then r
    else Step(r.err, End(r.host, link))
  }

  function ChecksumKind(checksumType: Byte): ChecksumType
  {
    if checksumType == 1 then CrcChecksumType else SumChecksumType
  }

  /** `RunAction_v0`. */
  function RunAction(h: Host, link: Link, action: Action, line: Text, f: File, appId: Byte, key: seq<Byte>,
                     aborts: nat -> bool): Step
    requires Usable(link)
  {
    match ParseHeader(line)
    case HeaderError(err) => Step(err, h)
    case HeaderOK(header) =>
      var begun := Begin(h.(checksum := ChecksumKind(header.checksumType)), link, action, header, AppOf(appId), key);
      var rows := if begun.err != CYRET_SUCCESS then begun else RunRows(begun.host, link, action, f, aborts, 0);
      Finish(rows, link, action, AppOf(appId))
  }

  /** A whole file with the name extension `.cyacd`: the first line is the header and may not be empty. */
  function RunFile(h: Host, link: Link, action: Action, content: Text, appId: Byte, key: seq<Byte>,
                   aborts: nat -> bool): Step
    requires Usable(link)
  {
    match NextLine(File(content, false))
    case NoLine(err) => Step(err, h)
    case Line(line, rest) =>
      if line == [] then Step(CYRET_ERR_FILE, h)
      else RunAction(h, link, action, line, rest, appId, key, aborts)
  }
}
