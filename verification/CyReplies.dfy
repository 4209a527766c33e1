/**
  Which packets the host takes for sound, which replies for an acknowledgement and which rows for valid; and with
  which code a session fails, step by step.
 */
module CyReplies {
  import opened Bytes
  import opened CyErrors
  import opened CyParse
  import opened CyFile
  import opened CyFrames
  import opened CyHost

  // ---------- Sound packets ----------

  /** A frame with this code and some data stands at the front of `packet`. */
  ghost predicate StartsWithFrame(kind: ChecksumType, packet: seq<Byte>, code: Byte)
  {
    exists payload: seq<Byte> :: |payload| < 0x1_0000 && FrameOf(kind, code, payload) <= packet
  }

  lemma FrameFront(kind: ChecksumType, packet: seq<Byte>, code: Byte, n: nat)
    requires n < 0x1_0000 && n + BASE_CMD_SIZE <= |packet|
    ensures FrameOf(kind, code, packet[4..n + 4]) <= packet
       <==> && packet[0] == CMD_START && packet[1] == code && [packet[2], packet[3]] == LittleEndian(n)
            && [packet[n + 4], packet[n + 5]] == LittleEndian(Checksum16(kind, packet[..n + 4]))
            && packet[n + 6] == CMD_STOP
  {
    hide Checksum16, LittleEndian;
    var payload := packet[4..n + 4];
    var head, frame := FrameHead(code, payload), FrameOf(kind, code, payload);
    TwoBytes(n);
    TwoBytes(Checksum16(kind, head));
    assert |frame| == n + 7;
    if frame <= packet {
      assert packet[..n + 4] == frame[..n + 4] == head;
      assert frame[2] == LittleEndian(n)[0] && frame[3] == LittleEndian(n)[1];
      assert frame[n + 4] == LittleEndian(Checksum16(kind, head))[0];
      assert frame[n + 5] == LittleEndian(Checksum16(kind, head))[1];
    }
    if && packet[0] == CMD_START && packet[1] == code && [packet[2], packet[3]] == LittleEndian(n)
       && [packet[n + 4], packet[n + 5]] == LittleEndian(Checksum16(kind, packet[..n + 4])) && packet[n + 6] == CMD_STOP
    {
      assert packet[..n + 4] == [packet[0], packet[1]] + [packet[2], packet[3]] + payload == head;
      assert packet[..n + 7] == packet[..n + 4] + [packet[n + 4], packet[n + 5]] + [packet[n + 6]] == frame;
    }
  }

  lemma TwoBytes(n: nat)
    ensures |LittleEndian(n)| == 2
  {
  }

  lemma BytesUnique(lo: Byte, hi: Byte, n: nat)
    requires n < 0x1_0000
    ensures ReadLittleEndian(lo, hi) == n <==> [lo, hi] == LittleEndian(n)
  {
  }

  lemma StatusFront(kind: ChecksumType, packet: seq<Byte>, size: nat, code: Byte, n: nat)
    requires size >= BASE_CMD_SIZE && |packet| >= BASE_CMD_SIZE && n < 0x1_0000
    requires ReadLittleEndian(packet[2], packet[3]) == n
    ensures TryParseStatus(kind, packet, size) == Some(code)
       <==> n + BASE_CMD_SIZE <= |packet| && FrameOf(kind, code, packet[4..n + 4]) <= packet
  {
    hide Checksum16, LittleEndian, FrameOf;
    if n + BASE_CMD_SIZE <= |packet| {
      FrameFront(kind, packet, code, n);
      BytesUnique(packet[2], packet[3], n);
      BytesUnique(packet[n + 4], packet[n + 5], Checksum16(kind, packet[..n + 4]));
    }
  }

  lemma StatusStarts(kind: ChecksumType, packet: seq<Byte>, size: nat, code: Byte)
    requires size >= BASE_CMD_SIZE && TryParseStatus(kind, packet, size) == Some(code)
    ensures StartsWithFrame(kind, packet, code)
  {
    hide Checksum16, LittleEndian, FrameOf, TryParseStatus;
    LongEnough(kind, packet, size);
    var n: nat := ReadLittleEndian(packet[2], packet[3]);
    StatusFront(kind, packet, size, code, n);
    assert |packet[4..n + 4]| < 0x1_0000 && FrameOf(kind, code, packet[4..n + 4]) <= packet;
  }

  lemma StartIsStatus(kind: ChecksumType, packet: seq<Byte>, size: nat, code: Byte, payload: seq<Byte>)
    requires size >= BASE_CMD_SIZE && |payload| < 0x1_0000 && FrameOf(kind, code, payload) <= packet
    ensures TryParseStatus(kind, packet, size) == Some(code)
  {
    hide Checksum16, LittleEndian, FrameOf, TryParseStatus, ReadLittleEndian;
    FrameLength(kind, code, payload, packet);
    StatusFront(kind, packet, size, code, |payload|);
  }

  /**
    A packet is sound, with its code or status, exactly if a frame with that code and the right length and checksum
    stands at its front.
   */
  lemma StatusIff(kind: ChecksumType, packet: seq<Byte>, size: nat, code: Byte)
    requires size >= BASE_CMD_SIZE
    ensures TryParseStatus(kind, packet, size) == Some(code) <==> StartsWithFrame(kind, packet, code)
  {
    hide FrameOf, TryParseStatus;
    if TryParseStatus(kind, packet, size) == Some(code) {
      StatusStarts(kind, packet, size, code);
    }
    if payload: seq<Byte> :| |payload| < 0x1_0000 && FrameOf(kind, code, payload) <= packet {
      StartIsStatus(kind, packet, size, code, payload);
    }
  }

  lemma LongEnough(kind: ChecksumType, packet: seq<Byte>, size: nat)
    ensures TryParseStatus(kind, packet, size).Some? ==>
              |packet| >= BASE_CMD_SIZE && ReadLittleEndian(packet[2], packet[3]) + BASE_CMD_SIZE <= |packet|
  {
    hide Checksum16;
  }

  /** The length field of a frame says how long its data are. */
  lemma FrameLength(kind: ChecksumType, code: Byte, payload: seq<Byte>, packet: seq<Byte>)
    requires |payload| < 0x1_0000 && FrameOf(kind, code, payload) <= packet
    ensures |packet| >= BASE_CMD_SIZE + |payload| && packet[4..|payload| + 4] == payload
    ensures ReadLittleEndian(packet[2], packet[3]) == |payload|
  {
    hide Checksum16;
    var frame := FrameOf(kind, code, payload);
    LittleEndianRead(|payload|);
    assert frame[2] == LittleEndian(|payload|)[0] && frame[3] == LittleEndian(|payload|)[1];
    assert frame[4..|payload| + 4] == payload && packet[..|frame|] == frame;
  }

  // ---------- Replies ----------

  /** The reply to a command as it should look, but for its two checksum bytes. */
  ghost predicate WellFormed(buf: seq<Byte>, n: nat)
  {
    exists data: seq<Byte>, c1: Byte, c2: Byte ::
      |data| == n && [CMD_START, 0] + LittleEndian(n) + data + [c1, c2, CMD_STOP] <= buf
  }

  /**
    A transfer is an acknowledgement exactly if it has not failed and a well-formed reply with as much data as
    expected stands in the buffer.  The checksum of a reply is not looked at.
   */
  lemma AcknowledgedIff(reply: Reply, n: nat)
    requires n < 256
    ensures ReplyErr(reply, n) == CYRET_SUCCESS <==> reply.err == CYRET_SUCCESS && WellFormed(reply.buf, n)
  {
    var buf := reply.buf;
    if ReplyErr(reply, n) == CYRET_SUCCESS {
      var data := buf[4..n + 4];
      var frame := [CMD_START, 0] + LittleEndian(n) + data + [buf[n + 4], buf[n + 5], CMD_STOP];
      assert frame == buf[..n + 7];
    }
    if WellFormed(buf, n) {
      var data: seq<Byte>, c1: Byte, c2: Byte :|
        |data| == n && [CMD_START, 0] + LittleEndian(n) + data + [c1, c2, CMD_STOP] <= buf;
      var frame := [CMD_START, 0] + LittleEndian(n) + data + [c1, c2, CMD_STOP];
      assert |frame| == n + 7 && frame[n + 6] == CMD_STOP;
      assert frame[0] == CMD_START && frame[1] == 0 && frame[2] == n && frame[3] == 0;
      assert forall k :: 0 <= k < |frame| ==> buf[k] == frame[k];
    }
  }

  /** Otherwise the error says why: a failed transfer, the device's status, or a malformed reply. */
  lemma RefusedWhy(reply: Reply, n: nat)
    requires n < 256
    ensures reply.err != CYRET_SUCCESS ==> ReplyErr(reply, n) == WithCommBit(reply.err)
    ensures reply.err == CYRET_SUCCESS && reply.buf[1] != 0 ==> ReplyErr(reply, n) == 0x4000 + reply.buf[1] as int
    ensures reply.err == CYRET_SUCCESS && reply.buf[1] == 0 && !WellFormed(reply.buf, n) ==> ReplyErr(reply, n) == 4
  {
    AcknowledgedIff(reply, n);
  }

  /** The rows from `first` to `last`, as the device reports them, are valid, and no others. */
  lemma RangeIff(reply: Reply, first: nat, last: nat, rowNum: nat)
    requires first < 0x1_0000 && last < 0x1_0000 && reply.buf[4..8] == LittleEndian(first) + LittleEndian(last)
    ensures RowErr(Geometry(reply), rowNum) == if first <= rowNum <= last then CYRET_SUCCESS else CYRET_ERR_ROW
  {
    LittleEndianRead(first);
    LittleEndianRead(last);
    var four := reply.buf[4..8];
    assert four[0] == reply.buf[4] && four[1] == reply.buf[5] && four[2] == reply.buf[6] && four[3] == reply.buf[7];
    assert ReadLittleEndian(four[0], four[1]) == first && ReadLittleEndian(four[2], four[3]) == last;
    assert Geometry(reply) == first * 0x1_0000 + last;
    Halves(first, last);
  }

  lemma Halves(hi: nat, lo: nat)
    requires lo < 0x1_0000
    ensures (hi * 0x1_0000 + lo) / 0x1_0000 == hi && (hi * 0x1_0000 + lo) % 0x1_0000 == lo
  {
  }

  // ---------- How a step fails ----------

  /** A length of 505 is the largest whose stop byte lies in the buffer. */
  lemma BeyondIff(buf: seq<Byte>, n: nat)
    requires |buf| == MAX_COMMAND_SIZE && n < 0x1_0000 && [buf[2], buf[3]] == LittleEndian(n)
    ensures LooksBeyond(buf) <==> buf[0] == 1 && n >= 506
  {
    BytesUnique(buf[2], buf[3], n);
  }

  /** After a failed transfer: the status of a sound packet in the buffer decides, else the transfer's own code. */
  lemma FailedTransfer(kind: ChecksumType, reply: Reply, size: nat)
    requires size >= BASE_CMD_SIZE && !LooksBeyond(reply.buf)
    ensures forall code: Byte :: StartsWithFrame(kind, reply.buf, code) ==>
              StatusErr(kind, reply, size) == 0x4000 + code as int
    ensures (forall code: Byte :: !StartsWithFrame(kind, reply.buf, code)) ==>
              StatusErr(kind, reply, size) == WithCommBit(reply.err)
  {
    hide TryParseStatus, StartsWithFrame, LooksBeyond;
    forall code: Byte ensures StartsWithFrame(kind, reply.buf, code) <==>
                                TryParseStatus(kind, reply.buf, size) == Some(code)
    {
      StatusIff(kind, reply.buf, size, code);
    }
  }

  /** An acknowledged entry: a wrong silicon id or revision is noticed first, then a wrong version. */
  lemma EntryOutcome(kind: ChecksumType, reply: Reply, expected: Header)
    requires ReplyErr(reply, 8) == CYRET_SUCCESS
    ensures EnterErr(kind, reply, expected) ==
            if SiliconId(reply) != expected.siliconId || reply.buf[8] != expected.siliconRev then 0x06
            else if reply.buf[11] != 1 then 0x07
            else 0
  {
    hide ReplyOK, SiliconId;
  }

  /** A failed entry: what the buffer looks like decides, whatever the size expected. */
  lemma EntryFails(kind: ChecksumType, reply: Reply, expected: Header)
    requires reply.err != CYRET_SUCCESS
    ensures LooksBeyond(reply.buf) ==> EnterErr(kind, reply, expected) == UNDEFINED
    ensures forall code: Byte :: !LooksBeyond(reply.buf) && StartsWithFrame(kind, reply.buf, code) ==>
              EnterErr(kind, reply, expected) == 0x4000 + code as int
    ensures !LooksBeyond(reply.buf) && (forall code: Byte :: !StartsWithFrame(kind, reply.buf, code)) ==>
              EnterErr(kind, reply, expected) == WithCommBit(reply.err)
  {
    hide StartsWithFrame, LooksBeyond, ReplyOK;
    if !LooksBeyond(reply.buf) {
      FailedTransfer(kind, reply, 15);
    }
  }

  /** The state of an application, acknowledged or not. */
  lemma AppStatusOutcome(h: Host, link: Link, app: Byte)
    ensures var reply, r := ReplyTo(h, link, CommandOf(h, CMD_GET_APP_STATUS, [app])), GetAppStatus(h, link, app);
            && (reply.err == CYRET_SUCCESS ==> r.err == ReplyErr(reply, 2))
            && (reply.err != CYRET_SUCCESS && LooksBeyond(reply.buf) ==> r.err == UNDEFINED)
            && (forall code: Byte ::
                  reply.err != CYRET_SUCCESS && !LooksBeyond(reply.buf)
                  && StartsWithFrame(h.checksum, reply.buf, code) ==>
                    r.err == 0x4000 + code as int)
            && (reply.err != CYRET_SUCCESS && !LooksBeyond(reply.buf)
                && (forall code: Byte :: !StartsWithFrame(h.checksum, reply.buf, code)) ==>
                  r.err == WithCommBit(reply.err))
  {
    hide StartsWithFrame, LooksBeyond, FrameOf, ReplyErr;
    var reply := ReplyTo(h, link, CommandOf(h, CMD_GET_APP_STATUS, [app]));
    if !LooksBeyond(reply.buf) {
      FailedTransfer(h.checksum, reply, 9);
    }
  }

  /** An application that is running is not touched, but may be verified. */
  lemma RunningTarget(h: Host, link: Link, action: Action, header: Header, app: Byte, key: seq<Byte>)
    requires app != 0xFF && Start(h, link, header, key).err == CYRET_SUCCESS
    requires var s := Start(h, link, header, key).host;
             ReplyErr(ReplyTo(s, link, CommandOf(s, CMD_GET_APP_STATUS, [app])), 2) == CYRET_SUCCESS
    ensures var s := Start(h, link, header, key).host;
            var running := ReplyTo(s, link, CommandOf(s, CMD_GET_APP_STATUS, [app])).buf[5] != 0;
            Begin(h, link, action, header, app, key).err
            == if running && (action == PROGRAM || action == ERASE) then 0x0C else 0
  {
    hide FrameOf, ReplyOK, Start;
  }

  /** A programmed application is made the active one if its flag reads 0, and is a failure otherwise. */
  lemma ProgrammedTarget(h: Host, link: Link, app: Byte)
    requires app != 0xFF
    requires ReplyErr(ReplyTo(h, link, CommandOf(h, CMD_GET_APP_STATUS, [app])), 2) == CYRET_SUCCESS
    ensures var flag := ReplyTo(h, link, CommandOf(h, CMD_GET_APP_STATUS, [app])).buf[4];
            var asked := GetAppStatus(h, link, app).host;
            Conclude(h, link, PROGRAM, app)
            == if flag == 0 then Command(asked, link, CMD_SET_ACTIVE_APP, [app], 0) else Step(0x08, asked)
  {
    hide FrameOf, ReplyOK;
  }

  /** A device that does not know the request has one application, and the session succeeds. */
  lemma SingleApplication(h: Host, link: Link, app: Byte)
    requires app != 0xFF && GetAppStatus(h, link, app).err == 0x4005
    ensures Conclude(h, link, PROGRAM, app) == Step(0, GetAppStatus(h, link, app).host)
  {
    hide GetAppStatus;
  }

  /** A checksum that is not the expected one, and an application the device calls invalid. */
  lemma WrongChecksum(h: Host, link: Link, row: Row, checksum: Byte)
    requires CheckRow(h, link, row.arrayId, row.rowNum).err == CYRET_SUCCESS
    requires var c := CheckRow(h, link, row.arrayId, row.rowNum).host;
             Command(c, link, CMD_GET_ROW_CHECKSUM, RowId(row.arrayId, row.rowNum), 1).err == CYRET_SUCCESS
    ensures var c := CheckRow(h, link, row.arrayId, row.rowNum).host;
            var reported := ReplyTo(c, link, CommandOf(c, CMD_GET_ROW_CHECKSUM, RowId(row.arrayId, row.rowNum))).buf[4];
            VerifyRow(h, link, row.arrayId, row.rowNum, checksum).err == if reported == checksum then 0 else 0x08
  {
    hide FrameOf, ReplyErr, CheckRow;
  }

  lemma InvalidApplication(h: Host, link: Link)
    requires Command(h, link, CMD_VERIFY_CHECKSUM, [], 1).err == CYRET_SUCCESS
    ensures var reported := ReplyTo(h, link, CommandOf(h, CMD_VERIFY_CHECKSUM, [])).buf[4];
            VerifyApplication(h, link).err == if reported != 0 then 0 else 0x08
  {
    hide FrameOf, ReplyErr;
  }

  /** An abort asked for before a line stops the loop there, with nothing more sent. */
  lemma AbortStops(h: Host, link: Link, action: Action, f: File, aborts: nat -> bool, i: nat)
    requires Usable(link) && aborts(i)
    ensures RunRows(h, link, action, f, aborts, i) == Step(0xFF, h)
  {
  }
}
