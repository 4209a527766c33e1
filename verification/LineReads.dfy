/**
  What the line splitter does with a stream that arrives in reads.  Between reads it keeps the unfinished line
  in a buffer of 255 characters; whether that line has already been found too long it forgets.
 */
module LineReads {
  import opened Bytes
  import opened Hex
  import opened LineFraming

  /**
    The characters stored, the lines queued, the flag of `parse_packets`, and whether a line end has been
    stored one past the buffer, after which nothing is known.
   */
  datatype Read = Read(pending: Text, lines: seq<Text>, valid: bool, overrun: bool)

  function Step(r: Read, c: Byte): Read
  {
    if r.overrun then r
    else if EndsLine(c) then
      if !r.valid then Read([], r.lines, true, false)
      else if |r.pending| >= IN_BUFFER_SIZE then r.(overrun := true)
      else Read([], r.lines + [r.pending], true, false)
    else if |r.pending| < IN_BUFFER_SIZE then r.(pending := r.pending + [c])
    else r.(valid := false)
  }

  function Steps(r: Read, data: Text): Read
  {
    if data == [] then r else Step(Steps(r, data[..|data| - 1]), data[|data| - 1])
  }

  /** One read: the flag starts out true again, and a zero byte ends the read. */
  function ReadOne(r: Read, input: Text): Read
  {
    Steps(r.(valid := true), BeforeZero(input))
  }

  function ReadAll(r: Read, inputs: seq<Text>): Read
  {
    if inputs == [] then r else ReadOne(ReadAll(r, inputs[..|inputs| - 1]), inputs[|inputs| - 1])
  }

  const NOTHING_READ := Read([], [], true, false)

  // ---------- The plain definition ----------

  /** The stream as far as it is looked at. */
  function Heard(inputs: seq<Text>): Text
  {
    if inputs == [] then [] else Heard(inputs[..|inputs| - 1]) + BeforeZero(inputs[|inputs| - 1])
  }

  /** The lines that leave room for the terminating zero. */
  function Short(lines: seq<Text>): seq<Text>
  {
    if lines == [] then []
    else
      var last := lines[|lines| - 1];
      Short(lines[..|lines| - 1]) + if |last| < IN_BUFFER_SIZE then [last] else []
  }

  function Capped(line: Text): Text
  {
    if |line| <= IN_BUFFER_SIZE then line else line[..IN_BUFFER_SIZE]
  }

  /** The plain definition after the reads `inputs`: all lines, however long. */
  function Plainly(inputs: seq<Text>): Split
  {
    FeedAll(Split([], []), Heard(inputs))
  }

  /** The character at `k` of a read ends a line that the buffer has no room to end. */
  predicate EndsBadly(s: Split, data: Text, k: nat)
    requires k < |data|
  {
    var p := |FeedAll(s, data[..k]).pending|;
    EndsLine(data[k]) && (p == IN_BUFFER_SIZE || (p > IN_BUFFER_SIZE && k == 0))
  }

  ghost predicate Overruns(s: Split, data: Text)
  {
    exists k :: 0 <= k < |data| && EndsBadly(s, data, k)
  }

  /**
    Some line of exactly 255 characters ends, or a longer one ends at the very start of a read, where it is
    forgotten that it is too long.
   */
  ghost predicate OverrunsIn(inputs: seq<Text>)
  {
    exists i :: 0 <= i < |inputs| && Overruns(Plainly(inputs[..i]), BeforeZero(inputs[i]))
  }

  // ---------- One read ----------

  /** The splitter stands where the plain definition stands, but for what is too long. */
  ghost predicate Follows(r: Read, s: Split)
  {
    !r.overrun && r.pending == Capped(s.pending) && r.lines == Short(s.lines)
  }

  /** Within a read, the flag is down exactly when the last character was one too many. */
  ghost predicate FlagTells(r: Read, s: Split, k: nat)
  {
    r.valid <==> k == 0 || |s.pending| <= IN_BUFFER_SIZE
  }

  lemma StepFollows(r: Read, s: Split, c: Byte, k: nat)
    requires Follows(r, s) && FlagTells(r, s, k)
    ensures var p := |s.pending|;
            (Step(r, c).overrun <==> EndsLine(c) && (p == IN_BUFFER_SIZE || (p > IN_BUFFER_SIZE && k == 0)))
    ensures !Step(r, c).overrun ==> Follows(Step(r, c), Feed(s, c)) && FlagTells(Step(r, c), Feed(s, c), k + 1)
  {
    var lines := s.lines + [s.pending];
    assert lines[..|s.lines|] == s.lines;
  }

  lemma StepStuck(r: Read, c: Byte)
    requires r.overrun
    ensures Step(r, c).overrun
  {
  }

  lemma OverrunsMore(s: Split, data: Text)
    requires data != []
    ensures Overruns(s, data) <==> Overruns(s, data[..|data| - 1]) || EndsBadly(s, data, |data| - 1)
  {
    var front := data[..|data| - 1];
    forall k | 0 <= k < |front| ensures EndsBadly(s, front, k) <==> EndsBadly(s, data, k) {
      assert front[..k] == data[..k];
    }
  }

  /** A read overruns the buffer exactly when a line end in it finds no room; otherwise it follows. */
  lemma {:induction false} ReadFollows(r: Read, s: Split, data: Text)
    requires Follows(r, s) && r.valid
    ensures Steps(r, data).overrun <==> Overruns(s, data)
    ensures !Steps(r, data).overrun ==>
            Follows(Steps(r, data), FeedAll(s, data)) && FlagTells(Steps(r, data), FeedAll(s, data), |data|)
  {
    hide Follows, FlagTells, Feed, Step, EndsBadly;
    if data != [] {
      var k := |data| - 1;
      ReadFollows(r, s, data[..k]);
      OverrunsMore(s, data);
      var before := Steps(r, data[..k]);
      if before.overrun {
        StepStuck(before, data[k]);
      } else {
        StepFollows(before, FeedAll(s, data[..k]), data[k], k);
        assert EndsBadly(s, data, k) <==> Step(before, data[k]).overrun by { BadlyIs(s, data, k); }
      }
    } else {
      NothingRead(r, s);
    }
  }

  lemma BadlyIs(s: Split, data: Text, k: nat)
    requires k < |data|
    ensures var p := |FeedAll(s, data[..k]).pending|;
            (EndsBadly(s, data, k) <==> EndsLine(data[k]) && (p == IN_BUFFER_SIZE || (p > IN_BUFFER_SIZE && k == 0)))
  {
  }

  lemma NothingRead(r: Read, s: Split)
    requires Follows(r, s) && r.valid
    ensures Steps(r, []) == r && FeedAll(s, []) == s && FlagTells(r, s, 0) && !Overruns(s, []) && !r.overrun
  {
  }

  lemma RaiseFlag(r: Read, s: Split)
    requires Follows(r, s)
    ensures Follows(r.(valid := true), s)
  {
  }

  // ---------- Many reads ----------

  /**
    Whatever the stream and however it is cut: the buffer is overrun exactly if a line of 255 characters
    ends, or a longer one at the start of a read; and if it is not, the queue holds exactly the lines of at
    most 254 characters, in order, and the buffer what fits of the unfinished one.
   */
  lemma {:induction false} ReadsFollow(inputs: seq<Text>)
    ensures ReadAll(NOTHING_READ, inputs).overrun <==> OverrunsIn(inputs)
    ensures !ReadAll(NOTHING_READ, inputs).overrun ==> Follows(ReadAll(NOTHING_READ, inputs), Plainly(inputs))
  {
    hide Follows, Steps, Overruns, Feed, FeedAll;
    if inputs == [] {
      assert Follows(NOTHING_READ, Plainly([])) by { NothingFollows(); }
    } else {
      var k := |inputs| - 1;
      var front, before := inputs[..k], ReadAll(NOTHING_READ, inputs[..k]);
      ReadsFollow(front);
      OverrunsLater(inputs);
      if before.overrun {
        StaysStuck(before.(valid := true), BeforeZero(inputs[k]));
      } else {
        RaiseFlag(before, Plainly(front));
        ReadFollows(before.(valid := true), Plainly(front), BeforeZero(inputs[k]));
        FeedAllAppend(Split([], []), Heard(front), BeforeZero(inputs[k]));
      }
    }
  }

  lemma NothingFollows()
    ensures Follows(NOTHING_READ, Plainly([]))
  {
  }

  lemma {:induction false} StaysStuck(r: Read, data: Text)
    requires r.overrun
    ensures Steps(r, data).overrun
  {
    if data != [] {
      StaysStuck(r, data[..|data| - 1]);
    }
  }

  lemma OverrunsLater(inputs: seq<Text>)
    requires inputs != []
    ensures var k := |inputs| - 1;
            (OverrunsIn(inputs) <==> OverrunsIn(inputs[..k]) || Overruns(Plainly(inputs[..k]), BeforeZero(inputs[k])))
  {
    hide Overruns, Plainly;
    var front := inputs[..|inputs| - 1];
    forall i | 0 <= i < |front| ensures front[..i] == inputs[..i] && front[i] == inputs[i] {
    }
    if i :| 0 <= i < |front| && Overruns(Plainly(front[..i]), BeforeZero(front[i])) {
      assert Overruns(Plainly(inputs[..i]), BeforeZero(inputs[i]));
    }
  }

  // ---------- Streams whose lines fit ----------

  lemma FitsJoin(s: Split, a: Text, b: Text)
    requires Fits(s, a) && Fits(FeedAll(s, a), b)
    ensures Fits(s, a + b)
  {
    forall k | 0 <= k <= |a + b| ensures |FeedAll(s, (a + b)[..k]).pending| < IN_BUFFER_SIZE {
      if k <= |a| {
        assert (a + b)[..k] == a[..k];
      } else {
        assert (a + b)[..k] == a + b[..k - |a|];
        FeedAllAppend(s, a, b[..k - |a|]);
      }
    }
  }

  lemma {:induction false} FittingLinesAreShort(s: Split, data: Text)
    requires Fits(s, data) && Short(s.lines) == s.lines
    ensures Short(FeedAll(s, data).lines) == FeedAll(s, data).lines
  {
    if data != [] {
      var front := data[..|data| - 1];
      forall k | 0 <= k <= |front| ensures |FeedAll(s, front[..k]).pending| < IN_BUFFER_SIZE {
        assert front[..k] == data[..k];
      }
      FittingLinesAreShort(s, front);
      var before := FeedAll(s, front);
      assert |before.pending| < IN_BUFFER_SIZE by { assert data[..|front|] == front; }
      assert (before.lines + [before.pending])[..|before.lines|] == before.lines;
    }
  }

  /** Lines of at most 254 characters arrive complete and in order, however the stream is cut. */
  lemma CutsDoNotMatter(inputs: seq<Text>)
    requires Fits(Split([], []), Heard(inputs))
    ensures var r := ReadAll(NOTHING_READ, inputs);
            !r.overrun && r.pending == Plainly(inputs).pending && r.lines == Plainly(inputs).lines
  {
    hide FeedAll, Short, Heard, OverrunsIn, ReadAll, Fits;
    var none := Split([], []);
    ReadsFollow(inputs);
    FittingNeverOverruns(inputs);
    FittingLinesAreShort(none, Heard(inputs)) by { NoLines(); }
    LastFits(none, Heard(inputs));
  }

  lemma NoLines()
    ensures Short([]) == []
  {
  }

  lemma LastFits(s: Split, data: Text)
    requires Fits(s, data)
    ensures |FeedAll(s, data).pending| < IN_BUFFER_SIZE
  {
    assert data[..|data|] == data;
  }

  lemma FittingNeverOverruns(inputs: seq<Text>)
    requires Fits(Split([], []), Heard(inputs))
    ensures !OverrunsIn(inputs)
  {
    hide Overruns, Plainly, Fits, Heard;
    if i :| 0 <= i < |inputs| && Overruns(Plainly(inputs[..i]), BeforeZero(inputs[i])) {
      FittingReadNeverOverruns(inputs, i);
    }
  }

  lemma FittingReadNeverOverruns(inputs: seq<Text>, i: nat)
    requires i < |inputs| && Fits(Split([], []), Heard(inputs))
    ensures !Overruns(Plainly(inputs[..i]), BeforeZero(inputs[i]))
  {
    hide FeedAll, Heard, BeforeZero;
    var data := BeforeZero(inputs[i]);
    if k :| 0 <= k < |data| && EndsBadly(Plainly(inputs[..i]), data, k) {
      var part := Heard(inputs[..i]) + data[..k];
      FeedAllAppend(Split([], []), Heard(inputs[..i]), data[..k]);
      HeardPart(inputs, i, k);
      assert Heard(inputs)[..|part|] == part;
    }
  }

  /** What was heard up to a place in read `i` is a part of what was heard. */
  lemma {:induction false} HeardPart(inputs: seq<Text>, i: nat, k: nat)
    requires i < |inputs| && k <= |BeforeZero(inputs[i])|
    ensures Heard(inputs[..i]) + BeforeZero(inputs[i])[..k] <= Heard(inputs)
    decreases |inputs|
  {
    var front := inputs[..|inputs| - 1];
    if i < |front| {
      HeardPart(front, i, k);
      assert front[..i] == inputs[..i];
    }
  }

  // ---------- Lines that do not fit ----------

  /** A line of exactly 255 characters always overruns the buffer, however it is cut. */
  lemma LineOf255(inputs: seq<Text>, line: Text)
    requires |line| == 255 && LF !in line && CR !in line && Heard(inputs) == line + [LF]
    ensures ReadAll(NOTHING_READ, inputs).overrun
  {
    hide FeedAll, Short;
    var none := Split([], []);
    ReadsFollow(inputs);
    FeedText(none, line);
    FeedAllAppend(none, line, [LF]);
    var i, k := LastHeard(inputs);
    assert Heard(inputs[..i]) + BeforeZero(inputs[i])[..k] == line;
    FeedAllAppend(none, Heard(inputs[..i]), BeforeZero(inputs[i])[..k]);
    assert none.pending + line == line;
    assert EndsBadly(Plainly(inputs[..i]), BeforeZero(inputs[i]), k);
  }

  /** The read and the place of the last character heard. */
  lemma {:induction false} LastHeard(inputs: seq<Text>) returns (i: nat, k: nat)
    requires Heard(inputs) != []
    ensures i < |inputs| && k < |BeforeZero(inputs[i])|
    ensures Heard(inputs[..i]) + BeforeZero(inputs[i])[..k] == Heard(inputs)[..|Heard(inputs)| - 1]
    ensures BeforeZero(inputs[i])[k] == Heard(inputs)[|Heard(inputs)| - 1]
  {
    var last := |inputs| - 1;
    if BeforeZero(inputs[last]) == [] {
      i, k := LastHeard(inputs[..last]);
      assert inputs[..last][..i] == inputs[..i];
    } else {
      i, k := last, |BeforeZero(inputs[last])| - 1;
    }
  }

  /** 256 characters: dropped cleanly if the last one and the line end are read together, an overrun if not. */
  lemma LineOf256(line: Text, x: Byte)
    requires |line| == 255 && LF !in line && CR !in line && 0 !in line && !EndsLine(x) && x != 0
    ensures ReadAll(NOTHING_READ, [line, [x, LF]]) == NOTHING_READ
    ensures ReadAll(NOTHING_READ, [line, [x], [LF]]).overrun
  {
    hide Steps, BeforeZero;
    AllHeard(line);
    AllHeard([x, LF]);
    AllHeard([x]);
    AllHeard([LF]);
    Stored(line);
    var full := Read(line, [], true, false);
    ReadThree(NOTHING_READ, line, [x], [LF]);
    assert ReadAll(NOTHING_READ, [line]) == full;
    assert ReadAll(NOTHING_READ, [line, [x, LF]]) == Steps(full, [x, LF]);
    TwoSteps(full, x, LF);
    OneStep(full, x);
    OneStep(full, LF);
  }

  lemma ReadThree(r: Read, a: Text, b: Text, c: Text)
    ensures ReadAll(r, [a]) == ReadOne(r, a)
    ensures forall b' :: ReadAll(r, [a, b']) == ReadOne(ReadOne(r, a), b')
    ensures ReadAll(r, [a, b, c]) == ReadOne(ReadOne(ReadOne(r, a), b), c)
  {
    hide ReadOne;
    assert [a][..0] == [] && [a, b, c][..2] == [a, b];
    assert ReadAll(r, [a]) == ReadOne(ReadAll(r, []), a);
    forall b' ensures ReadAll(r, [a, b']) == ReadOne(ReadOne(r, a), b') {
      assert [a, b'][..1] == [a] && [a, b'][1] == b';
    }
  }

  lemma OneStep(r: Read, c: Byte)
    ensures Steps(r, [c]) == Step(r, c)
  {
    assert [c][..0] == [];
  }

  lemma TwoSteps(r: Read, c: Byte, d: Byte)
    ensures Steps(r, [c, d]) == Step(Step(r, c), d)
  {
    OneStep(r, c);
    assert [c, d][..1] == [c];
  }

  lemma {:induction false} AllHeard(text: Text)
    requires 0 !in text
    ensures BeforeZero(text) == text
  {
    if text != [] {
      AllHeard(text[1..]);
    }
  }

  lemma {:induction false} Stored(text: Text)
    requires LF !in text && CR !in text && |text| <= IN_BUFFER_SIZE
    ensures Steps(NOTHING_READ, text) == Read(text, [], true, false)
  {
    if text != [] {
      Stored(text[..|text| - 1]);
      assert text[|text| - 1] in text;
    }
  }

  // ---------- Frames ----------

  lemma FrameFits(s: Split, body: Text)
    requires Plain(body) && s.pending == []
    ensures Fits(s, Frame(body))
  {
    var line := Line(body);
    assert LF !in line && CR !in line by {
      DigitRoundTrip(CrcByte(body) / 16);
      DigitRoundTrip(CrcByte(body) % 16);
    }
    forall k | 0 <= k <= |Frame(body)| ensures |FeedAll(s, Frame(body)[..k]).pending| < IN_BUFFER_SIZE {
      if k <= |line| {
        assert Frame(body)[..k] == line[..k];
        assert forall c :: c in line[..k] ==> c in line;
        FeedText(s, line[..k]);
      } else {
        assert Frame(body)[..k] == Frame(body);
        FrameIsOneLine(s, body);
      }
    }
  }

  /** Frames of bodies of up to 251 characters never overrun the receiver's buffer. */
  lemma {:induction false} FramesFit(bodies: seq<Text>)
    requires forall i :: 0 <= i < |bodies| ==> Plain(bodies[i])
    ensures Fits(Split([], []), Frames(bodies))
  {
    hide Frame, Plain, Line;
    var none := Split([], []);
    if bodies == [] {
      FeedNothing(none);
      assert Frames(bodies)[..0] == [];
    } else {
      var k := |bodies| - 1;
      FramesFit(bodies[..k]);
      FramesAreLines(bodies[..k]);
      FrameFits(FeedAll(none, Frames(bodies[..k])), bodies[k]);
      FitsJoin(none, Frames(bodies[..k]), Frame(bodies[k]));
    }
  }

  lemma {:induction false} NoZeroInFrames(bodies: seq<Text>)
    requires forall i :: 0 <= i < |bodies| ==> Plain(bodies[i])
    ensures 0 !in Frames(bodies)
  {
    if bodies != [] {
      var body := bodies[|bodies| - 1];
      NoZeroInFrames(bodies[..|bodies| - 1]);
      DigitRoundTrip(CrcByte(body) / 16);
      DigitRoundTrip(CrcByte(body) % 16);
    }
  }

  lemma {:induction false} HeardIsJoin(inputs: seq<Text>)
    requires 0 !in Join(inputs)
    ensures Heard(inputs) == Join(inputs)
  {
    if inputs != [] {
      var front, last := inputs[..|inputs| - 1], inputs[|inputs| - 1];
      assert forall c :: c in Join(front) || c in last ==> c in Join(inputs);
      HeardIsJoin(front);
      AllHeard(last);
    }
  }

  /**
    From sender to receiver: any responses, framed one after the other and cut into any reads, come out as
    exactly those responses, in order, each accepted with its address and body intact.
   */
  lemma ResponsesArrive(bodies: seq<Text>, inputs: seq<Text>)
    requires forall i :: 0 <= i < |bodies| ==> Plain(bodies[i])
    requires forall i :: 0 <= i < |bodies| ==> ResponseShaped(bodies[i])
    requires Join(inputs) == Frames(bodies)
    ensures var r := ReadAll(NOTHING_READ, inputs);
            && !r.overrun && r.pending == [] && |r.lines| == |bodies|
            && forall i :: 0 <= i < |bodies| ==>
                 |bodies[i]| >= 3 && Accept(r.lines[i]) == Some(Accepted(AddressOf(bodies[i]), bodies[i][3..]))
  {
    hide Accept, Line, ResponseShaped, Plain, FeedAll, ReadAll, Fits;
    NoZeroInFrames(bodies);
    HeardIsJoin(inputs);
    FramesFit(bodies);
    CutsDoNotMatter(inputs);
    FramesAreLines(bodies);
    forall i | 0 <= i < |bodies|
      ensures |bodies[i]| >= 3 && Accept(Line(bodies[i])) == Some(Accepted(AddressOf(bodies[i]), bodies[i][3..]))
    {
      ResponseAccepted(bodies[i]);
    }
  }
}
