/** The receiver's line splitter with its fixed buffer, and the loop that feeds it read by read. */
module LineSplitter {
  import opened Bytes
  import opened Hex
  import opened LineFraming
  import opened LineReads

  class Splitter {
    const packetBuffer: array<Byte>
    var ptr: nat
    var packetQueue: seq<Text>

    ghost predicate Valid()
      reads this, packetBuffer
    {
      packetBuffer.Length == IN_BUFFER_SIZE && ptr <= IN_BUFFER_SIZE && 0 !in packetBuffer[..ptr]
    }

    /** What is kept from one read to the next. */
    ghost function Kept(): Read
      requires Valid()
      reads this, packetBuffer
    {
      Read(packetBuffer[..ptr], packetQueue, true, false)
    }

    constructor ()
      ensures Valid() && Kept() == NOTHING_READ && fresh(packetBuffer)
    {
      packetBuffer := new Byte[IN_BUFFER_SIZE];
      ptr, packetQueue := 0, [];
    }

    /**
      One read of at most 255 bytes.  Where the original stores a terminating zero one past its buffer, this
      stops and reports `overrun`.
     */
    method ParsePackets(input: Text) returns (count: nat, overrun: bool)
      requires Valid() && |input| <= IN_BUFFER_SIZE
      modifies this, packetBuffer
      ensures Valid() && count == |packetQueue| - |old(packetQueue)| <= 255
      ensures overrun == ReadOne(old(Kept()), input).overrun
      ensures !overrun ==> Kept() == ReadOne(old(Kept()), input).(valid := true)
    {
      hide Step, BeforeZero;
      ghost var start := Kept();
      ghost var data := BeforeZero(input);
      var ind := 0;
      var valid := true;
      count, overrun := 0, false;
      while ind < |input|
        invariant ind <= |data| && count <= ind
        invariant Valid() && Kept().(valid := valid) == Steps(start, data[..ind])
        invariant count == |packetQueue| - |old(packetQueue)|
        decreases |input| - ind
      {
        var c := input[ind];
        if c == 0 {
          Zero(input, ind);
          assert data[..ind] == data;
          return;
        }
        NotZero(input, ind);
        assert data[..ind + 1][..ind] == data[..ind] && data[ind] == c;
        if c == LF || c == CR {
          EndStep(Kept().(valid := valid), c);
          if valid {
            if ptr >= IN_BUFFER_SIZE {
              overrun := true;
              StuckAfter(start, data, ind + 1);
              return;
            }
            packetBuffer[ptr] := 0;
            ZeroAtEnd(packetBuffer[..], ptr);
            packetQueue := packetQueue + [BeforeZero(packetBuffer[..])];
            count := count + 1;
          }
          ptr := 0;
          valid := true;
        } else {
          GrowStep(Kept().(valid := valid), c);
          if ptr < IN_BUFFER_SIZE {
            packetBuffer[ptr] := c;
            ptr := ptr + 1;
            assert packetBuffer[..ptr] == packetBuffer[..ptr - 1] + [c];
          } else {
            valid := false;
          }
        }
        ind := ind + 1;
      }
      assert data[..ind] == data;
    }

    /**
      Any number of reads.  However the stream is cut, and whatever its bytes: an overrun is exactly the end
      of a line of 255 characters, or of a longer one at the start of a read; without one the queue holds the
      lines of at most 254 characters, in order.
     */
    method ParseAll(inputs: seq<Text>) returns (overrun: bool)
      requires Valid() && Kept() == NOTHING_READ
      requires forall i :: 0 <= i < |inputs| ==> |inputs[i]| <= IN_BUFFER_SIZE
      modifies this, packetBuffer
      ensures Valid() && overrun == ReadAll(NOTHING_READ, inputs).overrun
      ensures overrun <==> OverrunsIn(inputs)
      ensures !overrun ==> packetQueue == Short(Plainly(inputs).lines)
      ensures !overrun ==> packetBuffer[..ptr] == Capped(Plainly(inputs).pending)
      ensures !overrun ==> Kept() == ReadAll(NOTHING_READ, inputs).(valid := true)
    {
      hide Steps, Plainly, OverrunsIn, BeforeZero, Short, Capped;
      overrun := false;
      ReadsFollow(inputs);
      for i := 0 to |inputs|
        invariant Valid() && Kept() == ReadAll(NOTHING_READ, inputs[..i]).(valid := true)
      {
        assert inputs[..i + 1][..i] == inputs[..i];
        var count;
        count, overrun := ParsePackets(inputs[i]);
        if overrun {
          StuckAmong(inputs, i + 1);
          return;
        }
      }
      assert inputs[..|inputs|] == inputs;
    }

    /** The same over the framed responses of the modules: each one is accepted with its address and body. */
    method ReceiveResponses(inputs: seq<Text>, ghost bodies: seq<Text>)
      requires Valid() && Kept() == NOTHING_READ
      requires forall i :: 0 <= i < |inputs| ==> |inputs[i]| <= IN_BUFFER_SIZE
      requires forall i :: 0 <= i < |bodies| ==> Plain(bodies[i])
      requires forall i :: 0 <= i < |bodies| ==> ResponseShaped(bodies[i])
      requires Join(inputs) == Frames(bodies)
      modifies this, packetBuffer
      ensures Valid() && ptr == 0 && |packetQueue| == |bodies|
      ensures forall i :: 0 <= i < |bodies| ==>
                |bodies[i]| >= 3 && Accept(packetQueue[i]) == Some(Accepted(AddressOf(bodies[i]), bodies[i][3..]))
    {
      hide ReadAll, Accept, ResponseShaped, Plain, OverrunsIn, Short, Plainly, Capped;
      ResponsesArrive(bodies, inputs);
      var overrun := ParseAll(inputs);
    }
  }

  lemma EndStep(r: Read, c: Byte)
    requires !r.overrun && EndsLine(c)
    ensures Step(r, c) == if r.valid && |r.pending| >= IN_BUFFER_SIZE then r.(overrun := true)
                          else Read([], if r.valid then r.lines + [r.pending] else r.lines, true, false)
  {
  }

  lemma GrowStep(r: Read, c: Byte)
    requires !r.overrun && !EndsLine(c)
    ensures Step(r, c) == if |r.pending| < IN_BUFFER_SIZE then r.(pending := r.pending + [c]) else r.(valid := false)
  {
  }

  /** After an overrun in a read nothing changes that it has happened. */
  lemma {:induction false} StuckAfter(r: Read, data: Text, k: nat)
    requires k <= |data| && Steps(r, data[..k]).overrun
    ensures Steps(r, data).overrun
    decreases |data|
  {
    if k < |data| {
      assert data[..|data| - 1][..k] == data[..k];
      StuckAfter(r, data[..|data| - 1], k);
    } else {
      assert data[..k] == data;
    }
  }

  lemma {:induction false} StuckAmong(inputs: seq<Text>, k: nat)
    requires k <= |inputs| && ReadAll(NOTHING_READ, inputs[..k]).overrun
    ensures ReadAll(NOTHING_READ, inputs).overrun
    decreases |inputs|
  {
    hide Steps;
    if k < |inputs| {
      var front := inputs[..|inputs| - 1];
      assert front[..k] == inputs[..k];
      StuckAmong(front, k);
      StaysStuck(ReadAll(NOTHING_READ, front).(valid := true), BeforeZero(inputs[|inputs| - 1]));
    } else {
      assert inputs[..k] == inputs;
    }
  }

  lemma {:induction false} Zero(data: Text, i: nat)
    requires i < |data| && data[i] == 0 && i <= |BeforeZero(data)|
    ensures |BeforeZero(data)| == i
  {
  }

  lemma {:induction false} NotZero(data: Text, i: nat)
    requires i < |data| && data[i] != 0 && i <= |BeforeZero(data)|
    ensures i < |BeforeZero(data)| && BeforeZero(data)[i] == data[i]
  {
  }

  /** The C string in the buffer is what stands before the zero just written. */
  lemma ZeroAtEnd(data: Text, i: nat)
    requires i < |data| && data[i] == 0 && 0 !in data[..i]
    ensures BeforeZero(data) == data[..i]
  {
  }
}
