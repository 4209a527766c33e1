/** How a row is cut into frames: what is sent ahead, what is left for the last frame. */
module CyChunks {
  import opened Bytes

  /** The bytes of a frame around the data of SEND_DATA. */
  const SEND_HEADER_SIZE: nat := 7

  function Min(a: nat, b: nat): nat
  {
    if a < b then a else b
  }

  /** `subBufSize` of `SendData`. */
  function ChunkSize(maxTransfer: nat, size: nat): nat
    requires maxTransfer >= SEND_HEADER_SIZE
  {
    Min(maxTransfer - SEND_HEADER_SIZE, size)
  }

  /**
    The offset at which the loop of `SendData` stops when every transfer succeeds.  It may lie past the
    end of the row: the loop always takes a whole chunk.
   */
  function FinalOffset(maxTransfer: nat, size: nat, maxRemaining: nat, offset: nat): (r: nat)
    requires maxTransfer > SEND_HEADER_SIZE
    ensures r >= offset && size - r <= maxRemaining
    decreases size - offset
  {
    if size - offset <= maxRemaining then offset
    else FinalOffset(maxTransfer, size, maxRemaining, offset + ChunkSize(maxTransfer, size))
  }

  /** The data of the SEND_DATA frames, as long as there is a whole chunk to send. */
  function Chunks(maxTransfer: nat, data: seq<Byte>, maxRemaining: nat, offset: nat): seq<seq<Byte>>
    requires maxTransfer > SEND_HEADER_SIZE
    decreases |data| - offset
  {
    var n := ChunkSize(maxTransfer, |data|);
    if |data| - offset <= maxRemaining || offset + n > |data| then []
    else [data[offset..offset + n]] + Chunks(maxTransfer, data, maxRemaining, offset + n)
  }

  function Concat(parts: seq<seq<Byte>>): seq<Byte>
  {
    if parts == [] then [] else parts[0] + Concat(parts[1..])
  }

  /** The exact condition for a row to be cut up without reading past its end. */
  predicate CutsCleanly(maxTransfer: nat, header: nat, size: nat)
    requires SEND_HEADER_SIZE < maxTransfer && header <= maxTransfer
  {
    size <= maxTransfer - SEND_HEADER_SIZE || size % (maxTransfer - SEND_HEADER_SIZE) <= maxTransfer - header
  }

  /** With whole chunks already sent, only the remainder decides. */
  lemma {:induction false} FinalOffsetIff(maxTransfer: nat, header: nat, size: nat, offset: nat)
    requires SEND_HEADER_SIZE < header <= maxTransfer
    requires size > maxTransfer - SEND_HEADER_SIZE
    requires offset <= size && (size - offset) % (maxTransfer - SEND_HEADER_SIZE) ==
             size % (maxTransfer - SEND_HEADER_SIZE)
    ensures FinalOffset(maxTransfer, size, maxTransfer - header, offset) <= size
       <==> size % (maxTransfer - SEND_HEADER_SIZE) <= maxTransfer - header
    decreases size - offset
  {
    var n := maxTransfer - SEND_HEADER_SIZE;
    var left := size - offset;
    if left <= maxTransfer - header || left < n {
      Small(left, n);
    } else {
      OneLess(left, n);
      FinalOffsetIff(maxTransfer, header, size, offset + n);
    }
  }

  lemma Small(x: nat, n: nat)
    requires x < n
    ensures x % n == x
  {
    assert x == n * (x / n) + x % n;
    Factor(n, x / n);
  }

  /** A multiple of `n` closer to 0 than `n` is 0. */
  lemma Factor(n: int, d: int)
    requires n > 0 && -n < n * d < n
    ensures d == 0
  {
    if d > 0 {
      AtLeast(n, d);
    } else if d < 0 {
      assert n * -d == -(n * d);
      AtLeast(n, -d);
    }
  }

  lemma {:induction false} AtLeast(n: int, k: int)
    requires n > 0 && k > 0
    ensures n * k >= n
    decreases k
  {
    if k > 1 {
      AtLeast(n, k - 1);
      assert n * k == n * (k - 1) + n;
    }
  }

  lemma OneLess(x: nat, n: nat)
    requires 0 < n <= x
    ensures x % n == (x - n) % n
  {
    var y := x - n;
    assert x == n * (x / n) + x % n;
    assert y == n * (y / n) + y % n;
    var d := x / n - y / n - 1;
    assert n * d == n * (x / n) - n * (y / n) - n;
    Factor(n, d);
  }

  /**
    The loop ends at or before the end of the row exactly when the row fits one frame's data or what is
    left over after whole chunks fits the last frame.
   */
  lemma StopsInsideIff(maxTransfer: nat, header: nat, size: nat)
    requires SEND_HEADER_SIZE < header <= maxTransfer
    ensures FinalOffset(maxTransfer, size, maxTransfer - header, 0) <= size <==> CutsCleanly(maxTransfer, header, size)
  {
    if size > maxTransfer - SEND_HEADER_SIZE {
      FinalOffsetIff(maxTransfer, header, size, 0);
    }
  }

  /**
    When the loop ends inside the row, nothing is lost or sent twice: the data of the frames sent ahead
    and the rest of the row are the row again.
   */
  lemma {:induction false} ChunksRebuild(maxTransfer: nat, maxRemaining: nat, data: seq<Byte>, offset: nat)
    requires SEND_HEADER_SIZE < maxTransfer && offset <= |data|
    requires FinalOffset(maxTransfer, |data|, maxRemaining, offset) <= |data|
    ensures var parts := Chunks(maxTransfer, data, maxRemaining, offset);
            var end := FinalOffset(maxTransfer, |data|, maxRemaining, offset);
            Concat(parts) + data[end..] == data[offset..]
    decreases |data| - offset
  {
    if |data| - offset > maxRemaining {
      var n := ChunkSize(maxTransfer, |data|);
      var part, later := data[offset..offset + n], Chunks(maxTransfer, data, maxRemaining, offset + n);
      ChunksRebuild(maxTransfer, maxRemaining, data, offset + n);
      var rest := data[FinalOffset(maxTransfer, |data|, maxRemaining, offset)..];
      Associate(part, Concat(later), rest);
      OneMoreChunk(data, offset, offset + n, Concat(later) + rest);
      assert ([part] + later)[1..] == later;
    }
  }

  lemma Associate(a: seq<Byte>, b: seq<Byte>, c: seq<Byte>)
    ensures (a + b) + c == a + (b + c)
  {
  }

  lemma {:induction false} ChunksFit(maxTransfer: nat, data: seq<Byte>, maxRemaining: nat, offset: nat)
    requires SEND_HEADER_SIZE < maxTransfer
    ensures forall p :: p in Chunks(maxTransfer, data, maxRemaining, offset) ==> SEND_HEADER_SIZE + |p| <= maxTransfer
    decreases |data| - offset
  {
    var n := ChunkSize(maxTransfer, |data|);
    if |data| - offset > maxRemaining && offset + n <= |data| {
      ChunksFit(maxTransfer, data, maxRemaining, offset + n);
    }
  }

  lemma OneMoreChunk(data: seq<Byte>, from: nat, to: nat, later: seq<Byte>)
    requires from <= to <= |data| && later == data[to..]
    ensures data[from..to] + later == data[from..]
  {
  }

  /**
    Every row that meets the condition, for the rows of both file versions: headers of 10 and 15 bytes.
   */
  lemma RowsAreCutExactly(maxTransfer: nat, header: nat, data: seq<Byte>)
    requires SEND_HEADER_SIZE < header <= maxTransfer && CutsCleanly(maxTransfer, header, |data|)
    ensures var parts := Chunks(maxTransfer, data, maxTransfer - header, 0);
            var end := FinalOffset(maxTransfer, |data|, maxTransfer - header, 0);
            && end <= |data|
            && Concat(parts + [data[end..]]) == data
            && (forall p :: p in parts ==> SEND_HEADER_SIZE + |p| <= maxTransfer)
            && header + |data[end..]| <= maxTransfer
  {
    StopsInsideIff(maxTransfer, header, |data|);
    ChunksRebuild(maxTransfer, maxTransfer - header, data, 0);
    ChunksFit(maxTransfer, data, maxTransfer - header, 0);
    var end := FinalOffset(maxTransfer, |data|, maxTransfer - header, 0);
    ConcatAppend(Chunks(maxTransfer, data, maxTransfer - header, 0), data[end..]);
    assert data[0..] == data;
  }

  lemma {:induction false} ConcatAppend(parts: seq<seq<Byte>>, last: seq<Byte>)
    ensures Concat(parts + [last]) == Concat(parts) + last
  {
    if parts == [] {
      assert parts + [last] == [last] && [last][1..] == [];
    } else {
      ConcatAppend(parts[1..], last);
      assert (parts + [last])[1..] == parts[1..] + [last];
    }
  }

  /** On the eigenbus a frame holds at most 52 bytes: rows of 64, 128 and 256 bytes are cut exactly. */
  lemma CommonRowSizes()
    ensures forall size :: size in {64, 128, 256} ==> CutsCleanly(52, 10, size)
    ensures !CutsCleanly(52, 10, 133) && FinalOffset(52, 133, 42, 0) == 135
  {
    assert FinalOffset(52, 133, 42, 135) == 135;
    assert FinalOffset(52, 133, 42, 90) == FinalOffset(52, 133, 42, 135);
    assert FinalOffset(52, 133, 42, 45) == FinalOffset(52, 133, 42, 90);
  }
}
