/**
  The four checksums.  Each loop of the program is proved equal to feeding the message to a
  polynomial divider one bit at a time, and the two CRCs that guard frames are proved to notice every
  change of a single byte.
 */
module Checksums {
  import opened Bytes
  import opened CrcTables

  // ---------- CRC-8, polynomial x^8 + x^2 + x + 1 ----------

  /** One message bit into the divider. */
  function Feed8(reg: bv8, bit: bool): bv8
  {
    if Top8(reg) != bit then Xor8(Double8(reg), 0x07) else Double8(reg)
  }

  /** The top `n` bits of `d`, most significant first. */
  function FeedBits8(reg: bv8, d: bv8, n: nat): bv8
    decreases n
  {
    if n == 0 then reg else FeedBits8(Feed8(reg, Top8(d)), Double8(d), n - 1)
  }

  function FeedByte8(reg: bv8, d: bv8): bv8
  {
    FeedBits8(reg, d, 8)
  }

  function Divide8(reg: bv8, data: seq<Byte>): bv8
  {
    if data == [] then reg
    else FeedByte8(Divide8(reg, data[..|data| - 1]), Bv(data[|data| - 1]))
  }

  /** The checksum of `crc_8_ccitt`: seed 0xFF, nothing added at the end. */
  function Crc8(data: seq<Byte>): bv8
  {
    Divide8(0xFF, data)
  }

  /** `n` steps of division without input. */
  function Shifts8(c: bv8, n: nat): bv8
    decreases n
  {
    if n == 0 then c else Shifts8(Shift8(c), n - 1)
  }

  function ShiftedOut8(d: bv8, n: nat): bv8
    decreases n
  {
    if n == 0 then d else ShiftedOut8(Double8(d), n - 1)
  }

  lemma OneBit8(reg: bv8, d: bv8)
    ensures Xor8(Feed8(reg, Top8(d)), Double8(d)) == Shift8(Xor8(reg, d))
  {
    hide Xor8, Double8, Top8;
    XorTop8(reg, d);
    XorDouble8(reg, d);
    Poly8(Double8(reg), Double8(d));
  }

  /** Feeding bits is mixing them all in first and then dividing. */
  lemma {:induction false} FeedBitsIsShifts8(reg: bv8, d: bv8, n: nat)
    ensures Xor8(FeedBits8(reg, d, n), ShiftedOut8(d, n)) == Shifts8(Xor8(reg, d), n)
    decreases n
  {
    hide Feed8, Shift8, Xor8, Double8, Top8;
    if n > 0 {
      OneBit8(reg, d);
      FeedBitsIsShifts8(Feed8(reg, Top8(d)), Double8(d), n - 1);
    }
  }

  lemma EightShifts8(c: bv8)
    ensures Shifts8(c, 8) == Shift8Times8(c)
  {
    hide Shift8;
    var c2 := Shift8(Shift8(c));
    var c4 := Shift8(Shift8(c2));
    var c6 := Shift8(Shift8(c4));
    assert Shifts8(c, 8) == Shifts8(c2, 6) == Shifts8(c4, 4) == Shifts8(c6, 2);
  }

  lemma EightDoubles8(d: bv8)
    ensures ShiftedOut8(d, 8) == d << 8
  {
    assert ShiftedOut8(d, 8) == ShiftedOut8(d << 2, 6) == ShiftedOut8(d << 4, 4) == ShiftedOut8(d << 6, 2);
  }

  lemma XorZero8(x: bv8)
    ensures Xor8(x, 0) == x
  {
  }

  lemma FeedByteIsShifts8(reg: bv8, d: bv8)
    ensures FeedByte8(reg, d) == Shift8Times8(Xor8(reg, d))
  {
    hide Shift8Times8, Shifts8, FeedBits8, ShiftedOut8, Xor8;
    FeedBitsIsShifts8(reg, d, 8);
    EightDoubles8(d);
    XorZero8(FeedByte8(reg, d));
    EightShifts8(Xor8(reg, d));
  }

  /** The body of the loop: one table lookup per byte. */
  method Crc8Update(crc: bv8, d: bv8) returns (r: bv8)
    ensures r == FeedByte8(crc, d)
  {
    hide FeedByte8, Shift8Times8;
    FeedByteIsShifts8(crc, d);
    var temp := crc ^ d;
    r := Lookup8(temp);
  }

  method Crc8Ccitt(data: seq<Byte>) returns (crc: bv8)
    ensures crc == Crc8(data)
  {
    hide FeedByte8;
    crc := 0xFF;
    for ind := 0 to |data|
      invariant crc == Divide8(0xFF, data[..ind])
    {
      assert data[..ind + 1][..ind] == data[..ind];
      crc := Crc8Update(crc, Bv(data[ind]));
    }
    assert data[..|data|] == data;
  }

  // ---------- CRC-16, polynomial x^16 + x^12 + x^5 + 1 ----------

  /** One message bit into the divider. */
  function Feed16(reg: bv16, bit: bool): bv16
  {
    if Top16(reg) != bit then Xor16(Double16(reg), 0x1021) else Double16(reg)
  }

  /** The top `n` bits of `d`, most significant first. */
  function FeedBits16(reg: bv16, d: bv16, n: nat): bv16
    decreases n
  {
    if n == 0 then reg else FeedBits16(Feed16(reg, Top16(d)), Double16(d), n - 1)
  }

  function FeedByte16(reg: bv16, d: bv8): bv16
  {
    FeedBits16(reg, (d as bv16) << 8, 8)
  }

  function Divide16(reg: bv16, data: seq<Byte>): bv16
  {
    if data == [] then reg
    else FeedByte16(Divide16(reg, data[..|data| - 1]), Bv(data[|data| - 1]))
  }

  /** `n` steps of division without input. */
  function Shifts16(c: bv16, n: nat): bv16
    decreases n
  {
    if n == 0 then c else Shifts16(Shift16(c), n - 1)
  }

  function ShiftedOut16(d: bv16, n: nat): bv16
    decreases n
  {
    if n == 0 then d else ShiftedOut16(Double16(d), n - 1)
  }

  lemma OneBit16(reg: bv16, d: bv16)
    ensures Xor16(Feed16(reg, Top16(d)), Double16(d)) == Shift16(Xor16(reg, d))
  {
    hide Xor16, Double16, Top16;
    XorTop16(reg, d);
    XorDouble16(reg, d);
    Poly16(Double16(reg), Double16(d));
  }

  /** Feeding bits is mixing them all in first and then dividing. */
  lemma {:induction false} FeedBitsIsShifts16(reg: bv16, d: bv16, n: nat)
    ensures Xor16(FeedBits16(reg, d, n), ShiftedOut16(d, n)) == Shifts16(Xor16(reg, d), n)
    decreases n
  {
    hide Feed16, Shift16, Xor16, Double16, Top16;
    if n > 0 {
      OneBit16(reg, d);
      FeedBitsIsShifts16(Feed16(reg, Top16(d)), Double16(d), n - 1);
    }
  }

  lemma EightShifts16(c: bv16)
    ensures Shifts16(c, 8) == Shift16Times8(c)
  {
    hide Shift16;
    var c2 := Shift16(Shift16(c));
    var c4 := Shift16(Shift16(c2));
    var c6 := Shift16(Shift16(c4));
    assert Shifts16(c, 8) == Shifts16(c2, 6) == Shifts16(c4, 4) == Shifts16(c6, 2);
  }

  lemma EightDoubles16(d: bv16)
    ensures ShiftedOut16(d, 8) == d << 8
  {
    assert ShiftedOut16(d, 8) == ShiftedOut16(d << 2, 6) == ShiftedOut16(d << 4, 4) == ShiftedOut16(d << 6, 2);
  }

  lemma XorZero16(x: bv16)
    ensures Xor16(x, 0) == x
  {
  }

  ghost predicate TopClear(l: bv16, n: nat)
    decreases n
  {
    n == 0 || (!Top16(l) && TopClear(Double16(l), n - 1))
  }

  /** Low bits that never reach the top are only shifted. */
  lemma {:induction false} ShiftsSplit(h: bv16, l: bv16, n: nat)
    requires TopClear(l, n)
    ensures Shifts16(Xor16(h, l), n) == Xor16(Shifts16(h, n), ShiftedOut16(l, n))
    decreases n
  {
    hide Shift16, Xor16, Double16, Top16;
    if n > 0 {
      OneShift(h, l);
      ShiftsSplit(Shift16(h), Double16(l), n - 1);
    }
  }

  lemma OneShift(h: bv16, l: bv16)
    requires !Top16(l)
    ensures Shift16(Xor16(h, l)) == Xor16(Shift16(h), Double16(l))
  {
    hide Xor16, Double16, Top16;
    OneBit16(h, l);
  }

  lemma LowByteClear(l: bv16)
    requires l & 0xFF00 == 0
    ensures TopClear(l, 8)
  {
    assert TopClear(l, 8) == TopClear(l << 2, 6) == TopClear(l << 4, 4) == TopClear(l << 6, 2);
  }

  /** What the table is looked up with: the top of the register, the byte mixed in. */
  function Index16(reg: bv16, d: bv8): bv8
  {
    d ^ ((reg >> 8) as bv8)
  }

  function HighByte(reg: bv16): bv8
  {
    (reg >> 8) as bv8
  }

  function Raise(d: bv8): bv16
  {
    (d as bv16) << 8
  }

  lemma RaisedIndex(reg: bv16, d: bv8)
    ensures Raise(Index16(reg, d)) == Xor16(Raise(d), Raise(HighByte(reg)))
  {
  }

  lemma TwoHalves(reg: bv16)
    ensures Xor16(Raise(HighByte(reg)), reg & 0xFF) == reg
  {
  }

  lemma XorTurned(a: bv16, b: bv16, c: bv16)
    ensures Xor16(Xor16(a, b), c) == Xor16(Xor16(b, c), a)
  {
  }

  lemma Mixed(reg: bv16, d: bv8)
    ensures Xor16(Raise(Index16(reg, d)), reg & 0xFF) == Xor16(reg, Raise(d))
  {
    hide Raise, Index16, HighByte, Xor16;
    RaisedIndex(reg, d);
    TwoHalves(reg);
    XorTurned(Raise(d), Raise(HighByte(reg)), reg & 0xFF);
  }

  lemma LowByteShifts(reg: bv16)
    ensures (reg & 0xFF) & 0xFF00 == 0 && (reg & 0xFF) << 8 == reg << 8
  {
  }

  lemma ByteOut(d: bv8)
    ensures ((d as bv16) << 8) << 8 == 0
  {
  }

  lemma FeedByteIsShifts16(reg: bv16, d: bv8)
    ensures FeedByte16(reg, d) == Xor16(Shift16Times8((Index16(reg, d) as bv16) << 8), reg << 8)
  {
    hide Shift16Times8, Shifts16, FeedBits16, ShiftedOut16, TopClear, Xor16, Index16;
    var x := (d as bv16) << 8;
    var h, l := (Index16(reg, d) as bv16) << 8, reg & 0xFF;
    FeedBitsIsShifts16(reg, x, 8);
    EightDoubles16(x);
    ByteOut(d);
    XorZero16(FeedBits16(reg, x, 8));
    Mixed(reg, d);
    LowByteShifts(reg);
    LowByteClear(l);
    ShiftsSplit(h, l, 8);
    EightDoubles16(l);
    EightShifts16(h);
  }

  function LowHalf(crc: bv32): bv16
  {
    (crc & 0xFFFF) as bv16
  }

  /** One byte into the program's 32-bit register. */
  function WideStep(crc: bv32, d: bv8): bv32
  {
    var temp := ((d as bv32) ^ (crc >> 8)) & 0xFF;
    (Lookup16(temp as bv8) as bv32) ^ (crc << 8)
  }

  lemma WideIndex(crc: bv32, d: bv8)
    ensures (((d as bv32) ^ (crc >> 8)) & 0xFF) as bv8 == Index16(LowHalf(crc), d)
  {
  }

  lemma WideMix(t: bv16, crc: bv32)
    ensures LowHalf((t as bv32) ^ (crc << 8)) == Xor16(t, LowHalf(crc) << 8)
  {
  }

  lemma WideStepIsFeed(crc: bv32, d: bv8)
    ensures LowHalf(WideStep(crc, d)) == FeedByte16(LowHalf(crc), d)
  {
    hide FeedByte16, Shift16Times8, LowHalf, Index16, Xor16, Lookup16;
    WideIndex(crc, d);
    LookupIs(Index16(LowHalf(crc), d));
    WideMix(Lookup16(Index16(LowHalf(crc), d)), crc);
    FeedByteIsShifts16(LowHalf(crc), d);
  }

  lemma LookupIs(x: bv8)
    ensures Lookup16(x) == Shift16Times8((x as bv16) << 8)
  {
  }

  /** The program's register is wider than the polynomial; its low half is the divider's register. */
  method CrcCcitt(data: seq<Byte>, seed: bv16, final: bv16) returns (r: bv16)
    ensures r == Divide16(seed, data) ^ final
  {
    hide FeedByte16, LowHalf, WideStep;
    var crc: bv32 := seed as bv32;
    SeedLow(seed);
    for count := 0 to |data|
      invariant LowHalf(crc) == Divide16(seed, data[..count])
    {
      assert data[..count + 1][..count] == data[..count];
      WideStepIsFeed(crc, Bv(data[count]));
      crc := WideStep(crc, Bv(data[count]));
    }
    assert data[..|data|] == data;
    r := LowHalf(crc) ^ final;
  }

  lemma SeedLow(seed: bv16)
    ensures LowHalf(seed as bv32) == seed
  {
  }
}
