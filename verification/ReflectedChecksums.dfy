/**
  The two checksums of the bootloader protocol's frames and rows that work least significant bit
  first: the frame check sequence of RFC 1662 with its bytes swapped, and CRC-32C; and the
  alternative that sums.
 */
module ReflectedChecksums {
  import opened Bytes

  // ---------- The frame checksum, polynomial 0x8408 ----------

  function XorR16(a: bv16, b: bv16): bv16 { a ^ b }

  function HalfR16(a: bv16): bv16 { a >> 1 }

  predicate LowR16(a: bv16) { a & 1 != 0 }

  /** One message bit into the divider. */
  function FeedR16(reg: bv16, bit: bool): bv16
  {
    if LowR16(reg) != bit then XorR16(HalfR16(reg), 0x8408) else HalfR16(reg)
  }

  /** The low `n` bits of `d`, least significant first. */
  function FeedBitsR16(reg: bv16, d: bv16, n: nat): bv16
    decreases n
  {
    if n == 0 then reg else FeedBitsR16(FeedR16(reg, LowR16(d)), HalfR16(d), n - 1)
  }

  function FeedByteR16(reg: bv16, d: bv8): bv16
  {
    FeedBitsR16(reg, d as bv16, 8)
  }

  function DivideR16(reg: bv16, data: seq<Byte>): bv16
  {
    if data == [] then reg
    else FeedByteR16(DivideR16(reg, data[..|data| - 1]), Bv(data[|data| - 1]))
  }

  /** One step of division without input. */
  function ShiftR16(c: bv16): bv16
  {
    if LowR16(c) then XorR16(HalfR16(c), 0x8408) else HalfR16(c)
  }

  function ShiftsR16(c: bv16, n: nat): bv16
    decreases n
  {
    if n == 0 then c else ShiftsR16(ShiftR16(c), n - 1)
  }

  function ShiftedOutR16(d: bv16, n: nat): bv16
    decreases n
  {
    if n == 0 then d else ShiftedOutR16(HalfR16(d), n - 1)
  }

  lemma XorLowR16(a: bv16, b: bv16)
    ensures LowR16(XorR16(a, b)) == (LowR16(a) != LowR16(b))
  {
  }

  lemma XorHalfR16(a: bv16, b: bv16)
    ensures HalfR16(XorR16(a, b)) == XorR16(HalfR16(a), HalfR16(b))
  {
  }

  lemma PolyR16(a: bv16, b: bv16)
    ensures XorR16(XorR16(a, 0x8408), b) == XorR16(XorR16(a, b), 0x8408)
  {
  }

  lemma OneBitR16(reg: bv16, d: bv16)
    ensures XorR16(FeedR16(reg, LowR16(d)), HalfR16(d)) == ShiftR16(XorR16(reg, d))
  {
    hide XorR16, HalfR16, LowR16;
    XorLowR16(reg, d);
    XorHalfR16(reg, d);
    PolyR16(HalfR16(reg), HalfR16(d));
  }

  lemma {:induction false} FeedBitsIsShiftsR16(reg: bv16, d: bv16, n: nat)
    ensures XorR16(FeedBitsR16(reg, d, n), ShiftedOutR16(d, n)) == ShiftsR16(XorR16(reg, d), n)
    decreases n
  {
    hide FeedR16, ShiftR16, XorR16, HalfR16, LowR16;
    if n > 0 {
      OneBitR16(reg, d);
      FeedBitsIsShiftsR16(FeedR16(reg, LowR16(d)), HalfR16(d), n - 1);
    }
  }

  function QuarterR16(d: bv16): bv16 { d >> 2 }

  lemma TwoHalvesR16(d: bv16, n: nat)
    requires n >= 2
    ensures ShiftedOutR16(d, n) == ShiftedOutR16(QuarterR16(d), n - 2)
  {
    assert HalfR16(HalfR16(d)) == d >> 2;
  }

  lemma FourQuartersR16(d: bv16)
    ensures QuarterR16(QuarterR16(QuarterR16(QuarterR16(d)))) == d >> 8
  {
  }

  lemma NoHalvesR16(d: bv16)
    ensures ShiftedOutR16(d, 0) == d
  {
  }

  lemma EightHalvesR16(d: bv16)
    ensures ShiftedOutR16(d, 8) == d >> 8
  {
    hide ShiftedOutR16, QuarterR16;
    var d2 := QuarterR16(QuarterR16(d));
    TwoHalvesR16(d, 8);
    TwoHalvesR16(QuarterR16(d), 6);
    TwoHalvesR16(d2, 4);
    TwoHalvesR16(QuarterR16(d2), 2);
    NoHalvesR16(QuarterR16(QuarterR16(d2)));
    FourQuartersR16(d);
  }

  lemma ByteOutR16(d: bv8)
    ensures (d as bv16) >> 8 == 0
  {
  }

  lemma XorZeroR16(x: bv16)
    ensures XorR16(x, 0) == x
  {
  }

  lemma FeedByteIsShiftsR16(reg: bv16, d: bv8)
    ensures FeedByteR16(reg, d) == ShiftsR16(XorR16(reg, d as bv16), 8)
  {
    hide ShiftsR16, FeedBitsR16, ShiftedOutR16, XorR16;
    FeedBitsIsShiftsR16(reg, d as bv16, 8);
    EightHalvesR16(d as bv16);
    ByteOutR16(d);
    XorZeroR16(FeedByteR16(reg, d));
  }

  ghost predicate BottomClearR16(h: bv16, n: nat)
    decreases n
  {
    n == 0 || (!LowR16(h) && BottomClearR16(HalfR16(h), n - 1))
  }

  lemma OneShiftR16(l: bv16, h: bv16)
    requires !LowR16(h)
    ensures ShiftR16(XorR16(l, h)) == XorR16(ShiftR16(l), HalfR16(h))
  {
    hide XorR16, HalfR16, LowR16;
    OneBitR16(l, h);
  }

  /** High bits that never reach the bottom are only shifted. */
  lemma {:induction false} ShiftsSplitR16(l: bv16, h: bv16, n: nat)
    requires BottomClearR16(h, n)
    ensures ShiftsR16(XorR16(l, h), n) == XorR16(ShiftsR16(l, n), ShiftedOutR16(h, n))
    decreases n
  {
    hide ShiftR16, XorR16, HalfR16, LowR16;
    if n > 0 {
      OneShiftR16(l, h);
      ShiftsSplitR16(ShiftR16(l), HalfR16(h), n - 1);
    }
  }

  /** The table of appendix C of RFC 1662: entry `b` is `b` after eight steps of division. */
  function FcsTable(b: bv8): bv16
  {
    ShiftsR16(b as bv16, 8)
  }

  /** One step of the table-driven computation of appendix C.2 of RFC 1662. */
  function FcsStep(fcs: bv16, c: bv8): bv16
  {
    (fcs >> 8) ^ FcsTable((fcs & 0xFF) as bv8 ^ c)
  }

  /** The register of that computation after `data`, started at 0xFFFF. */
  function Fcs(data: seq<Byte>): bv16
  {
    if data == [] then 0xFFFF else FcsStep(Fcs(data[..|data| - 1]), Bv(data[|data| - 1]))
  }

  lemma FcsHalves(reg: bv16, d: bv8)
    ensures ((reg & 0xFF) as bv8 ^ d) as bv16 ^ (reg & 0xFF00) == reg ^ (d as bv16)
    ensures (reg & 0xFF00) >> 8 == reg >> 8
  {
  }

  lemma FcsMixed(reg: bv16, d: bv8)
    ensures XorR16(((reg & 0xFF) as bv8 ^ d) as bv16, reg & 0xFF00) == XorR16(reg, d as bv16)
    ensures (reg & 0xFF00) >> 8 == reg >> 8
  {
    FcsHalves(reg, d);
  }

  lemma HighByteClear(h: bv16)
    requires h & 0xFF == 0
    ensures BottomClearR16(h, 8)
  {
    assert BottomClearR16(h, 8) == BottomClearR16(h >> 2, 6) == BottomClearR16(h >> 4, 4) == BottomClearR16(h >> 6, 2);
  }

  lemma HighByte(reg: bv16)
    ensures (reg & 0xFF00) & 0xFF == 0
  {
  }

  lemma XorCommutesR16(a: bv16, b: bv16)
    ensures XorR16(a, b) == b ^ a
  {
  }

  lemma FcsStepShape(reg: bv16, d: bv8)
    ensures FcsStep(reg, d) == XorR16(ShiftsR16(((reg & 0xFF) as bv8 ^ d) as bv16, 8), reg >> 8)
  {
    hide ShiftsR16, XorR16;
    XorCommutesR16(ShiftsR16(((reg & 0xFF) as bv8 ^ d) as bv16, 8), reg >> 8);
  }

  lemma FcsStepIsFeed(reg: bv16, d: bv8)
    ensures FcsStep(reg, d) == FeedByteR16(reg, d)
  {
    hide ShiftsR16, FeedByteR16, ShiftedOutR16, BottomClearR16, XorR16, FcsStep;
    var l, h := ((reg & 0xFF) as bv8 ^ d) as bv16, reg & 0xFF00;
    FeedByteIsShiftsR16(reg, d);
    FcsMixed(reg, d);
    HighByte(reg);
    HighByteClear(h);
    ShiftsSplitR16(l, h, 8);
    EightHalvesR16(h);
    FcsStepShape(reg, d);
  }

  /** Bit by bit or by table, the register is the same. */
  lemma {:induction false} FcsIsDivision(data: seq<Byte>)
    ensures Fcs(data) == DivideR16(0xFFFF, data)
  {
    hide FcsStep, FeedByteR16;
    if data != [] {
      FcsIsDivision(data[..|data| - 1]);
      FcsStepIsFeed(Fcs(data[..|data| - 1]), Bv(data[|data| - 1]));
    }
  }

  function SwapBytes(x: bv16): bv16
  {
    (x << 8) | ((x >> 8) & 0xFF)
  }

  /** The eight steps of the inner loop. */
  method FcsUpdate(reg: bv16, d: bv8) returns (crc: bv16)
    ensures crc == FeedByteR16(reg, d)
  {
    hide FeedR16;
    var tmp := d as bv16;
    crc := reg;
    for i := 0 to 8
      invariant FeedBitsR16(crc, tmp, 8 - i) == FeedByteR16(reg, d)
    {
      crc := FeedR16(crc, LowR16(tmp));
      tmp := HalfR16(tmp);
    }
  }

  /** `CyBtldr_ComputeChecksum16bit` with the CRC type: the RFC's complemented FCS, bytes swapped. */
  method CrcChecksum(data: seq<Byte>) returns (crc: bv16)
    ensures crc == SwapBytes(!Fcs(data))
  {
    hide FeedByteR16, SwapBytes;
    crc := 0xFFFF;
    if data == [] {
      SwapZero();
      return !crc;
    }
    for k := 0 to |data|
      invariant crc == DivideR16(0xFFFF, data[..k])
    {
      assert data[..k + 1][..k] == data[..k];
      crc := FcsUpdate(crc, Bv(data[k]));
    }
    assert data[..|data|] == data;
    FcsIsDivision(data);
    crc := !crc;
    crc := SwapBytes(crc);
  }

  lemma SwapZero()
    ensures SwapBytes(!0xFFFF) == !0xFFFF
  {
  }

  // ---------- The sum ----------

  function Sum(data: seq<Byte>): nat
  {
    if data == [] then 0 else Sum(data[..|data| - 1]) + data[|data| - 1]
  }

  /** `CyBtldr_ComputeChecksum16bit` with the sum type: it makes the 16-bit total zero. */
  method SumChecksum(data: seq<Byte>) returns (r: nat)
    ensures r < 0x1_0000 && (Sum(data) + r) % 0x1_0000 == 0
  {
    var sum: nat := 0;
    for k := 0 to |data|
      invariant sum == Sum(data[..k]) % 0x1_0000
    {
      assert data[..k + 1][..k] == data[..k];
      sum := (sum + data[k]) % 0x1_0000;
    }
    assert data[..|data|] == data;
    // 1 + ~sum in sixteen bits
    r := (1 + (0xFFFF - sum)) % 0x1_0000;
  }

  // ---------- CRC-32C, polynomial 0x82F63B78 ----------

  function XorR32(a: bv32, b: bv32): bv32 { a ^ b }

  function HalfR32(a: bv32): bv32 { a >> 1 }

  predicate LowR32(a: bv32) { a & 1 != 0 }

  /** One message bit into the divider. */
  function FeedR32(reg: bv32, bit: bool): bv32
  {
    if LowR32(reg) != bit then XorR32(HalfR32(reg), 0x82F63B78) else HalfR32(reg)
  }

  /** The low `n` bits of `d`, least significant first. */
  function FeedBitsR32(reg: bv32, d: bv32, n: nat): bv32
    decreases n
  {
    if n == 0 then reg else FeedBitsR32(FeedR32(reg, LowR32(d)), HalfR32(d), n - 1)
  }

  function FeedByteR32(reg: bv32, d: bv8): bv32
  {
    FeedBitsR32(reg, d as bv32, 8)
  }

  function DivideR32(reg: bv32, data: seq<Byte>): bv32
  {
    if data == [] then reg
    else FeedByteR32(DivideR32(reg, data[..|data| - 1]), Bv(data[|data| - 1]))
  }

  /** One step of division without input. */
  function ShiftR32(c: bv32): bv32
  {
    if LowR32(c) then XorR32(HalfR32(c), 0x82F63B78) else HalfR32(c)
  }

  function ShiftsR32(c: bv32, n: nat): bv32
    decreases n
  {
    if n == 0 then c else ShiftsR32(ShiftR32(c), n - 1)
  }

  function ShiftedOutR32(d: bv32, n: nat): bv32
    decreases n
  {
    if n == 0 then d else ShiftedOutR32(HalfR32(d), n - 1)
  }

  lemma XorLowR32(a: bv32, b: bv32)
    ensures LowR32(XorR32(a, b)) == (LowR32(a) != LowR32(b))
  {
  }

  lemma XorHalfR32(a: bv32, b: bv32)
    ensures HalfR32(XorR32(a, b)) == XorR32(HalfR32(a), HalfR32(b))
  {
  }

  lemma PolyR32(a: bv32, b: bv32)
    ensures XorR32(XorR32(a, 0x82F63B78), b) == XorR32(XorR32(a, b), 0x82F63B78)
  {
  }

  lemma OneBitR32(reg: bv32, d: bv32)
    ensures XorR32(FeedR32(reg, LowR32(d)), HalfR32(d)) == ShiftR32(XorR32(reg, d))
  {
    hide XorR32, HalfR32, LowR32;
    XorLowR32(reg, d);
    XorHalfR32(reg, d);
    PolyR32(HalfR32(reg), HalfR32(d));
  }

  lemma {:induction false} FeedBitsIsShiftsR32(reg: bv32, d: bv32, n: nat)
    ensures XorR32(FeedBitsR32(reg, d, n), ShiftedOutR32(d, n)) == ShiftsR32(XorR32(reg, d), n)
    decreases n
  {
    hide FeedR32, ShiftR32, XorR32, HalfR32, LowR32;
    if n > 0 {
      OneBitR32(reg, d);
      FeedBitsIsShiftsR32(FeedR32(reg, LowR32(d)), HalfR32(d), n - 1);
    }
  }

  function QuarterR32(d: bv32): bv32 { d >> 2 }

  lemma TwoHalvesR32(d: bv32, n: nat)
    requires n >= 2
    ensures ShiftedOutR32(d, n) == ShiftedOutR32(QuarterR32(d), n - 2)
  {
    assert HalfR32(HalfR32(d)) == d >> 2;
  }

  lemma FourQuartersR32(d: bv32)
    ensures QuarterR32(QuarterR32(QuarterR32(QuarterR32(d)))) == d >> 8
  {
  }

  lemma NoHalvesR32(d: bv32)
    ensures ShiftedOutR32(d, 0) == d
  {
  }

  lemma EightHalvesR32(d: bv32)
    ensures ShiftedOutR32(d, 8) == d >> 8
  {
    hide ShiftedOutR32, QuarterR32;
    var d2 := QuarterR32(QuarterR32(d));
    TwoHalvesR32(d, 8);
    TwoHalvesR32(QuarterR32(d), 6);
    TwoHalvesR32(d2, 4);
    TwoHalvesR32(QuarterR32(d2), 2);
    NoHalvesR32(QuarterR32(QuarterR32(d2)));
    FourQuartersR32(d);
  }

  lemma ByteOutR32(d: bv8)
    ensures (d as bv32) >> 8 == 0
  {
  }

  lemma XorZeroR32(x: bv32)
    ensures XorR32(x, 0) == x
  {
  }

  lemma FeedByteIsShiftsR32(reg: bv32, d: bv8)
    ensures FeedByteR32(reg, d) == ShiftsR32(XorR32(reg, d as bv32), 8)
  {
    hide ShiftsR32, FeedBitsR32, ShiftedOutR32, XorR32;
    FeedBitsIsShiftsR32(reg, d as bv32, 8);
    EightHalvesR32(d as bv32);
    ByteOutR32(d);
    XorZeroR32(FeedByteR32(reg, d));
  }

  ghost predicate BottomClearR32(h: bv32, n: nat)
    decreases n
  {
    n == 0 || (!LowR32(h) && BottomClearR32(HalfR32(h), n - 1))
  }

  lemma OneShiftR32(l: bv32, h: bv32)
    requires !LowR32(h)
    ensures ShiftR32(XorR32(l, h)) == XorR32(ShiftR32(l), HalfR32(h))
  {
    hide XorR32, HalfR32, LowR32;
    OneBitR32(l, h);
  }

  /** High bits that never reach the bottom are only shifted. */
  lemma {:induction false} ShiftsSplitR32(l: bv32, h: bv32, n: nat)
    requires BottomClearR32(h, n)
    ensures ShiftsR32(XorR32(l, h), n) == XorR32(ShiftsR32(l, n), ShiftedOutR32(h, n))
    decreases n
  {
    hide ShiftR32, XorR32, HalfR32, LowR32;
    if n > 0 {
      OneShiftR32(l, h);
      ShiftsSplitR32(ShiftR32(l), HalfR32(h), n - 1);
    }
  }

  const G0: bv32 := 0x82F63B78
  const G1: bv32 := (G0 >> 1) & 0x7FFFFFFF
  const G2: bv32 := (G0 >> 2) & 0x3FFFFFFF
  const G3: bv32 := (G0 >> 3) & 0x1FFFFFFF

  const NIBBLE_TABLE: seq<bv32> := [
    0, G3, G2, G2 ^ G3,
    G1, G1 ^ G3, G1 ^ G2, G1 ^ G2 ^ G3,
    G0, G0 ^ G3, G0 ^ G2, G0 ^ G2 ^ G3,
    G0 ^ G1, G0 ^ G1 ^ G3, G0 ^ G1 ^ G2, G0 ^ G1 ^ G2 ^ G3
  ]

  lemma NibbleEntry(i: bv32)
    requires i < 16
    ensures NIBBLE_TABLE[i as int] == ShiftR32(ShiftR32(ShiftR32(ShiftR32(i))))
  {
    if i < 4 { NibbleEntryBelow4(i); }
    else if i < 8 { NibbleEntryBelow8(i); }
    else if i < 12 { NibbleEntryBelow12(i); }
    else { NibbleEntryBelow16(i); }
  }

  lemma NibbleEntryBelow4(i: bv32)
    requires 0 <= i < 4
    ensures NIBBLE_TABLE[i as int] == ShiftR32(ShiftR32(ShiftR32(ShiftR32(i))))
  {
    if i == 0 {
    } else if i == 1 {
    } else if i == 2 {
    } else {
      assert i == 3;
    }
  }

  lemma NibbleEntryBelow8(i: bv32)
    requires 4 <= i < 8
    ensures NIBBLE_TABLE[i as int] == ShiftR32(ShiftR32(ShiftR32(ShiftR32(i))))
  {
    if i == 4 {
    } else if i == 5 {
    } else if i == 6 {
    } else {
      assert i == 7;
    }
  }

  lemma NibbleEntryBelow12(i: bv32)
    requires 8 <= i < 12
    ensures NIBBLE_TABLE[i as int] == ShiftR32(ShiftR32(ShiftR32(ShiftR32(i))))
  {
    if i == 8 {
    } else if i == 9 {
    } else if i == 10 {
    } else {
      assert i == 11;
    }
  }

  lemma NibbleEntryBelow16(i: bv32)
    requires 12 <= i < 16
    ensures NIBBLE_TABLE[i as int] == ShiftR32(ShiftR32(ShiftR32(ShiftR32(i))))
  {
    if i == 12 {
    } else if i == 13 {
    } else if i == 14 {
    } else {
      assert i == 15;
    }
  }

  function Nibble(i: bv32): (r: bv32)
    requires i < 16
    ensures r == ShiftsR32(i, 4)
  {
    NibbleEntry(i);
    FourShifts(i);
    NIBBLE_TABLE[i as int]
  }

  function NibbleStep(crc: bv32): bv32
  {
    NibbleHalves(crc);
    (crc >> 4) ^ Nibble(crc & 0xF)
  }

  lemma NibbleStepShape(c: bv32)
    requires c & 0xF < 16
    ensures NibbleStep(c) == XorR32(ShiftsR32(c & 0xF, 4), c >> 4)
  {
    hide ShiftsR32, XorR32, Nibble;
    XorCommutesR32(ShiftsR32(c & 0xF, 4), c >> 4);
  }

  lemma NibbleHalves(c: bv32)
    ensures (c & 0xF) ^ (c & 0xFFFFFFF0) == c && (c & 0xFFFFFFF0) >> 4 == c >> 4
    ensures (c & 0xFFFFFFF0) & 0xF == 0 && c & 0xF < 16
  {
  }

  lemma NibbleMixed(c: bv32)
    ensures XorR32(c & 0xF, c & 0xFFFFFFF0) == c && (c & 0xFFFFFFF0) >> 4 == c >> 4
    ensures (c & 0xFFFFFFF0) & 0xF == 0 && c & 0xF < 16
  {
    NibbleHalves(c);
  }

  lemma LowNibbleClear(h: bv32)
    requires h & 0xF == 0
    ensures BottomClearR32(h, 4) && ShiftedOutR32(h, 4) == h >> 4
  {
    assert BottomClearR32(h, 4) == BottomClearR32(h >> 2, 2);
    assert ShiftedOutR32(h, 4) == ShiftedOutR32(h >> 2, 2);
  }

  lemma FourShifts(c: bv32)
    ensures ShiftsR32(c, 4) == ShiftR32(ShiftR32(ShiftR32(ShiftR32(c))))
  {
    hide ShiftR32;
    assert ShiftsR32(c, 4) == ShiftsR32(ShiftR32(ShiftR32(c)), 2);
  }

  lemma XorCommutesR32(a: bv32, b: bv32)
    ensures XorR32(a, b) == b ^ a
  {
  }

  lemma NibbleIsShifts(c: bv32)
    ensures NibbleStep(c) == ShiftsR32(c, 4)
  {
    hide ShiftsR32, ShiftedOutR32, BottomClearR32, XorR32, NibbleStep;
    var l, h := c & 0xF, c & 0xFFFFFFF0;
    NibbleMixed(c);
    LowNibbleClear(h);
    ShiftsSplitR32(l, h, 4);
    NibbleStepShape(c);
  }

  lemma {:induction false} ShiftsAdd(c: bv32, m: nat, n: nat)
    ensures ShiftsR32(ShiftsR32(c, m), n) == ShiftsR32(c, m + n)
    decreases m
  {
    hide ShiftR32;
    if m > 0 {
      ShiftsAdd(ShiftR32(c), m - 1, n);
    }
  }

  /** The body of the loop: two table lookups per byte. */
  method Crc32Update(reg: bv32, d: bv8) returns (crc: bv32)
    ensures crc == FeedByteR32(reg, d)
  {
    hide FeedByteR32, ShiftsR32, NibbleStep, XorR32;
    FeedByteIsShiftsR32(reg, d);
    crc := XorR32(reg, d as bv32);
    NibbleIsShifts(crc);
    NibbleIsShifts(NibbleStep(crc));
    ShiftsAdd(crc, 4, 4);
    crc := NibbleStep(crc);
    crc := NibbleStep(crc);
  }

  /** `CyBtldr_ComputeChecksum32bit` is CRC-32C: seed and result complemented. */
  method Crc32c(data: seq<Byte>) returns (r: bv32)
    ensures r == !DivideR32(0xFFFFFFFF, data)
  {
    hide FeedByteR32;
    var crc: bv32 := 0xFFFFFFFF;
    for k := 0 to |data|
      invariant crc == DivideR32(0xFFFFFFFF, data[..k])
    {
      assert data[..k + 1][..k] == data[..k];
      crc := Crc32Update(crc, Bv(data[k]));
    }
    assert data[..|data|] == data;
    r := !crc;
  }
}
