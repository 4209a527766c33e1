/**
  The check values of the four CRCs: what each makes of the nine characters "123456789".  They settle what the
  definitions leave open, the register at the start and what is done to it at the end.
 */
module CheckValues {
  import opened Bytes
  import opened CrcTables
  import opened Checksums
  import opened CrcDetection
  import opened ReflectedChecksums
  import LineFraming
  import BootloaderTransport
  import opened CyFrames
  import opened CyRowsV1

  const DIGITS: seq<Byte> := [49, 50, 51, 52, 53, 54, 55, 56, 57]

  lemma Next8(k: nat, r: bv8, b: Byte, x: bv8)
    requires k < 9 && Divide8(0xFF, DIGITS[..k]) == r && DIGITS[k] == b && Shift8Times8(Xor8(r, Bv(b))) == x
    ensures Divide8(0xFF, DIGITS[..k + 1]) == x
  {
    hide Shift8Times8, FeedByte8, Xor8, Xor16, XorR16, XorR32;
    assert DIGITS[..k + 1][..k] == DIGITS[..k];
    FeedByteIsShifts8(r, Bv(b));
  }

  lemma FirstDigits8()
    ensures Divide8(0xFF, DIGITS[..3]) == 0xEB
  {
    hide Divide8;
    Start8();
    Next8(0, 0xFF, 49, 0x64);
    Next8(1, 0x64, 50, 0xA5);
    Next8(2, 0xA5, 51, 0xEB);
  }

  lemma SecondDigits8()
    requires Divide8(0xFF, DIGITS[..3]) == 0xEB
    ensures Divide8(0xFF, DIGITS[..6]) == 0x52
  {
    hide Divide8;
    Next8(3, 0xEB, 52, 0x13);
    Next8(4, 0x13, 53, 0xF2);
    Next8(5, 0xF2, 54, 0x52);
  }

  lemma ThirdDigits8()
    requires Divide8(0xFF, DIGITS[..6]) == 0x52
    ensures Divide8(0xFF, DIGITS[..9]) == 0xFB
  {
    hide Divide8;
    Next8(6, 0x52, 55, 0x3C);
    Next8(7, 0x3C, 56, 0x1C);
    Next8(8, 0x1C, 57, 0xFB);
  }

  lemma Digits8()
    ensures Divide8(0xFF, DIGITS) == 0xFB
  {
    hide Divide8;
    FirstDigits8();
    SecondDigits8();
    ThirdDigits8();
    assert DIGITS[..9] == DIGITS;
  }

  lemma Start8()
    ensures Divide8(0xFF, DIGITS[..0]) == 0xFF
  {
  }

  lemma Next16(k: nat, r: bv16, b: Byte, x: bv16)
    requires k < 9 && Divide16(0xFFFF, DIGITS[..k]) == r && DIGITS[k] == b
    requires Shifts16(Xor16(r, (Bv(b) as bv16) << 8), 8) == x
    ensures Divide16(0xFFFF, DIGITS[..k + 1]) == x
  {
    hide Shifts16, FeedByte16, Xor8, Xor16, XorR16, XorR32;
    assert DIGITS[..k + 1][..k] == DIGITS[..k];
    FeedByteAsShifts16(r, Bv(b));
  }

  lemma FirstDigits16()
    ensures Divide16(0xFFFF, DIGITS[..3]) == 0x5BCE
  {
    hide Divide16;
    Start16();
    Next16(0, 0xFFFF, 49, 0xC782);
    Next16(1, 0xC782, 50, 0x3DBA);
    Next16(2, 0x3DBA, 51, 0x5BCE);
  }

  lemma SecondDigits16()
    requires Divide16(0xFFFF, DIGITS[..3]) == 0x5BCE
    ensures Divide16(0xFFFF, DIGITS[..6]) == 0x2EF4
  {
    hide Divide16;
    Next16(3, 0x5BCE, 52, 0x5349);
    Next16(4, 0x5349, 53, 0x4560);
    Next16(5, 0x4560, 54, 0x2EF4);
  }

  lemma ThirdDigits16()
    requires Divide16(0xFFFF, DIGITS[..6]) == 0x2EF4
    ensures Divide16(0xFFFF, DIGITS[..9]) == 0x29B1
  {
    hide Divide16;
    Next16(6, 0x2EF4, 55, 0x7718);
    Next16(7, 0x7718, 56, 0xA12B);
    Next16(8, 0xA12B, 57, 0x29B1);
  }

  lemma Digits16()
    ensures Divide16(0xFFFF, DIGITS) == 0x29B1
  {
    hide Divide16;
    FirstDigits16();
    SecondDigits16();
    ThirdDigits16();
    assert DIGITS[..9] == DIGITS;
  }

  lemma Start16()
    ensures Divide16(0xFFFF, DIGITS[..0]) == 0xFFFF
  {
  }

  lemma NextR16(k: nat, r: bv16, b: Byte, x: bv16)
    requires k < 9 && DivideR16(0xFFFF, DIGITS[..k]) == r && DIGITS[k] == b
    requires ShiftsR16(XorR16(r, Bv(b) as bv16), 8) == x
    ensures DivideR16(0xFFFF, DIGITS[..k + 1]) == x
  {
    hide ShiftsR16, FeedByteR16, Xor8, Xor16, XorR16, XorR32;
    assert DIGITS[..k + 1][..k] == DIGITS[..k];
    FeedByteIsShiftsR16(r, Bv(b));
  }

  lemma FirstDigitsR16()
    ensures DivideR16(0xFFFF, DIGITS[..3]) == 0x634B
  {
    hide DivideR16;
    StartR16();
    NextR16(0, 0xFFFF, 49, 0x2F8D);
    NextR16(1, 0x2F8D, 50, 0x4D53);
    NextR16(2, 0x4D53, 51, 0x634B);
  }

  lemma SecondDigitsR16()
    requires DivideR16(0xFFFF, DIGITS[..3]) == 0x634B
    ensures DivideR16(0xFFFF, DIGITS[..6]) == 0x198D
  {
    hide DivideR16;
    NextR16(3, 0x634B, 52, 0x8B13);
    NextR16(4, 0x8B13, 53, 0x44BF);
    NextR16(5, 0x44BF, 54, 0x198D);
  }

  lemma ThirdDigitsR16()
    requires DivideR16(0xFFFF, DIGITS[..6]) == 0x198D
    ensures DivideR16(0xFFFF, DIGITS[..9]) == 0x6F91
  {
    hide DivideR16;
    NextR16(6, 0x198D, 55, 0x1AC8);
    NextR16(7, 0x1AC8, 56, 0xF795);
    NextR16(8, 0xF795, 57, 0x6F91);
  }

  lemma DigitsR16()
    ensures DivideR16(0xFFFF, DIGITS) == 0x6F91
  {
    hide DivideR16;
    FirstDigitsR16();
    SecondDigitsR16();
    ThirdDigitsR16();
    assert DIGITS[..9] == DIGITS;
  }

  lemma StartR16()
    ensures DivideR16(0xFFFF, DIGITS[..0]) == 0xFFFF
  {
  }

  lemma NextR32(k: nat, r: bv32, b: Byte, x: bv32)
    requires k < 9 && DivideR32(0xFFFFFFFF, DIGITS[..k]) == r && DIGITS[k] == b
    requires ShiftsR32(XorR32(r, Bv(b) as bv32), 8) == x
    ensures DivideR32(0xFFFFFFFF, DIGITS[..k + 1]) == x
  {
    hide ShiftsR32, FeedByteR32, Xor8, Xor16, XorR16, XorR32;
    assert DIGITS[..k + 1][..k] == DIGITS[..k];
    FeedByteIsShiftsR32(r, Bv(b));
  }

  lemma FirstDigitsR32()
    ensures DivideR32(0xFFFFFFFF, DIGITS[..3]) == 0xEF84D04D
  {
    hide DivideR32;
    StartR32();
    NextR32(0, 0xFFFFFFFF, 49, 0x6F0A661C);
    NextR32(1, 0x6F0A661C, 50, 0x8CAA3B9F);
    NextR32(2, 0x8CAA3B9F, 51, 0xEF84D04D);
  }

  lemma SecondDigitsR32()
    requires DivideR32(0xFFFFFFFF, DIGITS[..3]) == 0xEF84D04D
    ensures DivideR32(0xFFFFFFFF, DIGITS[..6]) == 0xBECA8E79
  {
    hide DivideR32;
    NextR32(3, 0xEF84D04D, 52, 0x09C50B11);
    NextR32(4, 0x09C50B11, 53, 0xE72EDCCA);
    NextR32(5, 0xE72EDCCA, 54, 0xBECA8E79);
  }

  lemma ThirdDigitsR32()
    requires DivideR32(0xFFFFFFFF, DIGITS[..6]) == 0xBECA8E79
    ensures DivideR32(0xFFFFFFFF, DIGITS[..9]) == 0x1CF96D7C
  {
    hide DivideR32;
    NextR32(6, 0xBECA8E79, 55, 0xEDBD6815);
    NextR32(7, 0xEDBD6815, 56, 0x9F787F65);
    NextR32(8, 0x9F787F65, 57, 0x1CF96D7C);
  }

  lemma DigitsR32()
    ensures DivideR32(0xFFFFFFFF, DIGITS) == 0x1CF96D7C
  {
    hide DivideR32;
    FirstDigitsR32();
    SecondDigitsR32();
    ThirdDigitsR32();
    assert DIGITS[..9] == DIGITS;
  }

  lemma StartR32()
    ensures DivideR32(0xFFFFFFFF, DIGITS[..0]) == 0xFFFFFFFF
  {
  }

  /** The checksum of text frames: 0xFB. */
  lemma CheckCrc8()
    ensures LineFraming.CrcByte(DIGITS) == 0xFB
  {
    hide Divide8;
    Digits8();
  }

  /** That of bootloader lines is CRC-16/CCITT-FALSE: 0x29B1. */
  lemma CheckCrc16()
    ensures BootloaderTransport.Crc16(DIGITS) == 0x29B1
  {
    hide Divide16;
    Digits16();
  }

  /** That of bootloader frames is the X.25 one, 0x906E, with its bytes swapped. */
  lemma CheckFcs()
    ensures Checksum16(CrcChecksumType, DIGITS) == 0x6E90
  {
    hide DivideR16, Fcs;
    FcsIsDivision(DIGITS);
    DigitsR16();
  }

  /** The other one makes the sum of the bytes zero, 0xFE23 for a sum of 477. */
  lemma CheckSum()
    ensures Checksum16(SumChecksumType, DIGITS) == 0x1_0000 - 477
  {
    assert Sum(DIGITS) == 477 by { SumOfDigits(); }
  }

  lemma SumOfDigits()
    ensures Sum(DIGITS) == 477
  {
    OneMore(8);
    OneMore(7);
    OneMore(6);
    OneMore(5);
    OneMore(4);
    OneMore(3);
    OneMore(2);
    OneMore(1);
    OneMore(0);
    assert DIGITS[..9] == DIGITS && DIGITS[..0] == [];
  }

  lemma OneMore(k: nat)
    requires k < 9
    ensures Sum(DIGITS[..k + 1]) == Sum(DIGITS[..k]) + DIGITS[k]
  {
    assert DIGITS[..k + 1][..k] == DIGITS[..k];
  }

  /** That of rows in the newer format is CRC-32C: 0xE3069283. */
  lemma CheckCrc32c()
    ensures Checksum32(DIGITS) == 0xE3069283
  {
    hide DivideR32;
    DigitsR32();
  }
}
