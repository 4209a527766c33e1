/**
  The two 256-entry CRC tables, in rows of sixteen, and the proof that each entry is what eight steps of
  polynomial division make of its index.  Division is linear, so the first row and the first column decide.
 */
module CrcTables {
  function Xor8(a: bv8, b: bv8): bv8 { a ^ b }

  function Double8(a: bv8): bv8 { a << 1 }

  predicate Top8(a: bv8) { a & 0x80 != 0 }

  /** One step of dividing by x^8 + x^2 + x + 1, most significant bit first. */
  function Shift8(c: bv8): bv8
  {
    if Top8(c) then Xor8(Double8(c), 0x07) else Double8(c)
  }

  function Shift8Times8(c: bv8): bv8
  {
    Shift8(Shift8(Shift8(Shift8(Shift8(Shift8(Shift8(Shift8(c))))))))
  }

  function Xor16(a: bv16, b: bv16): bv16 { a ^ b }

  function Double16(a: bv16): bv16 { a << 1 }

  predicate Top16(a: bv16) { a & 0x8000 != 0 }

  /** One step of dividing by x^16 + x^12 + x^5 + 1, most significant bit first. */
  function Shift16(c: bv16): bv16
  {
    if Top16(c) then Xor16(Double16(c), 0x1021) else Double16(c)
  }

  function Shift16Times8(c: bv16): bv16
  {
    Shift16(Shift16(Shift16(Shift16(Shift16(Shift16(Shift16(Shift16(c))))))))
  }

  const CRC_8_TABLE: seq<seq<bv8>> := [
    [0x00, 0x07, 0x0E, 0x09, 0x1C, 0x1B, 0x12, 0x15, 0x38, 0x3F, 0x36, 0x31, 0x24, 0x23, 0x2A, 0x2D],
    [0x70, 0x77, 0x7E, 0x79, 0x6C, 0x6B, 0x62, 0x65, 0x48, 0x4F, 0x46, 0x41, 0x54, 0x53, 0x5A, 0x5D],
    [0xE0, 0xE7, 0xEE, 0xE9, 0xFC, 0xFB, 0xF2, 0xF5, 0xD8, 0xDF, 0xD6, 0xD1, 0xC4, 0xC3, 0xCA, 0xCD],
    [0x90, 0x97, 0x9E, 0x99, 0x8C, 0x8B, 0x82, 0x85, 0xA8, 0xAF, 0xA6, 0xA1, 0xB4, 0xB3, 0xBA, 0xBD],
    [0xC7, 0xC0, 0xC9, 0xCE, 0xDB, 0xDC, 0xD5, 0xD2, 0xFF, 0xF8, 0xF1, 0xF6, 0xE3, 0xE4, 0xED, 0xEA],
    [0xB7, 0xB0, 0xB9, 0xBE, 0xAB, 0xAC, 0xA5, 0xA2, 0x8F, 0x88, 0x81, 0x86, 0x93, 0x94, 0x9D, 0x9A],
    [0x27, 0x20, 0x29, 0x2E, 0x3B, 0x3C, 0x35, 0x32, 0x1F, 0x18, 0x11, 0x16, 0x03, 0x04, 0x0D, 0x0A],
    [0x57, 0x50, 0x59, 0x5E, 0x4B, 0x4C, 0x45, 0x42, 0x6F, 0x68, 0x61, 0x66, 0x73, 0x74, 0x7D, 0x7A],
    [0x89, 0x8E, 0x87, 0x80, 0x95, 0x92, 0x9B, 0x9C, 0xB1, 0xB6, 0xBF, 0xB8, 0xAD, 0xAA, 0xA3, 0xA4],
    [0xF9, 0xFE, 0xF7, 0xF0, 0xE5, 0xE2, 0xEB, 0xEC, 0xC1, 0xC6, 0xCF, 0xC8, 0xDD, 0xDA, 0xD3, 0xD4],
    [0x69, 0x6E, 0x67, 0x60, 0x75, 0x72, 0x7B, 0x7C, 0x51, 0x56, 0x5F, 0x58, 0x4D, 0x4A, 0x43, 0x44],
    [0x19, 0x1E, 0x17, 0x10, 0x05, 0x02, 0x0B, 0x0C, 0x21, 0x26, 0x2F, 0x28, 0x3D, 0x3A, 0x33, 0x34],
    [0x4E, 0x49, 0x40, 0x47, 0x52, 0x55, 0x5C, 0x5B, 0x76, 0x71, 0x78, 0x7F, 0x6A, 0x6D, 0x64, 0x63],
    [0x3E, 0x39, 0x30, 0x37, 0x22, 0x25, 0x2C, 0x2B, 0x06, 0x01, 0x08, 0x0F, 0x1A, 0x1D, 0x14, 0x13],
    [0xAE, 0xA9, 0xA0, 0xA7, 0xB2, 0xB5, 0xBC, 0xBB, 0x96, 0x91, 0x98, 0x9F, 0x8A, 0x8D, 0x84, 0x83],
    [0xDE, 0xD9, 0xD0, 0xD7, 0xC2, 0xC5, 0xCC, 0xCB, 0xE6, 0xE1, 0xE8, 0xEF, 0xFA, 0xFD, 0xF4, 0xF3]
  ]

  const CRC_16_TABLE: seq<seq<bv16>> := [
    [0x0000, 0x1021, 0x2042, 0x3063, 0x4084, 0x50A5, 0x60C6, 0x70E7,
     0x8108, 0x9129, 0xA14A, 0xB16B, 0xC18C, 0xD1AD, 0xE1CE, 0xF1EF],
    [0x1231, 0x0210, 0x3273, 0x2252, 0x52B5, 0x4294, 0x72F7, 0x62D6,
     0x9339, 0x8318, 0xB37B, 0xA35A, 0xD3BD, 0xC39C, 0xF3FF, 0xE3DE],
    [0x2462, 0x3443, 0x0420, 0x1401, 0x64E6, 0x74C7, 0x44A4, 0x5485,
     0xA56A, 0xB54B, 0x8528, 0x9509, 0xE5EE, 0xF5CF, 0xC5AC, 0xD58D],
    [0x3653, 0x2672, 0x1611, 0x0630, 0x76D7, 0x66F6, 0x5695, 0x46B4,
     0xB75B, 0xA77A, 0x9719, 0x8738, 0xF7DF, 0xE7FE, 0xD79D, 0xC7BC],
    [0x48C4, 0x58E5, 0x6886, 0x78A7, 0x0840, 0x1861, 0x2802, 0x3823,
     0xC9CC, 0xD9ED, 0xE98E, 0xF9AF, 0x8948, 0x9969, 0xA90A, 0xB92B],
    [0x5AF5, 0x4AD4, 0x7AB7, 0x6A96, 0x1A71, 0x0A50, 0x3A33, 0x2A12,
     0xDBFD, 0xCBDC, 0xFBBF, 0xEB9E, 0x9B79, 0x8B58, 0xBB3B, 0xAB1A],
    [0x6CA6, 0x7C87, 0x4CE4, 0x5CC5, 0x2C22, 0x3C03, 0x0C60, 0x1C41,
     0xEDAE, 0xFD8F, 0xCDEC, 0xDDCD, 0xAD2A, 0xBD0B, 0x8D68, 0x9D49],
    [0x7E97, 0x6EB6, 0x5ED5, 0x4EF4, 0x3E13, 0x2E32, 0x1E51, 0x0E70,
     0xFF9F, 0xEFBE, 0xDFDD, 0xCFFC, 0xBF1B, 0xAF3A, 0x9F59, 0x8F78],
    [0x9188, 0x81A9, 0xB1CA, 0xA1EB, 0xD10C, 0xC12D, 0xF14E, 0xE16F,
     0x1080, 0x00A1, 0x30C2, 0x20E3, 0x5004, 0x4025, 0x7046, 0x6067],
    [0x83B9, 0x9398, 0xA3FB, 0xB3DA, 0xC33D, 0xD31C, 0xE37F, 0xF35E,
     0x02B1, 0x1290, 0x22F3, 0x32D2, 0x4235, 0x5214, 0x6277, 0x7256],
    [0xB5EA, 0xA5CB, 0x95A8, 0x8589, 0xF56E, 0xE54F, 0xD52C, 0xC50D,
     0x34E2, 0x24C3, 0x14A0, 0x0481, 0x7466, 0x6447, 0x5424, 0x4405],
    [0xA7DB, 0xB7FA, 0x8799, 0x97B8, 0xE75F, 0xF77E, 0xC71D, 0xD73C,
     0x26D3, 0x36F2, 0x0691, 0x16B0, 0x6657, 0x7676, 0x4615, 0x5634],
    [0xD94C, 0xC96D, 0xF90E, 0xE92F, 0x99C8, 0x89E9, 0xB98A, 0xA9AB,
     0x5844, 0x4865, 0x7806, 0x6827, 0x18C0, 0x08E1, 0x3882, 0x28A3],
    [0xCB7D, 0xDB5C, 0xEB3F, 0xFB1E, 0x8BF9, 0x9BD8, 0xABBB, 0xBB9A,
     0x4A75, 0x5A54, 0x6A37, 0x7A16, 0x0AF1, 0x1AD0, 0x2AB3, 0x3A92],
    [0xFD2E, 0xED0F, 0xDD6C, 0xCD4D, 0xBDAA, 0xAD8B, 0x9DE8, 0x8DC9,
     0x7C26, 0x6C07, 0x5C64, 0x4C45, 0x3CA2, 0x2C83, 0x1CE0, 0x0CC1],
    [0xEF1F, 0xFF3E, 0xCF5D, 0xDF7C, 0xAF9B, 0xBFBA, 0x8FD9, 0x9FF8,
     0x6E17, 0x7E36, 0x4E55, 0x5E74, 0x2E93, 0x3EB2, 0x0ED1, 0x1EF0]
  ]

  // ---------- The CRC-8 table ----------

  lemma XorTop8(a: bv8, b: bv8)
    ensures Top8(Xor8(a, b)) == (Top8(a) != Top8(b))
  {
  }

  lemma XorDouble8(a: bv8, b: bv8)
    ensures Double8(Xor8(a, b)) == Xor8(Double8(a), Double8(b))
  {
  }

  lemma Poly8(a: bv8, b: bv8)
    ensures Xor8(Xor8(a, 0x07), b) == Xor8(Xor8(a, b), 0x07)
  {
  }

  lemma PolyTwice8(a: bv8)
    ensures Xor8(Xor8(a, 0x07), 0x07) == a
  {
  }

  lemma XorTurns8(a: bv8, b: bv8)
    ensures Xor8(a, b) == Xor8(b, a)
  {
  }

  lemma ShiftSums8(a: bv8, b: bv8)
    ensures Shift8(Xor8(a, b)) == Xor8(Shift8(a), Shift8(b))
  {
    hide Xor8, Double8, Top8;
    XorTop8(a, b);
    XorDouble8(a, b);
    var x, y := Double8(a), Double8(b);
    XorTurns8(x, Xor8(y, 0x07));
    XorTurns8(x, y);
    Poly8(x, y);
    Poly8(y, x);
    Poly8(x, Xor8(y, 0x07));
    PolyTwice8(Xor8(x, y));
  }

  lemma DivisionIsLinear8(a: bv8, b: bv8)
    ensures Shift8Times8(Xor8(a, b)) == Xor8(Shift8Times8(a), Shift8Times8(b))
  {
    hide Shift8, Xor8;
    ShiftSums8(a, b);
    var a1, b1 := Shift8(a), Shift8(b);
    ShiftSums8(a1, b1);
    var a2, b2 := Shift8(a1), Shift8(b1);
    ShiftSums8(a2, b2);
    var a3, b3 := Shift8(a2), Shift8(b2);
    ShiftSums8(a3, b3);
    var a4, b4 := Shift8(a3), Shift8(b3);
    ShiftSums8(a4, b4);
    var a5, b5 := Shift8(a4), Shift8(b4);
    ShiftSums8(a5, b5);
    var a6, b6 := Shift8(a5), Shift8(b5);
    ShiftSums8(a6, b6);
    var a7, b7 := Shift8(a6), Shift8(b6);
    ShiftSums8(a7, b7);
  }

  /** The entries of the first row are those of the indices below 16. */
  ghost predicate FirstRow8(row: seq<bv8>)
  {
    && |row| == 16
    && row[0] == Shift8Times8(0) && row[1] == Shift8Times8(1)
    && row[2] == Shift8Times8(2) && row[3] == Shift8Times8(3)
    && row[4] == Shift8Times8(4) && row[5] == Shift8Times8(5)
    && row[6] == Shift8Times8(6) && row[7] == Shift8Times8(7)
    && row[8] == Shift8Times8(8) && row[9] == Shift8Times8(9)
    && row[10] == Shift8Times8(10) && row[11] == Shift8Times8(11)
    && row[12] == Shift8Times8(12) && row[13] == Shift8Times8(13)
    && row[14] == Shift8Times8(14) && row[15] == Shift8Times8(15)
  }

  /** The entries of the first column are those of the multiples of 16. */
  ghost predicate Column8(table: seq<seq<bv8>>, from: nat)
  {
    && |table| == 16 && (forall h :: 0 <= h < 16 ==> |table[h]| == 16)
    && match from
       case 0 =>
         && table[0][0] == Shift8Times8(0x00) && table[1][0] == Shift8Times8(0x10)
         && table[2][0] == Shift8Times8(0x20) && table[3][0] == Shift8Times8(0x30)
       case 4 =>
         && table[4][0] == Shift8Times8(0x40) && table[5][0] == Shift8Times8(0x50)
         && table[6][0] == Shift8Times8(0x60) && table[7][0] == Shift8Times8(0x70)
       case 8 =>
         && table[8][0] == Shift8Times8(0x80) && table[9][0] == Shift8Times8(0x90)
         && table[10][0] == Shift8Times8(0xA0) && table[11][0] == Shift8Times8(0xB0)
       case _ =>
         && table[12][0] == Shift8Times8(0xC0) && table[13][0] == Shift8Times8(0xD0)
         && table[14][0] == Shift8Times8(0xE0) && table[15][0] == Shift8Times8(0xF0)
  }

  /** Every entry of the row is the sum of its first and of the first row's above it. */
  ghost predicate SumRow8(row: seq<bv8>, first: seq<bv8>)
  {
    && |row| == 16 && |first| == 16
    && row[0] == Xor8(row[0], first[0]) && row[1] == Xor8(row[0], first[1])
    && row[2] == Xor8(row[0], first[2]) && row[3] == Xor8(row[0], first[3])
    && row[4] == Xor8(row[0], first[4]) && row[5] == Xor8(row[0], first[5])
    && row[6] == Xor8(row[0], first[6]) && row[7] == Xor8(row[0], first[7])
    && row[8] == Xor8(row[0], first[8]) && row[9] == Xor8(row[0], first[9])
    && row[10] == Xor8(row[0], first[10]) && row[11] == Xor8(row[0], first[11])
    && row[12] == Xor8(row[0], first[12]) && row[13] == Xor8(row[0], first[13])
    && row[14] == Xor8(row[0], first[14]) && row[15] == Xor8(row[0], first[15])
  }

  lemma FirstRowRight8()
    ensures |CRC_8_TABLE| == 16 && FirstRow8(CRC_8_TABLE[0])
  {
  }

  lemma FirstColumn8()
    ensures Column8(CRC_8_TABLE, 0)
  {
  }

  lemma SecondColumn8()
    ensures Column8(CRC_8_TABLE, 4)
  {
  }

  lemma ThirdColumn8()
    ensures Column8(CRC_8_TABLE, 8)
  {
  }

  lemma FourthColumn8()
    ensures Column8(CRC_8_TABLE, 12)
  {
  }

  lemma FirstSums8()
    ensures |CRC_8_TABLE| == 16
    ensures SumRow8(CRC_8_TABLE[0], CRC_8_TABLE[0])
    ensures SumRow8(CRC_8_TABLE[1], CRC_8_TABLE[0])
    ensures SumRow8(CRC_8_TABLE[2], CRC_8_TABLE[0])
    ensures SumRow8(CRC_8_TABLE[3], CRC_8_TABLE[0])
  {
  }

  lemma SecondSums8()
    ensures |CRC_8_TABLE| == 16
    ensures SumRow8(CRC_8_TABLE[4], CRC_8_TABLE[0])
    ensures SumRow8(CRC_8_TABLE[5], CRC_8_TABLE[0])
    ensures SumRow8(CRC_8_TABLE[6], CRC_8_TABLE[0])
    ensures SumRow8(CRC_8_TABLE[7], CRC_8_TABLE[0])
  {
  }

  lemma ThirdSums8()
    ensures |CRC_8_TABLE| == 16
    ensures SumRow8(CRC_8_TABLE[8], CRC_8_TABLE[0])
    ensures SumRow8(CRC_8_TABLE[9], CRC_8_TABLE[0])
    ensures SumRow8(CRC_8_TABLE[10], CRC_8_TABLE[0])
    ensures SumRow8(CRC_8_TABLE[11], CRC_8_TABLE[0])
  {
  }

  lemma FourthSums8()
    ensures |CRC_8_TABLE| == 16
    ensures SumRow8(CRC_8_TABLE[12], CRC_8_TABLE[0])
    ensures SumRow8(CRC_8_TABLE[13], CRC_8_TABLE[0])
    ensures SumRow8(CRC_8_TABLE[14], CRC_8_TABLE[0])
    ensures SumRow8(CRC_8_TABLE[15], CRC_8_TABLE[0])
  {
  }

  lemma InRow8(row: seq<bv8>, first: seq<bv8>, l: bv8)
    requires SumRow8(row, first) && FirstRow8(first) && l < 16
    ensures |row| == 16 && row[l as int] == Xor8(row[0], Shift8Times8(l))
  {
    hide Shift8Times8, Xor8;
  }

  lemma InColumn8(table: seq<seq<bv8>>, h: bv8)
    requires Column8(table, 0) && Column8(table, 4) && Column8(table, 8) && Column8(table, 12) && h < 16
    ensures |table| == 16 && |table[h as int]| == 16 && table[h as int][0] == Shift8Times8(h << 4)
  {
    hide Shift8Times8;
  }

  lemma AllSums8(h: bv8)
    requires h < 16
    ensures |CRC_8_TABLE| == 16 && SumRow8(CRC_8_TABLE[h as int], CRC_8_TABLE[0])
  {
    hide SumRow8;
    FirstSums8();
    SecondSums8();
    ThirdSums8();
    FourthSums8();
  }

  lemma Halved8(x: bv8)
    ensures x >> 4 < 16 && x & 15 < 16
    ensures Xor8((x >> 4) << 4, x & 15) == x
  {
  }

  lemma Found8(x: bv8)
    ensures x >> 4 < 16 && x & 15 < 16 && |CRC_8_TABLE| == 16 && |CRC_8_TABLE[(x >> 4) as int]| == 16
    ensures CRC_8_TABLE[(x >> 4) as int][(x & 15) as int] == Shift8Times8(x)
  {
    hide FirstRow8, Column8, SumRow8, Shift8Times8, Xor8;
    var h, l := x >> 4, x & 15;
    Halved8(x);
    FirstRowRight8();
    FirstColumn8();
    SecondColumn8();
    ThirdColumn8();
    FourthColumn8();
    AllSums8(h);
    InColumn8(CRC_8_TABLE, h);
    InRow8(CRC_8_TABLE[h as int], CRC_8_TABLE[0], l);
    DivisionIsLinear8(h << 4, l);
  }

  function Lookup8(x: bv8): (r: bv8)
    ensures r == Shift8Times8(x)
  {
    Found8(x);
    CRC_8_TABLE[(x >> 4) as int][(x & 15) as int]
  }

  // ---------- The CRC-16 table ----------

  lemma XorTop16(a: bv16, b: bv16)
    ensures Top16(Xor16(a, b)) == (Top16(a) != Top16(b))
  {
  }

  lemma XorDouble16(a: bv16, b: bv16)
    ensures Double16(Xor16(a, b)) == Xor16(Double16(a), Double16(b))
  {
  }

  lemma Poly16(a: bv16, b: bv16)
    ensures Xor16(Xor16(a, 0x1021), b) == Xor16(Xor16(a, b), 0x1021)
  {
  }

  lemma PolyTwice16(a: bv16)
    ensures Xor16(Xor16(a, 0x1021), 0x1021) == a
  {
  }

  lemma XorTurns16(a: bv16, b: bv16)
    ensures Xor16(a, b) == Xor16(b, a)
  {
  }

  lemma ShiftSums16(a: bv16, b: bv16)
    ensures Shift16(Xor16(a, b)) == Xor16(Shift16(a), Shift16(b))
  {
    hide Xor16, Double16, Top16;
    XorTop16(a, b);
    XorDouble16(a, b);
    var x, y := Double16(a), Double16(b);
    XorTurns16(x, Xor16(y, 0x1021));
    XorTurns16(x, y);
    Poly16(x, y);
    Poly16(y, x);
    Poly16(x, Xor16(y, 0x1021));
    PolyTwice16(Xor16(x, y));
  }

  lemma DivisionIsLinear16(a: bv16, b: bv16)
    ensures Shift16Times8(Xor16(a, b)) == Xor16(Shift16Times8(a), Shift16Times8(b))
  {
    hide Shift16, Xor16;
    ShiftSums16(a, b);
    var a1, b1 := Shift16(a), Shift16(b);
    ShiftSums16(a1, b1);
    var a2, b2 := Shift16(a1), Shift16(b1);
    ShiftSums16(a2, b2);
    var a3, b3 := Shift16(a2), Shift16(b2);
    ShiftSums16(a3, b3);
    var a4, b4 := Shift16(a3), Shift16(b3);
    ShiftSums16(a4, b4);
    var a5, b5 := Shift16(a4), Shift16(b4);
    ShiftSums16(a5, b5);
    var a6, b6 := Shift16(a5), Shift16(b5);
    ShiftSums16(a6, b6);
    var a7, b7 := Shift16(a6), Shift16(b6);
    ShiftSums16(a7, b7);
  }

  /** The entries of the first row are those of the indices below 16. */
  ghost predicate FirstRow16(row: seq<bv16>)
  {
    && |row| == 16
    && row[0] == Shift16Times8(0x000) && row[1] == Shift16Times8(0x100)
    && row[2] == Shift16Times8(0x200) && row[3] == Shift16Times8(0x300)
    && row[4] == Shift16Times8(0x400) && row[5] == Shift16Times8(0x500)
    && row[6] == Shift16Times8(0x600) && row[7] == Shift16Times8(0x700)
    && row[8] == Shift16Times8(0x800) && row[9] == Shift16Times8(0x900)
    && row[10] == Shift16Times8(0xA00) && row[11] == Shift16Times8(0xB00)
    && row[12] == Shift16Times8(0xC00) && row[13] == Shift16Times8(0xD00)
    && row[14] == Shift16Times8(0xE00) && row[15] == Shift16Times8(0xF00)
  }

  /** The entries of the first column are those of the multiples of 16. */
  ghost predicate Column16(table: seq<seq<bv16>>, from: nat)
  {
    && |table| == 16 && (forall h :: 0 <= h < 16 ==> |table[h]| == 16)
    && match from
       case 0 =>
         && table[0][0] == Shift16Times8(0x0000) && table[1][0] == Shift16Times8(0x1000)
         && table[2][0] == Shift16Times8(0x2000) && table[3][0] == Shift16Times8(0x3000)
       case 4 =>
         && table[4][0] == Shift16Times8(0x4000) && table[5][0] == Shift16Times8(0x5000)
         && table[6][0] == Shift16Times8(0x6000) && table[7][0] == Shift16Times8(0x7000)
       case 8 =>
         && table[8][0] == Shift16Times8(0x8000) && table[9][0] == Shift16Times8(0x9000)
         && table[10][0] == Shift16Times8(0xA000) && table[11][0] == Shift16Times8(0xB000)
       case _ =>
         && table[12][0] == Shift16Times8(0xC000) && table[13][0] == Shift16Times8(0xD000)
         && table[14][0] == Shift16Times8(0xE000) && table[15][0] == Shift16Times8(0xF000)
  }

  /** Every entry of the row is the sum of its first and of the first row's above it. */
  ghost predicate SumRow16(row: seq<bv16>, first: seq<bv16>)
  {
    && |row| == 16 && |first| == 16
    && row[0] == Xor16(row[0], first[0]) && row[1] == Xor16(row[0], first[1])
    && row[2] == Xor16(row[0], first[2]) && row[3] == Xor16(row[0], first[3])
    && row[4] == Xor16(row[0], first[4]) && row[5] == Xor16(row[0], first[5])
    && row[6] == Xor16(row[0], first[6]) && row[7] == Xor16(row[0], first[7])
    && row[8] == Xor16(row[0], first[8]) && row[9] == Xor16(row[0], first[9])
    && row[10] == Xor16(row[0], first[10]) && row[11] == Xor16(row[0], first[11])
    && row[12] == Xor16(row[0], first[12]) && row[13] == Xor16(row[0], first[13])
    && row[14] == Xor16(row[0], first[14]) && row[15] == Xor16(row[0], first[15])
  }

  lemma FirstRowRight16()
    ensures |CRC_16_TABLE| == 16 && FirstRow16(CRC_16_TABLE[0])
  {
  }

  lemma FirstColumn16()
    ensures Column16(CRC_16_TABLE, 0)
  {
  }

  lemma SecondColumn16()
    ensures Column16(CRC_16_TABLE, 4)
  {
  }

  lemma ThirdColumn16()
    ensures Column16(CRC_16_TABLE, 8)
  {
  }

  lemma FourthColumn16()
    ensures Column16(CRC_16_TABLE, 12)
  {
  }

  lemma FirstSums16()
    ensures |CRC_16_TABLE| == 16
    ensures SumRow16(CRC_16_TABLE[0], CRC_16_TABLE[0])
    ensures SumRow16(CRC_16_TABLE[1], CRC_16_TABLE[0])
    ensures SumRow16(CRC_16_TABLE[2], CRC_16_TABLE[0])
    ensures SumRow16(CRC_16_TABLE[3], CRC_16_TABLE[0])
  {
  }

  lemma SecondSums16()
    ensures |CRC_16_TABLE| == 16
    ensures SumRow16(CRC_16_TABLE[4], CRC_16_TABLE[0])
    ensures SumRow16(CRC_16_TABLE[5], CRC_16_TABLE[0])
    ensures SumRow16(CRC_16_TABLE[6], CRC_16_TABLE[0])
    ensures SumRow16(CRC_16_TABLE[7], CRC_16_TABLE[0])
  {
  }

  lemma ThirdSums16()
    ensures |CRC_16_TABLE| == 16
    ensures SumRow16(CRC_16_TABLE[8], CRC_16_TABLE[0])
    ensures SumRow16(CRC_16_TABLE[9], CRC_16_TABLE[0])
    ensures SumRow16(CRC_16_TABLE[10], CRC_16_TABLE[0])
    ensures SumRow16(CRC_16_TABLE[11], CRC_16_TABLE[0])
  {
  }

  lemma FourthSums16()
    ensures |CRC_16_TABLE| == 16
    ensures SumRow16(CRC_16_TABLE[12], CRC_16_TABLE[0])
    ensures SumRow16(CRC_16_TABLE[13], CRC_16_TABLE[0])
    ensures SumRow16(CRC_16_TABLE[14], CRC_16_TABLE[0])
    ensures SumRow16(CRC_16_TABLE[15], CRC_16_TABLE[0])
  {
  }

  lemma InRow16(row: seq<bv16>, first: seq<bv16>, l: bv8)
    requires SumRow16(row, first) && FirstRow16(first) && l < 16
    ensures |row| == 16 && row[l as int] == Xor16(row[0], Shift16Times8((l as bv16) << 8))
  {
    hide Shift16Times8, Xor16;
  }

  lemma InColumn16(table: seq<seq<bv16>>, h: bv8)
    requires Column16(table, 0) && Column16(table, 4) && Column16(table, 8) && Column16(table, 12) && h < 16
    ensures |table| == 16 && |table[h as int]| == 16 && table[h as int][0] == Shift16Times8((h as bv16) << 12)
  {
    hide Shift16Times8;
  }

  lemma AllSums16(h: bv8)
    requires h < 16
    ensures |CRC_16_TABLE| == 16 && SumRow16(CRC_16_TABLE[h as int], CRC_16_TABLE[0])
  {
    hide SumRow16;
    FirstSums16();
    SecondSums16();
    ThirdSums16();
    FourthSums16();
  }

  lemma Halved16(x: bv8)
    ensures x >> 4 < 16 && x & 15 < 16
    ensures Xor16(((x >> 4) as bv16) << 12, ((x & 15) as bv16) << 8) == (x as bv16) << 8
  {
  }

  lemma Found16(x: bv8)
    ensures x >> 4 < 16 && x & 15 < 16 && |CRC_16_TABLE| == 16 && |CRC_16_TABLE[(x >> 4) as int]| == 16
    ensures CRC_16_TABLE[(x >> 4) as int][(x & 15) as int] == Shift16Times8((x as bv16) << 8)
  {
    hide FirstRow16, Column16, SumRow16, Shift16Times8, Xor16;
    var h, l := x >> 4, x & 15;
    Halved16(x);
    FirstRowRight16();
    FirstColumn16();
    SecondColumn16();
    ThirdColumn16();
    FourthColumn16();
    AllSums16(h);
    InColumn16(CRC_16_TABLE, h);
    InRow16(CRC_16_TABLE[h as int], CRC_16_TABLE[0], l);
    DivisionIsLinear16((h as bv16) << 12, (l as bv16) << 8);
  }

  function Lookup16(x: bv8): (r: bv16)
    ensures r == Shift16Times8((x as bv16) << 8)
  {
    Found16(x);
    CRC_16_TABLE[(x >> 4) as int][(x & 15) as int]
  }
}
