/** A change of one byte never goes unnoticed by the CRC of its frame. */
module CrcDetection {
  import opened Bytes
  import opened CrcTables
  import opened Checksums

  ghost predicate DifferOnlyAt(a: seq<Byte>, b: seq<Byte>, i: nat)
  {
    |a| == |b| && i < |a| && a[i] != b[i] && forall j :: 0 <= j < |a| && j != i ==> a[j] == b[j]
  }

  lemma DistinctBv(x: Byte, y: Byte)
    requires x != y
    ensures Bv(x) != Bv(y)
  {
    BvValue(x);
    BvValue(y);
  }

  lemma FeedByteAsShifts8(reg: bv8, d: bv8)
    ensures FeedByte8(reg, d) == Shifts8(Xor8(reg, d), 8)
  {
    hide Shift8Times8, Shifts8, FeedByte8, Xor8;
    FeedByteIsShifts8(reg, d);
    EightShifts8(Xor8(reg, d));
  }

  lemma FeedByteAsShifts16(reg: bv16, d: bv8)
    ensures FeedByte16(reg, d) == Shifts16(Xor16(reg, (d as bv16) << 8), 8)
  {
    hide Shifts16, FeedBits16, ShiftedOut16, Xor16;
    FeedBitsIsShifts16(reg, (d as bv16) << 8, 8);
    EightDoubles16((d as bv16) << 8);
    ByteOut(d);
    XorZero16(FeedBits16(reg, (d as bv16) << 8, 8));
  }

  /** A step of division can be undone: the low bit tells whether the polynomial was added. */
  function Unshift8(c: bv8): bv8
  {
    if c & 1 != 0 then ((c ^ 0x07) >> 1) | 0x80 else c >> 1
  }

  lemma OddUndone8(c: bv8)
    requires c & 0x80 != 0
    ensures Unshift8((c << 1) ^ 0x07) == c
  {
  }

  lemma EvenUndone8(c: bv8)
    requires c & 0x80 == 0
    ensures Unshift8(c << 1) == c
  {
  }

  lemma ShiftUndone8(c: bv8)
    ensures Unshift8(Shift8(c)) == c
  {
    hide Unshift8;
    if c & 0x80 != 0 {
      OddUndone8(c);
    } else {
      EvenUndone8(c);
    }
  }

  lemma ShiftRedone8(c: bv8)
    ensures Shift8(Unshift8(c)) == c
  {
  }

  function Unshifts8(c: bv8, n: nat): bv8
    decreases n
  {
    if n == 0 then c else Unshift8(Unshifts8(c, n - 1))
  }

  lemma {:induction false} ShiftsRedone8(c: bv8, n: nat)
    ensures Shifts8(Unshifts8(c, n), n) == c
    decreases n
  {
    hide Shift8, Unshift8;
    if n > 0 {
      ShiftRedone8(Unshifts8(c, n - 1));
      ShiftsRedone8(c, n - 1);
    }
  }

  lemma Shift8Injective(a: bv8, b: bv8)
    requires Shift8(a) == Shift8(b)
    ensures a == b
  {
    ShiftUndone8(a);
    ShiftUndone8(b);
  }

  lemma {:induction false} Shifts8Injective(a: bv8, b: bv8, n: nat)
    requires Shifts8(a, n) == Shifts8(b, n)
    ensures a == b
    decreases n
  {
    hide Shift8;
    if n > 0 {
      Shifts8Injective(Shift8(a), Shift8(b), n - 1);
      Shift8Injective(a, b);
    }
  }

  lemma XorByteCancels8(r: bv8, d: bv8, e: bv8)
    requires Xor8(r, d) == Xor8(r, e)
    ensures d == e
  {
  }

  lemma XorRegisterCancels8(r: bv8, s: bv8, d: bv8)
    requires Xor8(r, d) == Xor8(s, d)
    ensures r == s
  {
  }

  /** For a fixed byte the step is injective in the register, for a fixed register in the byte. */
  lemma FeedByte8Injective(r: bv8, d: bv8, s: bv8, e: bv8)
    requires FeedByte8(r, d) == FeedByte8(s, e)
    ensures r == s <==> d == e
  {
    hide FeedByte8, Shifts8, Xor8;
    FeedByteAsShifts8(r, d);
    FeedByteAsShifts8(s, e);
    Shifts8Injective(Xor8(r, d), Xor8(s, e), 8);
    if r == s {
      XorByteCancels8(r, d, e);
    } else if d == e {
      XorRegisterCancels8(r, s, d);
    }
  }

  /** Every register is reached, from every register by some byte and with every byte from some register. */
  lemma FeedByte8Onto(y: bv8, r: bv8, d: bv8)
    ensures FeedByte8(r, Xor8(r, Unshifts8(y, 8))) == y
    ensures FeedByte8(Xor8(Unshifts8(y, 8), d), d) == y
  {
    hide FeedByte8, Shifts8, Xor8, Unshifts8;
    var u := Unshifts8(y, 8);
    ShiftsRedone8(y, 8);
    FeedByteAsShifts8(r, Xor8(r, u));
    FeedByteAsShifts8(Xor8(u, d), d);
    MixedTwice8(r, u);
    MixedTwice8(d, u);
  }

  lemma MixedTwice8(a: bv8, b: bv8)
    ensures Xor8(a, Xor8(a, b)) == b && Xor8(Xor8(b, a), a) == b
  {
  }

  /** Messages of equal length that differ in exactly one byte leave different registers. */
  lemma {:induction false} OneByteChanged8(reg: bv8, a: seq<Byte>, b: seq<Byte>, i: nat)
    requires DifferOnlyAt(a, b, i)
    ensures Divide8(reg, a) != Divide8(reg, b)
    decreases |a|
  {
    hide FeedByte8, Bv;
    var k := |a| - 1;
    if i < k {
      assert DifferOnlyAt(a[..k], b[..k], i);
      OneByteChanged8(reg, a[..k], b[..k], i);
    } else {
      assert a[..k] == b[..k];
      DistinctBv(a[k], b[k]);
    }
    if Divide8(reg, a) == Divide8(reg, b) {
      FeedByte8Injective(Divide8(reg, a[..k]), Bv(a[k]), Divide8(reg, b[..k]), Bv(b[k]));
    }
  }

  /** A step of division can be undone: the low bit tells whether the polynomial was added. */
  function Unshift16(c: bv16): bv16
  {
    if c & 1 != 0 then ((c ^ 0x1021) >> 1) | 0x8000 else c >> 1
  }

  lemma OddUndone16(c: bv16)
    requires c & 0x8000 != 0
    ensures Unshift16((c << 1) ^ 0x1021) == c
  {
  }

  lemma EvenUndone16(c: bv16)
    requires c & 0x8000 == 0
    ensures Unshift16(c << 1) == c
  {
  }

  lemma ShiftUndone16(c: bv16)
    ensures Unshift16(Shift16(c)) == c
  {
    hide Unshift16;
    if c & 0x8000 != 0 {
      OddUndone16(c);
    } else {
      EvenUndone16(c);
    }
  }

  lemma ShiftRedone16(c: bv16)
    ensures Shift16(Unshift16(c)) == c
  {
  }

  function Unshifts16(c: bv16, n: nat): bv16
    decreases n
  {
    if n == 0 then c else Unshift16(Unshifts16(c, n - 1))
  }

  lemma {:induction false} ShiftsRedone16(c: bv16, n: nat)
    ensures Shifts16(Unshifts16(c, n), n) == c
    decreases n
  {
    hide Shift16, Unshift16;
    if n > 0 {
      ShiftRedone16(Unshifts16(c, n - 1));
      ShiftsRedone16(c, n - 1);
    }
  }

  lemma Shift16Injective(a: bv16, b: bv16)
    requires Shift16(a) == Shift16(b)
    ensures a == b
  {
    ShiftUndone16(a);
    ShiftUndone16(b);
  }

  lemma {:induction false} Shifts16Injective(a: bv16, b: bv16, n: nat)
    requires Shifts16(a, n) == Shifts16(b, n)
    ensures a == b
    decreases n
  {
    hide Shift16;
    if n > 0 {
      Shifts16Injective(Shift16(a), Shift16(b), n - 1);
      Shift16Injective(a, b);
    }
  }

  lemma XorByteCancels16(r: bv16, d: bv8, e: bv8)
    requires Xor16(r, (d as bv16) << 8) == Xor16(r, (e as bv16) << 8)
    ensures d == e
  {
  }

  lemma XorRegisterCancels16(r: bv16, s: bv16, d: bv8)
    requires Xor16(r, (d as bv16) << 8) == Xor16(s, (d as bv16) << 8)
    ensures r == s
  {
  }

  /** For a fixed byte the step is injective in the register, for a fixed register in the byte. */
  lemma FeedByte16Injective(r: bv16, d: bv8, s: bv16, e: bv8)
    requires FeedByte16(r, d) == FeedByte16(s, e)
    ensures r == s <==> d == e
  {
    hide FeedByte16, Shifts16, Xor16;
    FeedByteAsShifts16(r, d);
    FeedByteAsShifts16(s, e);
    Shifts16Injective(Xor16(r, (d as bv16) << 8), Xor16(s, (e as bv16) << 8), 8);
    if r == s {
      XorByteCancels16(r, d, e);
    } else if d == e {
      XorRegisterCancels16(r, s, d);
    }
  }

  /** With every byte every register is reached. */
  lemma FeedByte16Onto(y: bv16, d: bv8)
    ensures FeedByte16(Xor16(Unshifts16(y, 8), (d as bv16) << 8), d) == y
  {
    hide FeedByte16, Shifts16, Xor16, Unshifts16;
    var u, x := Unshifts16(y, 8), (d as bv16) << 8;
    ShiftsRedone16(y, 8);
    FeedByteAsShifts16(Xor16(u, x), d);
    MixedTwice16(u, x);
  }

  lemma MixedTwice16(a: bv16, b: bv16)
    ensures Xor16(Xor16(a, b), b) == a
  {
  }

  /** Messages of equal length that differ in exactly one byte leave different registers. */
  lemma {:induction false} OneByteChanged16(reg: bv16, a: seq<Byte>, b: seq<Byte>, i: nat)
    requires DifferOnlyAt(a, b, i)
    ensures Divide16(reg, a) != Divide16(reg, b)
    decreases |a|
  {
    hide FeedByte16, Bv;
    var k := |a| - 1;
    if i < k {
      assert DifferOnlyAt(a[..k], b[..k], i);
      OneByteChanged16(reg, a[..k], b[..k], i);
    } else {
      assert a[..k] == b[..k];
      DistinctBv(a[k], b[k]);
    }
    if Divide16(reg, a) == Divide16(reg, b) {
      FeedByte16Injective(Divide16(reg, a[..k]), Bv(a[k]), Divide16(reg, b[..k]), Bv(b[k]));
    }
  }
}
