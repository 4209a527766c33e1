/** Hexadecimal text: digits as `%02X` prints them and as `isxdigit` and `strtol` read them. */
module Hex {
  import opened Bytes

  type Text = seq<Byte>
  type Digit = x: int | 0 <= x < 16

  /** Upper-case digit characters. */
  function DigitChar(v: Digit): Byte
  {
    if v < 10 then 48 + v else 55 + v
  }

  predicate IsDigit(c: Byte)
  {
    48 <= c <= 57 || 65 <= c <= 70 || 97 <= c <= 102
  }

  function DigitValue(c: Byte): Digit
    requires IsDigit(c)
  {
    if c <= 57 then c - 48 else if c <= 70 then c - 55 else c - 87
  }

  /** The position after the hexadecimal digits that start at `i`. */
  function DigitsEnd(s: Text, i: nat): (e: nat)
    requires i <= |s|
    ensures i <= e <= |s|
    decreases |s| - i
  {
    if i < |s| && IsDigit(s[i]) then DigitsEnd(s, i + 1) else i
  }

  /** The number written in `s[i..e]`. */
  function Number(s: Text, i: nat, e: nat): nat
    requires i <= e <= |s| && forall k :: i <= k < e ==> IsDigit(s[k])
    decreases e
  {
    if i == e then 0 else 16 * Number(s, i, e - 1) + DigitValue(s[e - 1])
  }

  lemma {:induction false} DigitsEndIsRun(s: Text, i: nat)
    requires i <= |s|
    ensures forall k :: i <= k < DigitsEnd(s, i) ==> IsDigit(s[k])
    ensures DigitsEnd(s, i) == |s| || !IsDigit(s[DigitsEnd(s, i)])
    decreases |s| - i
  {
    if i < |s| && IsDigit(s[i]) {
      DigitsEndIsRun(s, i + 1);
    }
  }

  /** `strtol` to base 16: the number written by the digits from `i` on, and where they end. */
  function ReadHex(s: Text, i: nat): (nat, nat)
    requires i <= |s|
  {
    DigitsEndIsRun(s, i);
    (Number(s, i, DigitsEnd(s, i)), DigitsEnd(s, i))
  }

  /** `%02X` of a byte. */
  function TwoDigits(b: Byte): Text
  {
    [DigitChar(b / 16), DigitChar(b % 16)]
  }

  lemma DigitRoundTrip(v: Digit)
    ensures IsDigit(DigitChar(v)) && DigitValue(DigitChar(v)) == v
  {
  }

  /** Digits up to `e` and no further: the run ends at `e`. */
  lemma {:induction false} RunEnds(s: Text, i: nat, e: nat)
    requires i <= e <= |s| && (forall k :: i <= k < e ==> IsDigit(s[k])) && (e < |s| ==> !IsDigit(s[e]))
    ensures DigitsEnd(s, i) == e
    decreases e - i
  {
    if i < e {
      RunEnds(s, i + 1, e);
    }
  }

  lemma ReadTwoDigits(s: Text, i: nat, b: Byte)
    requires i + 2 <= |s| && s[i..i + 2] == TwoDigits(b) && (i + 2 < |s| ==> !IsDigit(s[i + 2]))
    ensures ReadHex(s, i) == (b as int, i + 2)
  {
    DigitRoundTrip(b / 16);
    DigitRoundTrip(b % 16);
    assert s[i] == s[i..i + 2][0] && s[i + 1] == s[i..i + 2][1];
    RunEnds(s, i, i + 2);
    assert Number(s, i, i + 1) == b / 16 by { assert Number(s, i, i) == 0; }
  }
}
