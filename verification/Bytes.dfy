/** Shared value types: unsigned bytes and optional values; the sizes of sets. */
module Bytes {

  /** The range of `uint8_t` and of `eigen_addr_t`. */
  type Byte = x: int | 0 <= x < 256

  datatype Option<+T> = None | Some(value: T)

  function Bv(x: Byte): bv8
  {
    x as bv8
  }

  /** Every value of a byte is that of some bit vector. */
  lemma {:induction false} WithValue(k: nat) returns (b: bv8)
    requires k < 256
    ensures b as int == k
  {
    if k == 0 {
      b := 0;
    } else {
      var c := WithValue(k - 1);
      b := c + 1;
    }
  }

  lemma BvValue(x: Byte)
    ensures (x as bv8) as int == x
  {
    var b := WithValue(x);
    assert x as bv8 == b;
  }

  lemma DistinctBv16(x: bv16, y: bv16)
    requires x != y
    ensures x as int != y as int
  {
    assert (x as int) as bv16 == x && (y as int) as bv16 == y;
  }

  lemma SubsetSize<T>(a: set<T>, b: set<T>)
    requires a <= b
    ensures |a| <= |b|
  {
    assert b == a + (b - a);
  }

  /** There are only so many bytes. */
  lemma {:induction false} SetBelow(s: set<Byte>, n: nat)
    requires n <= 256 && forall x :: x in s ==> x < n
    ensures |s| <= n
  {
    if n == 0 {
      assert s == {};
    } else {
      SetBelow(s - {n - 1}, n - 1);
      SubsetSize(s, (s - {n - 1}) + {n - 1});
    }
  }
}
