/** Return codes of the bootloader host. */
module CyErrors {
  const CYRET_SUCCESS := 0
  const CYRET_ERR_FILE := 0x01
  const CYRET_ERR_EOF := 0x02
  const CYRET_ERR_LENGTH := 0x03
  const CYRET_ERR_DATA := 0x04
  const CYRET_ERR_CMD := 0x05
  const CYRET_ERR_DEVICE := 0x06
  const CYRET_ERR_VERSION := 0x07
  const CYRET_ERR_CHECKSUM := 0x08
  const CYRET_ERR_ARRAY := 0x09
  const CYRET_ERR_ROW := 0x0A
  const CYRET_ERR_ACTIVE := 0x0C
  const CYRET_ABORT := 0xFF
  const CYRET_ERR_COMM_MASK := 0x2000
  const CYRET_ERR_BTLDR_MASK := 0x4000
  const CYBTLDR_STAT_ERR_CMD := 0x05

  /** An `int` of the original. */
  type Code = x: int | -0x8000_0000 <= x < 0x8000_0000

  /** Not an `int`: from here on the original's behaviour is undefined. */
  const UNDEFINED := 0x1_0000_0000

  /** Is the bit of weight 0x2000 set?  In two's complement, negative codes included. */
  predicate HasCommBit(err: int)
  {
    err / CYRET_ERR_COMM_MASK % 2 == 1
  }

  /** `err | CYRET_ERR_COMM_MASK`. */
  function WithCommBit(err: int): (r: int)
    ensures HasCommBit(r)
  {
    if HasCommBit(err) then err else err + CYRET_ERR_COMM_MASK
  }

  /** The bit is that of the low fourteen bits' upper half, for negative numbers as well. */
  lemma CommBitIs(high: int, low: nat)
    requires low < 0x4000
    ensures HasCommBit(0x4000 * high + low) <==> low >= 0x2000
    ensures WithCommBit(0x4000 * high + low) == 0x4000 * high + (if low >= 0x2000 then low else low + 0x2000)
  {
    var err := 0x4000 * high + low;
    if low >= 0x2000 {
      assert err == 0x2000 * (2 * high + 1) + (low - 0x2000);
      assert err / 0x2000 == 2 * high + 1;
    } else {
      assert err == 0x2000 * (2 * high) + low;
      assert err / 0x2000 == 2 * high;
    }
  }
}
