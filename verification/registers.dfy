/** The Si7005 register map and the bit-level view of its byte registers. */
module Registers {
  import opened I2c

  const REG_STATUS: bv8 := 0x00
  const REG_DATA: bv8 := 0x01
  const REG_CONFIG: bv8 := 0x03
  const REG_ID: bv8 := 0x11

  /** The value the ID register holds when the chip is present. */
  const ID_VALUE: bv8 := 0x50

  /** Bit positions: status bit 0 is "not ready"; the configuration register
      has START at bit 0, HEAT at bit 1, TEMP at bit 4 and FAST at bit 5. */
  const NRDY_BIT: bv8 := 0
  const START_BIT: bv8 := 0
  const HEAT_BIT: bv8 := 1
  const TEMP_BIT: bv8 := 4
  const FAST_BIT: bv8 := 5

  function Mask(i: bv8): bv8
    requires i < 8
  {
    1 << i
  }

  /** Bit `i` of `x` is set. */
  predicate Bit(x: bv8, i: bv8)
    requires i < 8
  {
    (x >> i) & 1 == 1
  }

  /** The byte `(uint8_t) ret` that the driver keeps of a successful byte read. */
  function ByteOf(ret: Int32): bv8
    requires ret >= 0
  {
    (ret % 256) as bv8
  }

  /** A status-register answer `ret` says the data is ready: `(ret & nRDY) == 0`.
      Bit 0 of a two's-complement `int` is its Euclidean remainder modulo 2, so
      the test is written as a parity test on the whole answer, failures included. */
  predicate ReadyCode(ret: Int32) {
    ret % 2 == 0
  }

  /** For an answer that is a byte, the ready test is the nRDY bit of that byte;
      the failure answer -1 has that bit set, so it reads as "not ready". */
  lemma ReadyCodeIsStatusBit(ret: Int32)
    ensures ret >= 0 ==> (ReadyCode(ret) <==> !Bit(ByteOf(ret), NRDY_BIT))
    ensures ret == FAILURE ==> !ReadyCode(ret)
  {
    if ret >= 0 {
      var b := ret % 256;
      assert b % 2 == ret % 2;
      ByteLowBit(b);
    }
  }

  lemma ByteLowBit(b: int)
    requires 0 <= b < 256
    ensures Bit(b as bv8, NRDY_BIT) <==> b % 2 == 1
  {
    var x := b as bv8;
    assert Bit(x, NRDY_BIT) <==> x & 1 == 1;
    assert x & 1 == x % 2;
    assert (x % 2) as int == b % 2;
  }
}
