/**
  Conversions between the byte type of the buffers (unsigned char, here bv8)
  and the naturals that hold digits and counter values.
 */
module Bytes {

  /** The byte holding a digit below 256. */
  function ByteOf(d: nat): bv8
    requires d < 256
  {
    d as bv8
  }

  /** A digit below 256 survives the round trip through a byte. */
  lemma {:induction false} ByteOfValue(d: nat)
    requires d < 256
    ensures ByteOf(d) as int == d
  {
    assert d % 256 == d;
  }

  lemma {:induction false} ByteOfInt(x: bv8)
    ensures ByteOf(x as int) == x
  {}

  /** Incrementing a byte that does not wrap adds one to its value. */
  lemma {:induction false} ByteSucc(x: bv8)
    requires x != 0xFF
    ensures (x + 1) as int == x as int + 1
  {}
}
