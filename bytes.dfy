/** Bytes and their integer values. */
module Bytes {

  /**
   * Conversion helper: the byte holding a value below 0x80, with the
   * bounds it keeps.  It counts up from zero because the solver handles a
   * direct `n as bv8` here poorly; it models nothing of the generator itself.
   */
  function SmallByte(n: nat): (b: bv8)
    requires n < 0x80
    ensures b as int == n
    ensures b < 0x80
    ensures n < 0x20 ==> b < 0x20
    ensures n < 0x10 ==> b < 0x10
    ensures n < 0x08 ==> b < 0x08
  {
    var b := if n == 0 then 0 else Succ(SmallByte(n - 1));
    ByteBelow(b);
    b
  }

  /** The next byte, for a byte below 0x7F. */
  function Succ(x: bv8): (y: bv8)
    requires x as int < 0x7F
    ensures y as int == x as int + 1
  {
    x + 1
  }

  /** A byte compares with small bounds as its integer value does. */
  lemma ByteBelow(x: bv8)
    ensures x as int < 0x80 <==> x < 0x80
    ensures x as int < 0x20 ==> x < 0x20
    ensures x as int < 0x10 ==> x < 0x10
    ensures x as int < 0x08 ==> x < 0x08
  {
  }

  /** Distinct bytes have distinct values. */
  lemma ByteValues(x: bv8, y: bv8)
    ensures x != y ==> x as int != y as int
  {
  }
}
