/**
 * Bridges between 64-bit words and unbounded integers, stated on bare
 * bit-vector variables so that the solver meets nothing else while it
 * proves them.
 */
module Bits {

  /** Prepending a byte below a word that fits in 56 bits multiplies by 256 and adds. */
  lemma ShiftOr(c: bv8, w: bv64)
    requires w < 0x100_0000_0000_0000
    ensures ((c as bv64) | (w << 8)) as int == c as int + 0x100 * w as int
  {
  }

  /** A word whose value is below 2^56 is below 2^56 as a bit-vector too. */
  lemma Below56(w: bv64)
    requires w as int < 0x100_0000_0000_0000
    ensures w < 0x100_0000_0000_0000
  {
  }

  /** The bytes of a word assembled from four bytes are those bytes. */
  lemma Bytes4(a: bv8, b: bv8, c: bv8, d: bv8)
    ensures var w := (a as bv64) | ((b as bv64) << 8) | ((c as bv64) << 16) | ((d as bv64) << 24);
      w & 0xff == a as bv64 && (w >> 8) & 0xff == b as bv64
      && (w >> 16) & 0xff == c as bv64 && (w >> 24) & 0xff == d as bv64
  {
  }
}
