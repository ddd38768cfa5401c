/**
 * `xorStrings`: the byte-wise XOR of two strings, as long as the shorter.
 */
module XorCombiner {
  import opened Php

  function Min(x: nat, y: nat): nat
  {
    if x <= y then x else y
  }

  /** The XOR of the common prefix of a and b: byte i is `a[i] ^ b[i]`. */
  function XorBytes(a: Bytes, b: Bytes): Bytes
  {
    seq(Min(|a|, |b|), i requires 0 <= i < Min(|a|, |b|) => a[i] ^ b[i])
  }

  /** `xorStrings`: the loop runs while both inputs still have a byte at `$i`. */
  method XorStrings(a: Bytes, b: Bytes) returns (d: Bytes)
    ensures |d| == Min(|a|, |b|)
    ensures d == XorBytes(a, b)
  {
    var aLen, bLen := |a|, |b|;
    d := [];
    var i := 0;
    while i < aLen && i < bLen
      invariant 0 <= i <= aLen && i <= bLen
      invariant |d| == i
      invariant forall k :: 0 <= k < i ==> d[k] == a[k] ^ b[k]
    {
      XorByte(a[i], b[i]);
      d := d + [IntToChr(ChrToInt(a[i]) ^ ChrToInt(b[i]))];
      i := i + 1;
    }
  }

  /** `intToChr(chrToInt($x) ^ chrToInt($y))` is the XOR of the two bytes. */
  lemma XorByte(x: byte, y: byte)
    ensures IntToChr(ChrToInt(x) ^ ChrToInt(y)) == x ^ y
  {
  }

  /** XOR-ing twice with the same (long enough) key gives the input back. */
  lemma XorTwice(a: Bytes, b: Bytes)
    requires |a| <= |b|
    ensures XorBytes(XorBytes(a, b), b) == a
  {
    var r := XorBytes(XorBytes(a, b), b);
    forall i | 0 <= i < |a|
      ensures r[i] == a[i]
    {
      XorCancel(a[i], b[i]);
    }
  }

  lemma XorCancel(x: byte, y: byte)
    ensures (x ^ y) ^ y == x
  {
  }

  /** The order of the inputs does not matter. */
  lemma XorCommutes(a: Bytes, b: Bytes)
    ensures XorBytes(a, b) == XorBytes(b, a)
  {
    var r, s := XorBytes(a, b), XorBytes(b, a);
    forall i | 0 <= i < |r|
      ensures r[i] == s[i]
    {
      XorSwap(a[i], b[i]);
    }
  }

  lemma XorSwap(x: byte, y: byte)
    ensures x ^ y == y ^ x
  {
  }
}
