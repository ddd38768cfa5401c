/**
 * The PHP values the utility layer works on, on a 64-bit host.
 *
 * A PHP string is a sequence of raw bytes (`Bytes`): `strlen` is its length
 * and `$s[$i]` its i-th byte. A PHP int is a 64-bit two's-complement word
 * (`PhpInt`): `&`, `|`, `^`, `~` and `<<` are the bit-vector operators, and
 * `>>` is an arithmetic shift (`Sar`). Every `+` and `-` in the layer stays
 * far inside the 64-bit range, so the wrapping bit-vector sum is PHP's sum.
 */
module Php {

  type byte = bv8
  type Bytes = seq<byte>
  type PhpInt = bv64

  const SignBit: PhpInt := 0x8000_0000_0000_0000
  /** PHP's -1: every bit set. */
  const AllOnes: PhpInt := 0xffff_ffff_ffff_ffff

  /** The exceptions the layer throws. */
  datatype Error =
    | TooShort(given: nat)   // `Exception`: a load was given fewer bytes than it reads
    | OddLength              // `RangeException`: odd number of hex characters
    | NotHex                 // `RangeException`: a character outside 0-9, a-f, A-F

  /**
   * PHP's `$x >> $k`: the bits of `x` move down by `k` and the vacated high
   * bits are copies of the sign bit (an arithmetic shift).
   */
  function Sar(x: PhpInt, k: PhpInt): (r: PhpInt)
    requires k < 64
  {
    (x >> k) | (if x & SignBit == 0 then 0 else !(AllOnes >> k))
  }

  /**
   * The signed value of a 64-bit word, as PHP reads it: a word with the sign
   * bit set is minus its complement, minus one (two's complement).
   */
  function Signed(x: PhpInt): int
  {
    if x & SignBit == 0 then x as int else -((!x) as int) - 1
  }

  /**
   * On the values the bit tricks shift, `$v >> 8` is floor division by 256:
   * -1 for -256 <= v < 0 and 0 for 0 <= v < 256.
   */
  lemma SarByteRange(x: PhpInt)
    requires -256 <= Signed(x) < 256
    ensures Signed(Sar(x, 8)) == Signed(x) / 256
    ensures Sar(x, 8) == if Signed(x) < 0 then AllOnes else 0
  {
    if x & SignBit == 0 {
      SmallWord(x);
      SarOfByte(x);
    } else {
      TopWord(x);
      SarOfNegativeByte(x);
      SignedAllOnes();
    }
  }

  /** A non-negative word whose signed value is below 256 is below 256 as a word. */
  lemma SmallWord(x: PhpInt)
    requires -256 <= Signed(x) < 256 && x & SignBit == 0
    ensures x < 256
  {
    assert x as int < 256;
    WordBelow(x);
  }

  /** A negative word whose signed value is at least -256 is one of the top 256 words. */
  lemma TopWord(x: PhpInt)
    requires -256 <= Signed(x) < 256 && x & SignBit != 0
    ensures x >= 0xffff_ffff_ffff_ff00
  {
    assert (!x) as int < 256;
    WordBelow(!x);
    Complement(x);
  }

  lemma WordBelow(x: PhpInt)
    requires x as int < 256
    ensures x < 256
  {
  }

  lemma Complement(x: PhpInt)
    requires !x < 256
    ensures x >= 0xffff_ffff_ffff_ff00
  {
  }

  lemma SarOfByte(x: PhpInt)
    requires x < 256
    ensures Sar(x, 8) == 0
  {
  }

  lemma SarOfNegativeByte(x: PhpInt)
    requires x >= 0xffff_ffff_ffff_ff00
    ensures Sar(x, 8) == AllOnes
  {
  }

  lemma SignedAllOnes()
    ensures Signed(AllOnes) == -1
  {
  }

  /** For shifts up to 56 bits the low byte of `Sar` is that of a logical shift. */
  lemma SarLowByte(x: PhpInt, k: PhpInt)
    requires k <= 56
    ensures Sar(x, k) & 0xff == (x >> k) & 0xff
  {
    assert !(AllOnes >> k) & 0xff == 0;
  }

  /** `chrToInt`: the byte as an int in 0..255. */
  function ChrToInt(c: byte): (r: PhpInt)
    ensures r < 256
  {
    c as PhpInt
  }

  /** As a number, `chrToInt` is the byte's value. */
  lemma ChrToIntValue(c: byte)
    ensures ChrToInt(c) as int == c as int
  {
  }

  /** `intToChr`, i.e. `pack('C', $int)`: keeps the low eight bits. */
  function IntToChr(x: PhpInt): (c: byte)
    ensures c as PhpInt == x & 0xff
  {
    (x & 0xff) as byte
  }

  lemma ChrToIntRoundTrip(c: byte)
    ensures IntToChr(ChrToInt(c)) == c
  {
  }

  /** PHP's `^` on non-negative ints, bit by bit from the lowest. */
  function NatXor(x: nat, y: nat): (r: nat)
    ensures r == 0 <==> x == y
    decreases x + y
  {
    if x == 0 && y == 0 then 0
    else 2 * NatXor(x / 2, y / 2) + (if x % 2 == y % 2 then 0 else 1)
  }

  /** PHP's `|` on non-negative ints, bit by bit from the lowest. */
  function NatOr(x: nat, y: nat): (r: nat)
    ensures r == 0 <==> x == 0 && y == 0
    decreases x + y
  {
    if x == 0 && y == 0 then 0
    else 2 * NatOr(x / 2, y / 2) + (if x % 2 == 1 || y % 2 == 1 then 1 else 0)
  }

  /** The unsigned number whose little-endian encoding is `s`. */
  function LeValue(s: Bytes): nat
  {
    if s == [] then 0 else s[0] as nat + 256 * LeValue(s[1..])
  }

  /** 256 to the power n. */
  function Pow256(n: nat): (r: nat)
    ensures r >= 1
  {
    if n == 0 then 1 else 256 * Pow256(n - 1)
  }

  lemma {:induction false} Pow256Monotone(m: nat, n: nat)
    requires m <= n
    ensures Pow256(m) <= Pow256(n)
    decreases n
  {
    if m < n {
      Pow256Monotone(m, n - 1);
    }
  }

  /** A string of n bytes encodes a number below 256^n. */
  lemma {:induction false} LeValueBound(s: Bytes)
    ensures LeValue(s) < Pow256(|s|)
  {
    if s != [] {
      LeValueBound(s[1..]);
    }
  }

  /** `str_pad($s, $n, "\x00", STR_PAD_RIGHT)`. */
  function ZeroPad(s: Bytes, n: nat): (r: Bytes)
    ensures |r| == if n <= |s| then |s| else n
    ensures r[..|s|] == s
    ensures forall i :: |s| <= i < |r| ==> r[i] == 0
  {
    if n <= |s| then s else s + seq(n - |s|, _ => 0)
  }

  /** Zero bytes at the most significant end do not change a little-endian value. */
  lemma {:induction false} LeValueZeroPad(s: Bytes, n: nat)
    ensures LeValue(ZeroPad(s, n)) == LeValue(s)
    decreases |s|, n
  {
    if n <= |s| {
    } else if s == [] {
      LeValueZeros(n);
    } else {
      var p := ZeroPad(s, n);
      assert p[1..] == ZeroPad(s[1..], n - 1);
      LeValueZeroPad(s[1..], n - 1);
    }
  }

  lemma {:induction false} LeValueZeros(n: nat)
    ensures LeValue(seq(n, _ => 0)) == 0
  {
    if n > 0 {
      var z: Bytes := seq(n, _ => 0);
      assert z[1..] == seq(n - 1, _ => 0);
      LeValueZeros(n - 1);
    }
  }

  function Reverse(s: Bytes): (r: Bytes)
    ensures |r| == |s|
    ensures forall i :: 0 <= i < |s| ==> r[i] == s[|s| - 1 - i]
  {
    if s == [] then [] else Reverse(s[1..]) + [s[0]]
  }

  lemma Reverse4(a: byte, b: byte, c: byte, d: byte)
    ensures Reverse([a, b, c, d]) == [d, c, b, a]
  {
  }
}
