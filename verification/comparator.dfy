/**
 * `compare`, `memcmp`, `verify_16` and `verify_32`.
 *
 * `compare` scans from the highest index down, so it orders its inputs as
 * little-endian unsigned numbers: the last byte is the most significant.
 * `LeCompare` is that order written as a plain recursion, and
 * `LeCompareIsNumeric` proves it is the order of `LeValue`.
 */
module Comparator {
  import opened Wrappers
  import opened Php

  /** PHP's -1, 0 and 1 as 64-bit words: -1 has every bit set. */
  function PhpSign(c: int): PhpInt
    requires -1 <= c <= 1
  {
    if c == 1 then 1 else if c == 0 then 0 else AllOnes
  }

  function Sign(x: int): int
  {
    if x > 0 then 1 else if x < 0 then -1 else 0
  }

  /**
   * Compares two strings of equal length as little-endian numbers: the
   * higher bytes decide, and byte 0 only breaks a tie.
   */
  function LeCompare(l: Bytes, r: Bytes): (c: int)
    requires |l| == |r|
    ensures -1 <= c <= 1
  {
    if l == [] then 0
    else
      var high := LeCompare(l[1..], r[1..]);
      if high != 0 then high
      else if l[0] > r[0] then 1
      else if l[0] < r[0] then -1
      else 0
  }

  /** The result is 0 exactly for equal strings. */
  lemma {:induction false} LeCompareZero(l: Bytes, r: Bytes)
    requires |l| == |r|
    ensures LeCompare(l, r) == 0 <==> l == r
  {
    if l != [] {
      LeCompareZero(l[1..], r[1..]);
      assert l == [l[0]] + l[1..] && r == [r[0]] + r[1..];
    }
  }

  /** The order `compare` computes is the numeric order of the encoded values. */
  lemma {:induction false} LeCompareIsNumeric(l: Bytes, r: Bytes)
    requires |l| == |r|
    ensures LeCompare(l, r) == Sign(LeValue(l) - LeValue(r))
  {
    if l != [] {
      LeCompareIsNumeric(l[1..], r[1..]);
      ByteOrder(l[0], r[0]);
      SignOfDigitPair(LeValue(l), LeValue(r), l[0] as int, r[0] as int, LeValue(l[1..]), LeValue(r[1..]));
    }
  }

  /** Bytes compare as bit-vectors as their values compare as numbers. */
  lemma ByteOrder(a: byte, b: byte)
    ensures (a < b) == (a as int < b as int) && (a > b) == (a as int > b as int)
  {
  }

  /**
   * Two numbers written as a low digit below 256 plus 256 times a high part:
   * the high parts decide, and the low digits only break a tie.
   */
  lemma SignOfDigitPair(x: int, y: int, a: int, b: int, hx: int, hy: int)
    requires 0 <= a < 256 && 0 <= b < 256
    requires x == a + 256 * hx && y == b + 256 * hy
    ensures Sign(x - y) == if hx != hy then Sign(hx - hy) else Sign(a - b)
  {
  }

  /** Swapping the arguments negates the result. */
  lemma {:induction false} LeCompareAntisymmetric(l: Bytes, r: Bytes)
    requires |l| == |r|
    ensures LeCompare(r, l) == -LeCompare(l, r)
  {
    LeCompareIsNumeric(l, r);
    LeCompareIsNumeric(r, l);
  }

  /** The order is transitive. */
  lemma LeCompareTransitive(a: Bytes, b: Bytes, c: Bytes)
    requires |a| == |b| == |c|
    requires LeCompare(a, b) == 1 && LeCompare(b, c) == 1
    ensures LeCompare(a, c) == 1
  {
    LeCompareIsNumeric(a, b);
    LeCompareIsNumeric(b, c);
    LeCompareIsNumeric(a, c);
  }

  /** `(($b - $a) >> 8)`: all ones exactly when b is below a. */
  lemma BorrowMask(a: byte, b: byte)
    ensures Sar(ChrToInt(b) - ChrToInt(a), 8) == if b < a then AllOnes else 0
  {
  }

  /** `((($b ^ $a) - 1) >> 8)`: all ones exactly when the bytes are equal. */
  lemma EqualMask(a: byte, b: byte)
    ensures Sar((ChrToInt(b) ^ ChrToInt(a)) - 1, 8) == if a == b then AllOnes else 0
  {
  }

  /** The flag updates of one step of `compare`'s loop, on bytes a (left) and b (right). */
  lemma FlagStep(a: byte, b: byte, gt: PhpInt, eq: PhpInt)
    requires (gt == 0 || gt == 1) && (eq == 0 || eq == 1)
    ensures gt | (Sar(ChrToInt(b) - ChrToInt(a), 8) & eq) == if eq == 1 && b < a then 1 else gt
    ensures eq & Sar((ChrToInt(b) ^ ChrToInt(a)) - 1, 8) == if a == b then eq else 0
  {
    BorrowMask(a, b);
    EqualMask(a, b);
  }

  /** Extending the scanned range down by one byte: that byte only breaks a tie. */
  lemma LeCompareStep(l: Bytes, r: Bytes, i: nat, n: nat)
    requires i < n <= |l| && n <= |r|
    ensures LeCompare(l[i..n], r[i..n]) ==
      var high := LeCompare(l[i + 1..n], r[i + 1..n]);
      if high != 0 then high else if l[i] > r[i] then 1 else if l[i] < r[i] then -1 else 0
  {
    assert l[i..n][1..] == l[i + 1..n] && r[i..n][1..] == r[i + 1..n];
  }

  /**
   * What `compare` returns: the order of the first `len` bytes of each
   * input when `len` is given, and otherwise the order of the inputs after
   * the shorter one is padded with zero bytes to the length of the longer.
   */
  function CompareSpec(left: Bytes, right: Bytes, len: Option<nat>): PhpInt
    requires len.Some? ==> len.value <= |left| && len.value <= |right|
  {
    if len.Some? then PhpSign(LeCompare(left[..len.value], right[..len.value]))
    else PhpSign(LeCompare(ZeroPad(left, |right|), ZeroPad(right, |left|)))
  }

  /**
   * `compare`. Without `len` both inputs are padded to the longer length
   * (`str_pad` with zero bytes on the right); then the loop scans from the
   * last byte down to byte 0.
   */
  method Compare(left: Bytes, right: Bytes, len: Option<nat>) returns (res: PhpInt)
    requires len.Some? ==> len.value <= |left| && len.value <= |right|
    ensures res == CompareSpec(left, right, len)
  {
    var l, r := left, right;
    var n: nat;
    if len.None? {
      n := if |left| >= |right| then |left| else |right|;
      l := ZeroPad(left, n);
      r := ZeroPad(right, n);
    } else {
      n := len.value;
    }
    var gt: PhpInt := 0;
    var eq: PhpInt := 1;
    var i := n;
    while i != 0
      invariant 0 <= i <= n <= |l| && n <= |r|
      invariant Flags(LeCompare(l[i..n], r[i..n]), gt, eq)
    {
      i := i - 1;
      LeCompareStep(l, r, i, n);
      gt, eq := CompareByte(l[i], r[i], gt, eq, LeCompare(l[i + 1..n], r[i + 1..n]), LeCompare(l[i..n], r[i..n]));
    }
    res := (gt + gt + eq) - 1;
    CompareOutcome(left, right, len, l, r, n, gt, eq, res);
  }

  /**
   * `$gt` is 1 exactly when the bytes scanned so far order the left input
   * above the right one, and `$eq` is 1 exactly when they are equal.
   */
  predicate Flags(c: int, gt: PhpInt, eq: PhpInt)
  {
    gt == (if c == 1 then 1 else 0) && eq == (if c == 0 then 1 else 0)
  }

  /**
   * The body of `compare`'s loop on byte a of the left input and byte b of
   * the right one. If the flags describe the higher bytes, whose order is
   * `high`, the new flags describe the order `c` once a and b are added.
   */
  method CompareByte(a: byte, b: byte, gt: PhpInt, eq: PhpInt, ghost high: int, ghost c: int)
    returns (gt': PhpInt, eq': PhpInt)
    requires -1 <= high <= 1 && Flags(high, gt, eq)
    requires c == if high != 0 then high else if a > b then 1 else if a < b then -1 else 0
    ensures Flags(c, gt', eq')
  {
    FlagStep(a, b, gt, eq);
    gt' := gt | (Sar(ChrToInt(b) - ChrToInt(a), 8) & eq);
    eq' := eq & Sar((ChrToInt(b) ^ ChrToInt(a)) - 1, 8);
    // One case per way the order can be decided, so that each is proved on its own.
    if high == 1 {
      assert gt' == 1 && eq' == 0;
    } else if high == -1 {
      assert gt' == 0 && eq' == 0;
    } else if a > b {
      assert gt' == 1 && eq' == 0;
    } else if a < b {
      assert gt' == 0 && eq' == 0;
    } else {
      assert gt' == 0 && eq' == 1;
    }
  }

  /** After the loop the flags describe the whole range, and the result is its sign. */
  lemma CompareOutcome(left: Bytes, right: Bytes, len: Option<nat>, l: Bytes, r: Bytes, n: nat,
                       gt: PhpInt, eq: PhpInt, res: PhpInt)
    requires len.Some? ==> l == left && r == right && n == len.value && n <= |l| && n <= |r|
    requires len.None? ==> n == (if |left| >= |right| then |left| else |right|)
    requires len.None? ==> l == ZeroPad(left, n) && r == ZeroPad(right, n)
    requires n <= |l| && n <= |r| && Flags(LeCompare(l[0..n], r[0..n]), gt, eq)
    requires res == (gt + gt + eq) - 1
    ensures res == CompareSpec(left, right, len)
  {
    assert l[0..n] == l[..n] && r[0..n] == r[..n];
    Outcome(gt, eq, LeCompare(l[..n], r[..n]));
    if len.None? {
      PadToLonger(left, right);
      assert l[..n] == l && r[..n] == r;
    }
  }

  /** `($gt + $gt + $eq) - 1` turns the two flags into -1, 0 or 1. */
  lemma Outcome(gt: PhpInt, eq: PhpInt, c: int)
    requires -1 <= c <= 1 && Flags(c, gt, eq)
    ensures (gt + gt + eq) - 1 == PhpSign(c)
  {
  }

  /** Padding both inputs to the longer length is padding each to the other's length. */
  lemma PadToLonger(left: Bytes, right: Bytes)
    ensures var n := if |left| >= |right| then |left| else |right|;
      ZeroPad(left, n) == ZeroPad(left, |right|) && ZeroPad(right, n) == ZeroPad(right, |left|)
  {
  }

  /** Comparing the padded inputs compares the values they encode. */
  lemma PaddedCompareIsNumeric(left: Bytes, right: Bytes)
    ensures LeCompare(ZeroPad(left, |right|), ZeroPad(right, |left|)) == Sign(LeValue(left) - LeValue(right))
  {
    var l, r := ZeroPad(left, |right|), ZeroPad(right, |left|);
    LeValueZeroPad(left, |right|);
    LeValueZeroPad(right, |left|);
    LeCompareIsNumeric(l, r);
    assert LeValue(l) - LeValue(r) == LeValue(left) - LeValue(right);
  }

  /** Without `len`, `compare` orders its inputs by the numbers they encode. */
  lemma CompareIsNumeric(left: Bytes, right: Bytes)
    ensures CompareSpec(left, right, None) == PhpSign(Sign(LeValue(left) - LeValue(right)))
  {
    PaddedCompareIsNumeric(left, right);
  }

  /** Without `len`, `compare` gives 0 exactly when the padded inputs are equal. */
  lemma CompareZero(left: Bytes, right: Bytes)
    ensures CompareSpec(left, right, None) == 0 <==> ZeroPad(left, |right|) == ZeroPad(right, |left|)
  {
    LeCompareZero(ZeroPad(left, |right|), ZeroPad(right, |left|));
  }

  /** An input compares equal to itself. */
  lemma CompareSelf(a: Bytes, len: Option<nat>)
    requires len.Some? ==> len.value <= |a|
    ensures CompareSpec(a, a, len) == 0
  {
    if len.Some? {
      LeCompareZero(a[..len.value], a[..len.value]);
    } else {
      LeCompareZero(ZeroPad(a, |a|), ZeroPad(a, |a|));
    }
  }

  /** Swapping the inputs negates the result (as 64-bit words, -(-1) is 1). */
  lemma CompareAntisymmetric(left: Bytes, right: Bytes, len: Option<nat>)
    requires len.Some? ==> len.value <= |left| && len.value <= |right|
    ensures CompareSpec(right, left, len) == -CompareSpec(left, right, len)
  {
    if len.Some? {
      LeCompareAntisymmetric(left[..len.value], right[..len.value]);
    } else {
      LeCompareAntisymmetric(ZeroPad(left, |right|), ZeroPad(right, |left|));
    }
  }

  /** `memcmp`: `hash_equals` decides, and a difference always gives -1. */
  function Memcmp(left: Bytes, right: Bytes): (r: PhpInt)
    ensures r == 0 <==> left == right
    ensures r == 0 || r == AllOnes
  {
    if left == right then 0 else AllOnes
  }

  /**
   * The loop shared by `verify_16` and `verify_32`: the XOR of the lengths,
   * OR-ed with the XOR of every pair among the first `width` bytes.
   */
  method VerifyPrefix(a: Bytes, b: Bytes, width: nat) returns (ok: bool)
    requires width <= |a| && width <= |b|
    ensures ok <==> |a| == |b| && a[..width] == b[..width]
  {
    var diff := NatXor(|a|, |b|);
    for i := 0 to width
      invariant diff == 0 <==> |a| == |b| && a[..i] == b[..i]
    {
      diff := NatOr(diff, NatXor(ChrToInt(a[i]) as nat, ChrToInt(b[i]) as nat));
      assert a[..i + 1] == a[..i] + [a[i]] && b[..i + 1] == b[..i] + [b[i]];
      ByteXorZero(a[i], b[i]);
    }
    ok := diff == 0;
  }

  lemma ByteXorZero(x: byte, y: byte)
    ensures NatXor(ChrToInt(x) as nat, ChrToInt(y) as nat) == 0 <==> x == y
  {
    ChrToIntValue(x);
    ChrToIntValue(y);
  }

  /** `verify_16`: both inputs hold at least 16 bytes. */
  method Verify16(a: Bytes, b: Bytes) returns (ok: bool)
    requires |a| >= 16 && |b| >= 16
    ensures ok <==> |a| == |b| && a[..16] == b[..16]
  {
    ok := VerifyPrefix(a, b, 16);
  }

  /** `verify_32`: both inputs hold at least 32 bytes. */
  method Verify32(a: Bytes, b: Bytes) returns (ok: bool)
    requires |a| >= 32 && |b| >= 32
    ensures ok <==> |a| == |b| && a[..32] == b[..32]
  {
    ok := VerifyPrefix(a, b, 32);
  }
}
