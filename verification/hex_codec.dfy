/**
 * `bin2hex`, `bin2hexUpper` and `hex2bin`: hexadecimal encoding and
 * decoding. Nibbles map to characters and back by branch-free arithmetic,
 * with no table lookups; `hex2bin` still branches on odd length, on an
 * invalid character (it throws) and on `$state`.
 *
 * `Digit`, `HexValue`, `HexEncode` and `HexDecode` are the reference
 * definitions, written as plain case splits; the bit tricks of the source
 * and the loops that use them are proved equal to them.
 */
module HexCodec {
  import opened Wrappers
  import opened Php

  /** The value of a hexadecimal digit: '0'-'9', 'a'-'f' or 'A'-'F'. */
  function HexValue(c: byte): (r: Option<byte>)
    ensures r.Some? ==> r.value < 16
  {
    if 48 <= c <= 57 then Some(c - 48)          // '0' .. '9'
    else if 97 <= c <= 102 then Some(c - 87)    // 'a' .. 'f'
    else if 65 <= c <= 70 then Some(c - 55)     // 'A' .. 'F'
    else None
  }

  /** The digit for nibble n, with lower- or upper-case letters. */
  function Digit(n: byte, upper: bool): (c: byte)
    requires n < 16
    ensures HexValue(c) == Some(n)
    ensures upper ==> !(97 <= c <= 102)
    ensures !upper ==> !(65 <= c <= 70)
  {
    if n < 10 then 48 + n else if upper then 55 + n else 87 + n
  }

  /** The digit arithmetic of `bin2hex`, on a nibble held in a PHP int. */
  function LowerHexDigit(b: PhpInt): (r: PhpInt)
    requires b < 16
    ensures r == Digit(b as byte, false) as PhpInt
  {
    87 + b + (Sar(b - 10, 8) & !38)
  }

  /** The digit arithmetic of `bin2hexUpper`. */
  function UpperHexDigit(b: PhpInt): (r: PhpInt)
    requires b < 16
    ensures r == Digit(b as byte, true) as PhpInt
  {
    55 + b + (Sar(b - 10, 8) & !6)
  }

  /** The two digits of one byte, high nibble first. */
  function EncodeByte(c: byte, upper: bool): (r: Bytes)
    ensures |r| == 2 && HexValue(r[0]).Some? && HexValue(r[1]).Some?
    ensures HexValue(r[0]).value * 16 + HexValue(r[1]).value == c
  {
    [Digit(c >> 4, upper), Digit(c & 0xf, upper)]
  }

  /** Hexadecimal encoding: every byte becomes two digits, in order. */
  function HexEncode(s: Bytes, upper: bool): (r: Bytes)
    ensures |r| == 2 * |s|
    ensures forall i :: 0 <= i < |s| ==> r[2 * i .. 2 * i + 2] == EncodeByte(s[i], upper)
  {
    if s == [] then []
    else
      var p := HexEncode(s[..|s| - 1], upper);
      var r := p + EncodeByte(s[|s| - 1], upper);
      assert forall i :: 0 <= i < |s| - 1 ==> r[2 * i .. 2 * i + 2] == p[2 * i .. 2 * i + 2];
      r
  }

  /** `bin2hex`. */
  method Bin2Hex(binString: Bytes) returns (hex: Bytes)
    ensures hex == HexEncode(binString, false)
  {
    hex := [];
    var len := |binString|;
    for i := 0 to len
      invariant hex == HexEncode(binString[..i], false)
    {
      var chunk := ChrToInt(binString[i]);
      var c := chunk & 0xf;
      var b := Sar(chunk, 4);
      LowerDigitsOfByte(binString[i]);
      hex := hex + [IntToChr(LowerHexDigit(b)), IntToChr(LowerHexDigit(c))];
      HexEncodeSnoc(binString, i, false);
    }
    assert binString[..len] == binString;
  }

  /** `bin2hexUpper`. */
  method Bin2HexUpper(binString: Bytes) returns (hex: Bytes)
    ensures hex == HexEncode(binString, true)
  {
    hex := [];
    var len := |binString|;
    for i := 0 to len
      invariant hex == HexEncode(binString[..i], true)
    {
      var chunk := ChrToInt(binString[i]);
      var c := chunk & 0xf;
      var b := Sar(chunk, 4);
      UpperDigitsOfByte(binString[i]);
      hex := hex + [IntToChr(UpperHexDigit(b)), IntToChr(UpperHexDigit(c))];
      HexEncodeSnoc(binString, i, true);
    }
    assert binString[..len] == binString;
  }

  lemma HexEncodeSnoc(s: Bytes, i: nat, upper: bool)
    requires i < |s|
    ensures HexEncode(s[..i + 1], upper) == HexEncode(s[..i], upper) + EncodeByte(s[i], upper)
  {
    assert s[..i + 1][..i] == s[..i];
  }

  /** The loop body of `bin2hex` produces the two digits of the byte. */
  lemma LowerDigitsOfByte(x: byte)
    ensures var chunk := ChrToInt(x);
      [IntToChr(LowerHexDigit(Sar(chunk, 4))), IntToChr(LowerHexDigit(chunk & 0xf))] == EncodeByte(x, false)
  {
    Nibbles(x);
    DigitChr(x >> 4, false);
    DigitChr(x & 0xf, false);
  }

  /** The loop body of `bin2hexUpper` produces the two digits of the byte. */
  lemma UpperDigitsOfByte(x: byte)
    ensures var chunk := ChrToInt(x);
      [IntToChr(UpperHexDigit(Sar(chunk, 4))), IntToChr(UpperHexDigit(chunk & 0xf))] == EncodeByte(x, true)
  {
    Nibbles(x);
    DigitChr(x >> 4, true);
    DigitChr(x & 0xf, true);
  }

  /** `$chunk >> 4` and `$chunk & 0xf` are the high and low nibbles of the byte. */
  lemma Nibbles(x: byte)
    ensures Sar(ChrToInt(x), 4) == (x >> 4) as PhpInt
    ensures ChrToInt(x) & 0xf == (x & 0xf) as PhpInt
  {
  }

  lemma DigitChr(n: byte, upper: bool)
    requires n < 16
    ensures ((n as PhpInt) as byte) == n
    ensures IntToChr(Digit(n, upper) as PhpInt) == Digit(n, upper)
  {
  }

  /** Decoding of an even-length digit string, two digits per byte. */
  function DecodePairs(h: Bytes): (r: Result<Bytes, Error>)
    requires |h| % 2 == 0
    ensures r.Err? ==> r.error == NotHex
    ensures r.Ok? ==> |r.value| == |h| / 2
    decreases |h|
  {
    if h == [] then Ok([])
    else
      var n := |h|;
      var rest := DecodePairs(h[..n - 2]);
      if rest.Err? then Err(NotHex)
      else match (HexValue(h[n - 2]), HexValue(h[n - 1]))
        case (Some(hi), Some(lo)) => Ok(rest.value + [hi * 16 + lo])
        case _ => Err(NotHex)
  }

  /** Decoding fails exactly when some character is not a hexadecimal digit. */
  lemma {:induction false} DecodePairsOk(h: Bytes)
    requires |h| % 2 == 0
    ensures DecodePairs(h).Ok? <==> forall i :: 0 <= i < |h| ==> HexValue(h[i]).Some?
    decreases |h|
  {
    if h != [] {
      var p := h[..|h| - 2];
      assert forall i :: 0 <= i < |p| ==> p[i] == h[i];
      DecodePairsOk(p);
    }
  }

  /** Byte i of a successful decoding is digits 2i and 2i+1 read as one byte. */
  lemma {:induction false} DecodePairsValue(h: Bytes)
    requires |h| % 2 == 0 && DecodePairs(h).Ok?
    ensures forall i :: 0 <= i < |h| ==> HexValue(h[i]).Some?
    ensures forall i :: 0 <= i < |h| / 2 ==>
      DecodePairs(h).value[i] == HexValue(h[2 * i]).value * 16 + HexValue(h[2 * i + 1]).value
    decreases |h|
  {
    DecodePairsOk(h);
    if h != [] {
      var p := h[..|h| - 2];
      assert forall i :: 0 <= i < |p| ==> p[i] == h[i];
      DecodePairsValue(p);
    }
  }

  /**
   * `hex2bin`: an odd-length input is refused when `strict`, and otherwise
   * read as if it began with '0'.
   */
  function HexDecode(s: Bytes, strict: bool): (r: Result<Bytes, Error>)
    ensures r == Err(OddLength) <==> |s| % 2 == 1 && strict
    ensures r.Ok? ==> |r.value| == (|s| + 1) / 2
  {
    if |s| % 2 != 0 then
      if strict then Err(OddLength) else DecodePairs([48] + s)
    else DecodePairs(s)
  }

  /** Decoding succeeds exactly when the length is acceptable and every character is a digit. */
  lemma HexDecodeOk(s: Bytes, strict: bool)
    ensures HexDecode(s, strict).Ok? <==>
      (|s| % 2 == 0 || !strict) && forall i :: 0 <= i < |s| ==> HexValue(s[i]).Some?
  {
    if |s| % 2 != 0 {
      var h := [48] + s;
      assert forall i :: 0 <= i < |s| ==> h[i + 1] == s[i];
      DecodePairsOk(h);
    } else {
      DecodePairsOk(s);
    }
  }

  /** An odd-length input decodes, when not strict, as '0' followed by it. */
  lemma LenientPadding(s: Bytes)
    requires |s| % 2 == 1
    ensures HexDecode(s, false) == HexDecode([48] + s, false)
  {
  }

  /**
   * The character test of `hex2bin`'s loop body (`$c_num0 | $c_alpha0` and
   * `$c_val`): `test` is zero exactly for a non-digit, and otherwise `cVal`
   * is the digit's value.
   */
  method HexCharTest(ch: byte) returns (test: PhpInt, cVal: PhpInt)
    ensures test == 0 <==> HexValue(ch).None?
    ensures test != 0 ==> cVal == HexValue(ch).value as PhpInt
  {
    var c := ChrToInt(ch);
    var cNum := c ^ 48;
    var cNum0 := Sar(cNum - 10, 8);
    var cAlpha := (c & !32) - 55;
    var cAlpha0 := Sar((cAlpha - 10) ^ (cAlpha - 16), 8);
    test := cNum0 | cAlpha0;
    cVal := (cNum0 & cNum) | (cAlpha & cAlpha0);
  }

  /** `pack('C', $c_acc | $c_val)` with `$c_acc` the high nibble times 16. */
  lemma PackNibbles(hi: byte, lo: byte)
    requires hi < 16 && lo < 16
    ensures IntToChr(((hi as PhpInt) * 16) | (lo as PhpInt)) == hi * 16 + lo
  {
  }

  /** `hex2bin`. */
  method Hex2Bin(hexString: Bytes, strictPadding: bool) returns (r: Result<Bytes, Error>)
    ensures r == HexDecode(hexString, strictPadding)
  {
    var hexPos := 0;
    var bin: Bytes := [];
    var cAcc: PhpInt := 0;
    var hex := hexString;
    var hexLen := |hex|;
    var state: PhpInt := 0;
    if hexLen % 2 != 0 {
      if strictPadding {
        return Err(OddLength);
      }
      hex := [48] + hex;
      hexLen := hexLen + 1;
    }
    while hexPos < hexLen
      invariant hexLen == |hex| && hexLen % 2 == 0
      invariant HexDecode(hexString, strictPadding) == DecodePairs(hex)
      invariant 0 <= hexPos <= hexLen
      invariant state == 0 || state == 1
      invariant hexPos == 2 * |bin| + (if state == 1 then 1 else 0)
      invariant DecodePairs(hex[..2 * |bin|]) == Ok(bin)
      invariant state == 1 ==> HexValue(hex[hexPos - 1]).Some?
                               && cAcc == (HexValue(hex[hexPos - 1]).value as PhpInt) * 16
    {
      hexPos := hexPos + 1;
      var c := hex[hexPos - 1];
      var test, cVal := HexCharTest(c);
      if test == 0 {
        NonDigitFails(hex, hexPos - 1);
        return Err(NotHex);
      }
      if state == 0 {
        cAcc := cVal * 16;
      } else {
        DecodeStep(hex, bin, cAcc, cVal);
        bin := bin + [IntToChr(cAcc | cVal)];
      }
      FlipBit(state);
      state := state ^ 1;
    }
    assert hex[..hexLen] == hex;
    return Ok(bin);
  }

  /** A second digit completes a byte: the prefix decoded so far grows by it. */
  lemma DecodeStep(hex: Bytes, bin: Bytes, cAcc: PhpInt, cVal: PhpInt)
    requires 2 * |bin| + 2 <= |hex|
    requires DecodePairs(hex[..2 * |bin|]) == Ok(bin)
    requires HexValue(hex[2 * |bin|]).Some? && cAcc == (HexValue(hex[2 * |bin|]).value as PhpInt) * 16
    requires HexValue(hex[2 * |bin| + 1]).Some? && cVal == HexValue(hex[2 * |bin| + 1]).value as PhpInt
    ensures DecodePairs(hex[..2 * |bin| + 2]) == Ok(bin + [IntToChr(cAcc | cVal)])
  {
    var n := 2 * |bin| + 2;
    var hi, lo := HexValue(hex[n - 2]).value, HexValue(hex[n - 1]).value;
    PackNibbles(hi, lo);
    HexPrefixSnoc(hex, n);
    DecodePairsSnoc(hex[..n - 2], hex[n - 2], hex[n - 1]);
  }

  /** One non-digit anywhere makes the whole decoding fail. */
  lemma NonDigitFails(hex: Bytes, k: nat)
    requires |hex| % 2 == 0 && k < |hex| && HexValue(hex[k]).None?
    ensures DecodePairs(hex) == Err(NotHex)
  {
    DecodePairsOk(hex);
  }

  /** `$state ^= 1` alternates between 0 and 1. */
  lemma FlipBit(state: PhpInt)
    requires state == 0 || state == 1
    ensures state == 0 ==> state ^ 1 == 1
    ensures state == 1 ==> state ^ 1 == 0
  {
  }

  lemma HexPrefixSnoc(h: Bytes, n: nat)
    requires 2 <= n <= |h|
    ensures h[..n] == h[..n - 2] + [h[n - 2], h[n - 1]]
  {
  }

  /** Appending one valid digit pair appends one byte. */
  lemma DecodePairsSnoc(p: Bytes, x: byte, y: byte)
    requires |p| % 2 == 0 && DecodePairs(p).Ok?
    requires HexValue(x).Some? && HexValue(y).Some?
    ensures DecodePairs(p + [x, y]) == Ok(DecodePairs(p).value + [HexValue(x).value * 16 + HexValue(y).value])
  {
    var h := p + [x, y];
    assert h[..|h| - 2] == p;
  }

  /** Decoding undoes encoding, for either letter case. */
  lemma {:induction false} DecodeEncode(b: Bytes, upper: bool)
    ensures DecodePairs(HexEncode(b, upper)) == Ok(b)
  {
    if b != [] {
      var init, x := b[..|b| - 1], b[|b| - 1];
      assert b == init + [x];
      var p := HexEncode(init, upper);
      var e := EncodeByte(x, upper);
      assert HexEncode(b, upper) == p + [e[0], e[1]];
      DecodeEncode(init, upper);
      DecodePairsSnoc(p, e[0], e[1]);
    }
  }

  /** `hex2bin(bin2hex($b))` and `hex2bin(bin2hexUpper($b))` give back `$b`. */
  lemma HexRoundTrip(b: Bytes, upper: bool, strict: bool)
    ensures HexDecode(HexEncode(b, upper), strict) == Ok(b)
  {
    DecodeEncode(b, upper);
  }
}
