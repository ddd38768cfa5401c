/**
 * Fixed-width conversions between PHP ints and byte strings:
 * `load_3` and `load_4` read little-endian, `store_3` and `store_4` write
 * big-endian, `store32_le` and `store64_le` write little-endian.
 *
 * `LeWord` is the reference: the 64-bit word whose little-endian bytes are
 * the given (at most eight) bytes. `LeWordValue` ties it to `LeValue`, the
 * unbounded number a little-endian string encodes.
 */
module IntCodec {
  import opened Wrappers
  import opened Php
  import Bits

  /** The word whose little-endian encoding is `s`: byte i lands at bits 8i..8i+7. */
  function LeWord(s: Bytes): PhpInt
    requires |s| <= 8
  {
    if s == [] then 0 else (s[0] as PhpInt) | (LeWord(s[1..]) << 8)
  }

  /** As a number, the word is the value the string encodes. */
  lemma {:induction false} LeWordValue(s: Bytes)
    requires |s| <= 8
    ensures LeWord(s) as int == LeValue(s)
  {
    if s != [] {
      var t := s[1..];
      LeWordValue(t);
      LeValueBound(t);
      Pow256Monotone(|t|, 7);
      assert Pow256(7) == 0x100_0000_0000_0000;
      LeWordCons(s);
    }
  }

  lemma LeWordCons(s: Bytes)
    requires 1 <= |s| <= 8
    requires LeWord(s[1..]) as int < 0x100_0000_0000_0000
    ensures LeWord(s) as int == s[0] as int + 0x100 * LeWord(s[1..]) as int
  {
    var w := LeWord(s[1..]);
    Bits.Below56(w);
    Bits.ShiftOr(s[0], w);
  }

  /** `load_3`: the caller supplies at least three bytes; there is no check. */
  function Load3(s: Bytes): (r: PhpInt)
    requires |s| >= 3
    ensures r == LeWord(s[..3])
    ensures r < 0x100_0000
  {
    var result := ChrToInt(s[0]);
    var result := result | (ChrToInt(s[1]) << 8);
    var result := result | (ChrToInt(s[2]) << 16);
    var w := result & 0xff_ffff;
    assert w == LeWord(s[..3]) by { LeWord3(s[..3]); }
    w
  }

  /** `load_4`: throws when fewer than four bytes are given. */
  function Load4(s: Bytes): (r: Result<PhpInt, Error>)
    ensures r.Err? <==> |s| < 4
    ensures r.Err? ==> r.error == TooShort(|s|)
    ensures r.Ok? ==> r.value == LeWord(s[..4]) && r.value < 0x1_0000_0000
  {
    if |s| < 4 then Err(TooShort(|s|))
    else
      var result := ChrToInt(s[0]) & 0xff;
      var result := result | ((ChrToInt(s[1]) & 0xff) << 8);
      var result := result | ((ChrToInt(s[2]) & 0xff) << 16);
      var result := result | ((ChrToInt(s[3]) & 0xff) << 24);
      var w := result & 0xffff_ffff;
      assert w == LeWord(s[..4]) by { LeWord4(s[..4]); }
      Ok(w)
  }

  /** `store_3`: the low 24 bits of `x`, most significant byte first. */
  function Store3(x: PhpInt): (r: Bytes)
    ensures |r| == 3
    ensures LeWord(Reverse(r)) == x & 0xff_ffff
  {
    var r := [IntToChr(Sar(x, 16) & 0xff), IntToChr(Sar(x, 8) & 0xff), IntToChr(x & 0xff)];
    var le := Reverse(r);
    assert le == [r[2], r[1], r[0]];
    assert LeWord(le) == x & 0xff_ffff by {
      LeWord3(le);
      SarLowByte(x, 8); SarLowByte(x, 16);
    }
    r
  }

  /** `store_4`: the low 32 bits of `x`, most significant byte first. */
  function Store4(x: PhpInt): (r: Bytes)
    ensures |r| == 4
    ensures Reverse(r) == Store32Le(x)
  {
    var r := [IntToChr(Sar(x, 24) & 0xff), IntToChr(Sar(x, 16) & 0xff),
              IntToChr(Sar(x, 8) & 0xff), IntToChr(x & 0xff)];
    Reverse4(r[0], r[1], r[2], r[3]);
    r
  }

  /** `store32_le`: the low 32 bits of `x`, least significant byte first. */
  function Store32Le(x: PhpInt): (r: Bytes)
    ensures |r| == 4
    ensures LeWord(r) == x & 0xffff_ffff
  {
    var r := [IntToChr(x & 0xff), IntToChr(Sar(x, 8) & 0xff),
              IntToChr(Sar(x, 16) & 0xff), IntToChr(Sar(x, 24) & 0xff)];
    assert LeWord(r) == x & 0xffff_ffff by {
      LeWord4(r);
      SarLowByte(x, 8); SarLowByte(x, 16); SarLowByte(x, 24);
    }
    r
  }

  /** The big-endian bytes of `store_4` are the low 32 bits of `x`. */
  lemma Store4Value(x: PhpInt)
    ensures LeWord(Reverse(Store4(x))) == x & 0xffff_ffff
  {
  }

  /** Loading what `store32_le` wrote gives back the low 32 bits. */
  lemma Load4Store32Le(x: PhpInt)
    ensures Load4(Store32Le(x)) == Ok(x & 0xffff_ffff)
  {
    var r := Store32Le(x);
    assert r[..4] == r;
  }

  /** Storing what `load_4` read gives back the first four bytes. */
  lemma Store32LeLoad4(s: Bytes)
    requires |s| >= 4
    ensures Store32Le(Load4(s).value) == s[..4]
  {
    var t := s[..4];
    var w := Load4(s).value;
    assert w == (t[0] as PhpInt) | ((t[1] as PhpInt) << 8) | ((t[2] as PhpInt) << 16) | ((t[3] as PhpInt) << 24)
    by { LeWord4(t); }
    Store32LeOfBytes(t[0], t[1], t[2], t[3]);
    assert t == [t[0], t[1], t[2], t[3]];
  }

  lemma Store32LeOfBytes(a: byte, b: byte, c: byte, d: byte)
    ensures Store32Le((a as PhpInt) | ((b as PhpInt) << 8) | ((c as PhpInt) << 16) | ((d as PhpInt) << 24))
      == [a, b, c, d]
  {
    var w := (a as PhpInt) | ((b as PhpInt) << 8) | ((c as PhpInt) << 16) | ((d as PhpInt) << 24);
    Bits.Bytes4(a, b, c, d);
    SarLowByte(w, 8); SarLowByte(w, 16); SarLowByte(w, 24);
  }

  /** Loading the reversal of what `store_3` wrote gives back the low 24 bits. */
  lemma Load3Store3(x: PhpInt)
    ensures Load3(Reverse(Store3(x))) == x & 0xff_ffff
  {
    var le := Reverse(Store3(x));
    assert le[..3] == le;
  }

  /**
   * `store64_le` on a 64-bit host, as written: the eighth byte is taken from
   * `$int >> 52`, not `$int >> 56`. The first seven bytes are those of the
   * little-endian encoding, and so are all eight for every x below 2^52.
   */
  function Store64Le(x: PhpInt): (r: Bytes)
    ensures |r| == 8
    ensures r[..7] == Store64LeIntended(x)[..7]
    ensures r[7] as PhpInt == (x >> 52) & 0xff
    ensures x < 0x10_0000_0000_0000 ==> r == Store64LeIntended(x)
  {
    var r := [IntToChr(x & 0xff), IntToChr(Sar(x, 8) & 0xff),
              IntToChr(Sar(x, 16) & 0xff), IntToChr(Sar(x, 24) & 0xff),
              IntToChr(Sar(x, 32) & 0xff), IntToChr(Sar(x, 40) & 0xff),
              IntToChr(Sar(x, 48) & 0xff), IntToChr(Sar(x, 52) & 0xff)];
    SarLowByte(x, 52);
    assert x < 0x10_0000_0000_0000 ==> r[7] == Store64LeIntended(x)[7] by {
      SarLowByte(x, 56);
    }
    r
  }

  /** `store64_le` with the eighth byte taken from `$int >> 56`. */
  function Store64LeIntended(x: PhpInt): (r: Bytes)
    ensures |r| == 8
    ensures LeWord(r) == x
  {
    var r := [IntToChr(x & 0xff), IntToChr(Sar(x, 8) & 0xff),
              IntToChr(Sar(x, 16) & 0xff), IntToChr(Sar(x, 24) & 0xff),
              IntToChr(Sar(x, 32) & 0xff), IntToChr(Sar(x, 40) & 0xff),
              IntToChr(Sar(x, 48) & 0xff), IntToChr(Sar(x, 56) & 0xff)];
    assert LeWord(r) == x by {
      LeWord8(r);
      SarLowByte(x, 8); SarLowByte(x, 16); SarLowByte(x, 24); SarLowByte(x, 32);
      SarLowByte(x, 40); SarLowByte(x, 48); SarLowByte(x, 56);
    }
    r
  }

  /** At x = 2^56 the as-written eighth byte is 0x10 where the encoding has 0x01. */
  lemma Store64LeCounterexample()
    ensures Store64Le(0x0100_0000_0000_0000)[7] == 0x10
    ensures Store64LeIntended(0x0100_0000_0000_0000)[7] == 0x01
    ensures LeWord(Store64Le(0x0100_0000_0000_0000)) != 0x0100_0000_0000_0000
  {
    var x: PhpInt := 0x0100_0000_0000_0000;
    var r := Store64Le(x);
    assert r == [0, 0, 0, 0, 0, 0, 0, 0x10];
    LeWord8(r);
  }

  lemma LeWordStep(s: Bytes, i: nat)
    requires i < |s| <= 8
    ensures LeWord(s[i..]) == (s[i] as PhpInt) | (LeWord(s[i + 1..]) << 8)
  {
    assert s[i..][1..] == s[i + 1..];
  }

  lemma LeWord3(s: Bytes)
    requires |s| == 3
    ensures LeWord(s) == (s[0] as PhpInt) | ((s[1] as PhpInt) << 8) | ((s[2] as PhpInt) << 16)
  {
    assert s[0..] == s && s[3..] == [];
    LeWordStep(s, 0); LeWordStep(s, 1); LeWordStep(s, 2);
  }

  lemma LeWord4(s: Bytes)
    requires |s| == 4
    ensures LeWord(s) == (s[0] as PhpInt) | ((s[1] as PhpInt) << 8) | ((s[2] as PhpInt) << 16)
      | ((s[3] as PhpInt) << 24)
  {
    assert s[0..] == s && s[4..] == [];
    LeWordStep(s, 0); LeWordStep(s, 1); LeWordStep(s, 2); LeWordStep(s, 3);
  }

  lemma LeWord8(s: Bytes)
    requires |s| == 8
    ensures LeWord(s) == (s[0] as PhpInt) | ((s[1] as PhpInt) << 8) | ((s[2] as PhpInt) << 16)
      | ((s[3] as PhpInt) << 24) | ((s[4] as PhpInt) << 32) | ((s[5] as PhpInt) << 40)
      | ((s[6] as PhpInt) << 48) | ((s[7] as PhpInt) << 56)
  {
    var hi := s[4..];
    assert hi[0] == s[4] && hi[1] == s[5] && hi[2] == s[6] && hi[3] == s[7];
    LeWord4(hi);
    LeWordStep(s, 0); LeWordStep(s, 1); LeWordStep(s, 2); LeWordStep(s, 3);
    assert s[0..] == s;
  }
}
