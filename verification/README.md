# sodium_compat byte utilities, modelled in Dafny

This project models the byte-level utility layer of sodium_compat, the class
`ParagonIE_Sodium_Core_Util` in `src/Core/Util.php`. The cryptographic
primitives of the library sit on top of it. The model covers five groups of
operations:

- **Integer codecs.** `load_3` and `load_4` read little-endian.
  `store_3` and `store_4` write big-endian. `store32_le` and `store64_le`
  write little-endian.
- **Hexadecimal codec.** `bin2hex`, `bin2hexUpper` and `hex2bin` map
  nibbles to characters and back with branch-free arithmetic and no table
  lookups. `hex2bin` still branches on odd length, on an invalid character
  (it throws) and on `$state`.
- **Comparators.** `compare` is a three-way order. `memcmp` and
  `verify_16`/`verify_32` are equality checks.
- **XOR combiner.** `xorStrings`.
- **Byte/int-array bridge.** `stringToIntArray` and `intArrayToString`,
  together with `chrToInt` and `intToChr`.

How PHP values are represented (module `Php`):

- A PHP string is a `seq<bv8>`, and `strlen` is its length.
- A PHP int on a 64-bit host is a `bv64` two's-complement word. PHP's `&`,
  `|`, `^`, `~` and `<<` are the bit-vector operators.
- `>>` is an arithmetic shift, `Php.Sar`: the vacated high bits copy the
  sign bit. `Php.SarByteRange` shows that on the values the bit tricks
  shift by 8 it is floor division of the signed value by 256.
- `verify_16` and `verify_32` build `$diff` only from lengths and byte
  values. There `$diff` is a natural number, and `Php.NatXor`/`Php.NatOr` are
  PHP's `^`/`|` on non-negative ints.
- Every `+` and `-` in this layer works on values far inside the 64-bit
  range, so the wrapping bit-vector sum is PHP's sum.
- The exceptions the layer throws are the `Err` cases of a `Result`:
  - `TooShort(n)`: `load_4` was given fewer than four bytes.
  - `OddLength`: odd-length input to `hex2bin` with strict padding.
  - `NotHex`: a character that is not a hexadecimal digit.

Each operation is proved against a reference definition. The definitions
are plain case splits, recursion, or, for `XorBytes`, `PackBytes` and
`StringToIntArray`, sequence comprehensions:

- `Digit`/`HexValue`/`HexEncode`/`HexDecode` for the hex codec.
- `LeWord`/`LeValue` for the integer codecs.
- `LeCompare` for `compare`.
- `XorBytes` for `xorStrings`.
- `PackBytes` for `intArrayToString`.

The loops of the source are methods whose postconditions tie their results
to these definitions. Separate lemmas state what the definitions promise:
round trips, error cases, and the numeric meaning of the order.

**Two points about the code.**

- **`compare` orders its inputs as little-endian unsigned numbers, not
  lexicographically from byte 0.** The loop scans from the last index down,
  and a byte only matters while all the bytes above it are equal. The
  result is the order of the inputs read as little-endian unsigned numbers.
  `Comparator.LeCompareIsNumeric` and `Comparator.CompareIsNumeric` prove
  that it is this order.
- **`store64_le`'s eighth byte.** The function's name and its first seven
  bytes are little-endian. The eighth byte comes from `$int >> 52`. See
  Findings below.

## Model

| member | source | states |
|---|---|---|
| Php.IntToChr | src/Core/Util.php:274-277 | `intToChr` keeps exactly the low eight bits of its argument |
| Php.ChrToInt | src/Core/Util.php:262-266 | `chrToInt` gives a value in 0..255 |
| Php.ChrToIntRoundTrip | src/Core/Util.php:262-277 | `intToChr(chrToInt(c))` is `c` |
| Php.SarByteRange | src/Core/Util.php:186-187 | on words whose signed value is in -256..255, PHP's `$v >> 8` is floor division by 256: every bit set for negative v, zero otherwise |
| Php.ZeroPad | src/Core/Util.php:177-178 | right-padding with zero bytes: the length is the larger of the two, the input is a prefix, every added byte is zero |
| Php.LeValueZeroPad | src/Core/Util.php:177-178 | zero bytes added at the end do not change the little-endian value of a string |
| IntCodec.LeWordValue | src/Core/Util.php:14-39 | the 64-bit word assembled from up to eight bytes, least significant first, is the number those bytes encode little-endian |
| IntCodec.Load3 | src/Core/Util.php:14-20 | `load_3` is the little-endian word of the first three bytes, below 2^24 |
| IntCodec.Load4 | src/Core/Util.php:29-39 | `load_4` fails exactly when fewer than four bytes are given, reporting the length; otherwise it is the little-endian word of the first four bytes, below 2^32 |
| IntCodec.Store3 | src/Core/Util.php:47-52 | `store_3` gives three bytes which, read most significant first, are the low 24 bits of the argument |
| IntCodec.Store4 | src/Core/Util.php:60-66 | `store_4` gives four bytes, the reverse of `store32_le` of the same argument |
| IntCodec.Store4Value | src/Core/Util.php:60-66 | the bytes of `store_4`, read most significant first, are the low 32 bits of the argument |
| IntCodec.Store32Le | src/Core/Util.php:74-80 | `store32_le` gives four bytes whose little-endian word is the low 32 bits of the argument |
| IntCodec.Load4Store32Le | src/Core/Util.php:74-80 | `load_4(store32_le(x))` succeeds with the low 32 bits of x |
| IntCodec.Store32LeLoad4 | src/Core/Util.php:29-39 | `store32_le(load_4(s))` gives back the first four bytes of s |
| IntCodec.Load3Store3 | src/Core/Util.php:47-52 | `load_3` of the reversed `store_3(x)` gives the low 24 bits of x |
| IntCodec.Store64Le | src/Core/Util.php:88-99 | `store64_le` as written (64-bit host): eight bytes; the first seven are those of the little-endian encoding, the eighth is `(x >> 52) & 0xff`, and all eight agree with the encoding for every x below 2^52 |
| IntCodec.Store64LeIntended | src/Core/Util.php:88-99 | with the eighth byte taken from `>> 56`, the eight bytes are the little-endian encoding of x |
| IntCodec.Store64LeCounterexample | src/Core/Util.php:98 | at x = 2^56 the as-written eighth byte is 0x10, the encoding's is 0x01, and the bytes do not encode x |
| HexCodec.Digit | src/Core/Util.php:130-134 | the digit for a nibble decodes back to the nibble, and is never a letter of the other case |
| HexCodec.LowerHexDigit | src/Core/Util.php:132-133 | `87 + b + (((b - 10) >> 8) & ~38)` is '0'+b below 10 and 'a'+b-10 from 10 on |
| HexCodec.UpperHexDigit | src/Core/Util.php:156-157 | `55 + b + (((b - 10) >> 8) & ~6)` is '0'+b below 10 and 'A'+b-10 from 10 on |
| HexCodec.EncodeByte | src/Core/Util.php:127-134 | a byte becomes two hexadecimal digits, whose values, high nibble first, give the byte back |
| HexCodec.HexEncode | src/Core/Util.php:122-137 | the encoding is twice as long as the input, and byte i of the input becomes characters 2i and 2i+1 |
| HexCodec.LowerDigitsOfByte | src/Core/Util.php:127-134 | one pass of `bin2hex`'s loop body appends the two lower-case digits of the byte |
| HexCodec.UpperDigitsOfByte | src/Core/Util.php:151-158 | one pass of `bin2hexUpper`'s loop body appends the two upper-case digits of the byte |
| HexCodec.Nibbles | src/Core/Util.php:128-129 | `$chunk >> 4` and `$chunk & 0xf` are the high and low nibbles of the byte |
| HexCodec.Bin2Hex | src/Core/Util.php:122-137 | `bin2hex` returns the lower-case hexadecimal encoding |
| HexCodec.Bin2HexUpper | src/Core/Util.php:146-161 | `bin2hexUpper` returns the upper-case hexadecimal encoding |
| HexCodec.DecodePairs | src/Core/Util.php:233-252 | decoding an even-length string fails only with `NotHex`, and otherwise gives half as many bytes |
| HexCodec.DecodePairsOk | src/Core/Util.php:240-244 | decoding succeeds exactly when every character is a hexadecimal digit |
| HexCodec.DecodePairsValue | src/Core/Util.php:245-250 | byte i of a decoding is 16 times the value of digit 2i plus the value of digit 2i+1 |
| HexCodec.HexDecode | src/Core/Util.php:221-230 | `hex2bin` fails with `OddLength` exactly for odd-length input with strict padding; a result has half the padded length |
| HexCodec.HexDecodeOk | src/Core/Util.php:221-244 | `hex2bin` succeeds exactly when the length is acceptable and every character is a digit |
| HexCodec.LenientPadding | src/Core/Util.php:226-229 | without strict padding an odd-length input decodes as the same input preceded by '0' |
| HexCodec.HexCharTest | src/Core/Util.php:236-245 | `$c_num0 \| $c_alpha0` is zero exactly for a non-digit, and otherwise `$c_val` is the digit's value (either letter case) |
| HexCodec.PackNibbles | src/Core/Util.php:249 | `pack('C', $c_acc \| $c_val)` with `$c_acc` sixteen times the high digit is the decoded byte |
| HexCodec.FlipBit | src/Core/Util.php:251 | `$state ^= 1` alternates between 0 and 1 |
| HexCodec.Hex2Bin | src/Core/Util.php:214-254 | `hex2bin` returns exactly the reference decoding, errors included |
| HexCodec.DecodeEncode | src/Core/Util.php:214-254 | decoding the encoding of any byte string, in either case, gives it back |
| HexCodec.HexRoundTrip | src/Core/Util.php:214-254 | `hex2bin(bin2hex(b), strict)` and `hex2bin(bin2hexUpper(b), strict)` are `b`, for every `b` including the empty one |
| Comparator.LeCompare | src/Core/Util.php:184-188 | the order computed by the scan is -1, 0 or 1 |
| Comparator.LeCompareZero | src/Core/Util.php:184-188 | the order is 0 exactly for equal strings |
| Comparator.LeCompareIsNumeric | src/Core/Util.php:184-188 | the order is the sign of the difference of the little-endian values |
| Comparator.LeCompareAntisymmetric | src/Core/Util.php:184-188 | swapping the inputs negates the order |
| Comparator.LeCompareTransitive | src/Core/Util.php:184-188 | the order is transitive |
| Comparator.BorrowMask | src/Core/Util.php:186 | `(r - l) >> 8` on two bytes has every bit set exactly when the left byte is greater |
| Comparator.EqualMask | src/Core/Util.php:187 | `((r ^ l) - 1) >> 8` on two bytes has every bit set exactly when they are equal |
| Comparator.FlagStep | src/Core/Util.php:186-187 | one step sets `$gt` exactly when the bytes so far were equal and the left byte is greater, and keeps `$eq` only for equal bytes |
| Comparator.CompareByte | src/Core/Util.php:185-187 | the loop body turns flags describing the higher bytes into flags describing them together with the current byte |
| Comparator.Outcome | src/Core/Util.php:189 | `($gt + $gt + $eq) - 1` is 1, 0 or -1 as the flags say greater, equal or less |
| Comparator.Compare | src/Core/Util.php:171-190 | `compare` returns the sign of the order of the first `len` bytes or, without `len`, of the zero-padded inputs |
| Comparator.PaddedCompareIsNumeric | src/Core/Util.php:175-179 | comparing the zero-padded inputs compares the little-endian values of the unpadded inputs |
| Comparator.CompareIsNumeric | src/Core/Util.php:171-190 | without `len`, `compare` is 1, 0 or -1 as the left input's little-endian value is above, equal to or below the right one's |
| Comparator.CompareZero | src/Core/Util.php:171-190 | without `len`, `compare` is 0 exactly when the zero-padded inputs are equal |
| Comparator.CompareSelf | src/Core/Util.php:171-190 | `compare(a, a)` is 0, with or without `len` |
| Comparator.CompareAntisymmetric | src/Core/Util.php:171-190 | `compare(b, a)` is `-compare(a, b)`, with or without `len` |
| Comparator.Memcmp | src/Core/Util.php:197-203 | `memcmp` is 0 exactly for equal strings and PHP's -1 (the word with every bit set) otherwise; it is never 1 |
| Comparator.ByteXorZero | src/Core/Util.php:392 | the XOR of two bytes is zero exactly when they are equal |
| Comparator.VerifyPrefix | src/Core/Util.php:388-395 | the loop shared by `verify_16` and `verify_32` yields a zero `$diff` exactly when the lengths agree and the first `width` bytes agree |
| Comparator.Verify16 | src/Core/Util.php:388-395 | `verify_16` is true exactly when the lengths are equal and the first 16 bytes agree |
| Comparator.Verify32 | src/Core/Util.php:404-411 | `verify_32` is true exactly when the lengths are equal and the first 32 bytes agree |
| XorCombiner.XorStrings | src/Core/Util.php:420-430 | `xorStrings` is as long as the shorter input, and byte i is the XOR of the inputs' bytes i |
| XorCombiner.XorByte | src/Core/Util.php:427 | `intToChr(chrToInt(x) ^ chrToInt(y))` is the XOR of the two bytes |
| XorCombiner.XorTwice | src/Core/Util.php:420-430 | XOR-ing twice with a key at least as long as the input gives the input back |
| XorCombiner.XorCommutes | src/Core/Util.php:420-430 | the order of the inputs does not matter |
| IntArrayBridge.StringToIntArray | src/Core/Util.php:285-294 | `stringToIntArray` has one int per byte, each in 0..255 and equal to the byte |
| IntArrayBridge.PackBytes | src/Core/Util.php:308-309 | packing with `C` format keeps the low byte of each int |
| IntArrayBridge.IntArrayToString | src/Core/Util.php:302-310 | `intArrayToString` has one byte per int, each the int `& 0xff`, and equals packing the unmasked list |
| IntArrayBridge.PackUnpack | src/Core/Util.php:302-310 | `intArrayToString(stringToIntArray(s))` is `s` |
| IntArrayBridge.UnpackPack | src/Core/Util.php:285-294 | `stringToIntArray(intArrayToString(xs))` is every element of xs masked to its low byte |

## Left out

- `strlen`, `substr` and `isMbStringOverride` are not modelled. They deal
  with mbstring function overloading and a process-wide cache. A string's
  length is its sequence length, and a substring is a slice.
- The `InvalidArgumentException` for non-string arguments is not modelled.
  Dafny's types rule it out.
- `numericTo64BitInteger` is not modelled. It relies on float arithmetic
  (`floor`, `ceil`, `abs`) and on PHP's int/float coercion.
- The 32-bit-host branch of `store64_le` is not modelled. It depends on
  `PHP_INT_SIZE` and on float arguments above `PHP_INT_MAX`. Only the 64-bit
  branch is modelled.
- Constant-time behaviour is not modelled. This is the absence of
  data-dependent branches and timing, which a functional model cannot
  express. The arithmetic is modelled exactly; no claim is made about
  timing.
- Library calls are modelled by their effect, not their internals:
  - `hash_equals` is sequence equality.
  - `pack('C', ...)` keeps the low byte.
  - `unpack('C', ...)` and `unpack('C*', ...)` read the byte values.
  - `str_pad(..., "\x00", STR_PAD_RIGHT)` is `Php.ZeroPad`.
  - `array_values` and `array_unshift` are not modelled separately.
- `chrToInt` is modelled on a single byte. In the source it takes a string
  and reads its first byte.
- Comparator.Compare: requires an explicit `len` to be no larger than either
  input. Past the end PHP reads an empty string with a warning, and this case
  is not modelled.
- Comparator.Compare: returns the 64-bit word of PHP's -1, 0 or 1, so -1 is
  the word with every bit set.
- Comparator.Compare: takes `len` as a natural number. A negative `$len`
  starts the source's `while ($i !== 0) { --$i; ... }` with `$i` below zero,
  and `$i` only decreases. PHP ints do not wrap (past `PHP_INT_MIN`, `--`
  gives a float), so `$i !== 0` never fails and the call never returns.
  That case is not modelled.
- Comparator.Verify16: requires both inputs to hold at least 16 bytes.
  Shorter inputs make PHP read past the end with a warning.
- Comparator.Verify32: requires both inputs to hold at least 32 bytes, for
  the same reason.
- IntCodec.Load3: requires at least three bytes, because the source reads
  `$string[0..2]` without a check.
- IntArrayBridge.IntArrayToString: takes a list, standing for an array with
  integer keys, as the docblock's `array<int, int>` declares. For such an
  array, `foreach` and `pack` see the elements in the array's order, and that
  order is the list. Arrays with string keys are not modelled: `array_unshift`
  keeps string keys, and on PHP 8 `call_user_func_array('pack', $args)`
  treats them as parameter names, so those elements do not reach `pack` by
  position.

## Findings

| source | as written | input that shows it | evidently intended | confidence | as-written member | corrected member |
|---|---|---|---|---|---|---|
| src/Core/Util.php:98 | the eighth byte of `store64_le` is `($int >> 52) & 0xff` | x = 2^56: byte 7 comes out as 0x10 instead of 0x01, so the bytes do not encode x; below 2^52 both agree | `($int >> 56) & 0xff`, giving the 8-byte little-endian encoding of x | not executed | IntCodec.Store64Le (with IntCodec.Store64LeCounterexample) | IntCodec.Store64LeIntended |
