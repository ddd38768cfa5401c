/**
 * `stringToIntArray` and `intArrayToString`: between a byte string and a
 * list of PHP ints, one int per byte.
 */
module IntArrayBridge {
  import opened Php

  /** `stringToIntArray`: `unpack('C*')` gives every byte as an int in 0..255, in order. */
  function StringToIntArray(s: Bytes): (r: seq<PhpInt>)
    ensures |r| == |s|
    ensures forall i :: 0 <= i < |s| ==> r[i] < 256 && IntToChr(r[i]) == s[i]
  {
    seq(|s|, i requires 0 <= i < |s| => ChrToInt(s[i]))
  }

  /** The string `pack('C*', ...)` makes of a list of ints: the low byte of each. */
  function PackBytes(ints: seq<PhpInt>): (r: Bytes)
    ensures |r| == |ints|
    ensures forall i :: 0 <= i < |ints| ==> r[i] as PhpInt == ints[i] & 0xff
  {
    seq(|ints|, i requires 0 <= i < |ints| => IntToChr(ints[i]))
  }

  /**
   * `intArrayToString`: every element is first masked with `& 0xff` in
   * place, then the list is packed one byte per element. The masking loop
   * does not change the outcome: the result is what packing the unmasked
   * list gives.
   */
  method IntArrayToString(ints: seq<PhpInt>) returns (s: Bytes)
    ensures |s| == |ints|
    ensures forall i :: 0 <= i < |ints| ==> s[i] as PhpInt == ints[i] & 0xff
    ensures s == PackBytes(ints)
  {
    var args := ints;
    for i := 0 to |args|
      invariant |args| == |ints|
      invariant forall k :: 0 <= k < i ==> args[k] == ints[k] & 0xff
      invariant forall k :: i <= k < |args| ==> args[k] == ints[k]
    {
      args := args[i := args[i] & 0xff];
    }
    s := PackBytes(args);
    forall i | 0 <= i < |ints|
      ensures s[i] as PhpInt == ints[i] & 0xff
    {
      MaskTwice(ints[i]);
    }
  }

  lemma MaskTwice(x: PhpInt)
    ensures (x & 0xff) & 0xff == x & 0xff
  {
  }

  /** Packing the ints a string unpacks to gives the string back. */
  lemma PackUnpack(s: Bytes)
    ensures PackBytes(StringToIntArray(s)) == s
  {
  }

  /** Unpacking a packed list gives every element masked to its low byte. */
  lemma UnpackPack(ints: seq<PhpInt>)
    ensures StringToIntArray(PackBytes(ints)) == seq(|ints|, i requires 0 <= i < |ints| => ints[i] & 0xff)
  {
  }
}
