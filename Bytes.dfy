/**
 * Bytes, multi-byte words in either byte order, and the fixed-width integer
 * conversions the decoder relies on.
 */
module Bytes {

  type Byte = b: int | 0 <= b < 256

  function Pow256(n: nat): (r: nat)
    ensures r >= 1
  {
    if n == 0 then 1 else 256 * Pow256(n - 1)
  }

  /** The unsigned value of `bs`, least significant byte first. */
  function LittleEndian(bs: seq<Byte>): nat
  {
    if bs == [] then 0 else bs[0] + 256 * LittleEndian(bs[1..])
  }

  /** The unsigned value of `bs`, most significant byte first. */
  function BigEndian(bs: seq<Byte>): nat
  {
    if bs == [] then 0 else 256 * BigEndian(bs[..|bs| - 1]) + bs[|bs| - 1]
  }

  /** The value of a multi-byte word read in the given byte order. */
  function Word(bs: seq<Byte>, bigEndian: bool): nat
  {
    if bigEndian then BigEndian(bs) else LittleEndian(bs)
  }

  function Reverse(bs: seq<Byte>): (r: seq<Byte>)
    ensures |r| == |bs|
  {
    if bs == [] then [] else [bs[|bs| - 1]] + Reverse(bs[..|bs| - 1])
  }

  /** The `n` bytes that store `x` least significant byte first. */
  function EncodeLittleEndian(x: nat, n: nat): (bs: seq<Byte>)
    ensures |bs| == n
  {
    if n == 0 then [] else [x % 256] + EncodeLittleEndian(x / 256, n - 1)
  }

  /** The `n` bytes that store `x` in the given byte order. */
  function EncodeWord(x: nat, n: nat, bigEndian: bool): (bs: seq<Byte>)
    ensures |bs| == n
  {
    if bigEndian then Reverse(EncodeLittleEndian(x, n)) else EncodeLittleEndian(x, n)
  }

  /** Byte `i` of the reversal is byte `|bs| - 1 - i` of the original. */
  lemma {:induction false} ReverseAt(bs: seq<Byte>, i: nat)
    requires i < |bs|
    ensures Reverse(bs)[i] == bs[|bs| - 1 - i]
  {
    if i > 0 {
      ReverseAt(bs[..|bs| - 1], i - 1);
    }
  }

  /** Reversing twice gives the bytes back. */
  lemma ReverseReverse(bs: seq<Byte>)
    ensures Reverse(Reverse(bs)) == bs
  {
    forall i | 0 <= i < |bs|
      ensures Reverse(Reverse(bs))[i] == bs[i]
    {
      ReverseAt(Reverse(bs), i);
      ReverseAt(bs, |bs| - 1 - i);
    }
  }

  lemma {:induction false} LittleEndianBound(bs: seq<Byte>)
    ensures LittleEndian(bs) < Pow256(|bs|)
  {
    if bs != [] {
      LittleEndianBound(bs[1..]);
      assert LittleEndian(bs[1..]) <= Pow256(|bs| - 1) - 1;
    }
  }

  /** Decoding an encoded word gives the value back. */
  lemma {:induction false} DecodeEncode(x: nat, n: nat)
    requires x < Pow256(n)
    ensures LittleEndian(EncodeLittleEndian(x, n)) == x
  {
    if n > 0 {
      var bs := EncodeLittleEndian(x, n);
      assert bs[1..] == EncodeLittleEndian(x / 256, n - 1);
      DecodeEncode(x / 256, n - 1);
    }
  }

  /** Encoding a decoded word gives the bytes back: the decoding is injective. */
  lemma {:induction false} EncodeDecode(bs: seq<Byte>)
    ensures EncodeLittleEndian(LittleEndian(bs), |bs|) == bs
  {
    if bs != [] {
      var x := LittleEndian(bs);
      assert x % 256 == bs[0] && x / 256 == LittleEndian(bs[1..]);
      EncodeDecode(bs[1..]);
    }
  }

  /** Reading big-endian is reading the reversed bytes little-endian. */
  lemma {:induction false} BigEndianIsReversed(bs: seq<Byte>)
    ensures BigEndian(bs) == LittleEndian(Reverse(bs))
  {
    if bs != [] {
      var r := Reverse(bs);
      assert r[1..] == Reverse(bs[..|bs| - 1]);
      BigEndianIsReversed(bs[..|bs| - 1]);
    }
  }

  /**
   * The byte order matters: bytes that are not a palindrome decode to
   * different values in the two orders.
   */
  lemma ByteOrderMatters(bs: seq<Byte>)
    requires bs != Reverse(bs)
    ensures Word(bs, true) != Word(bs, false)
  {
    BigEndianIsReversed(bs);
    if BigEndian(bs) == LittleEndian(bs) {
      EncodeDecode(bs);
      EncodeDecode(Reverse(bs));
      assert false;
    }
  }

  /** A 16-bit word reinterpreted as two's complement (`ReadInt16`). */
  function ToInt16(u: nat): (r: int)
    requires u < 0x1_0000
    ensures -0x8000 <= r < 0x8000
    ensures r % 0x1_0000 == u
  {
    if u >= 0x8000 then u - 0x1_0000 else u
  }

  /** An integer wrapped into a 32-bit two's complement `int`. */
  function ToInt32(x: int): (r: int)
    ensures -0x8000_0000 <= r < 0x8000_0000
    ensures r % 0x1_0000_0000 == x % 0x1_0000_0000
  {
    var m := x % 0x1_0000_0000;
    if m >= 0x8000_0000 then m - 0x1_0000_0000 else m
  }

  lemma Int32Identity(x: int)
    requires -0x8000_0000 <= x < 0x8000_0000
    ensures ToInt32(x) == x
  {
  }

  /** Bytes as characters, one character per byte with the same code. */
  function Chars(bs: seq<Byte>): (s: string)
    ensures |s| == |bs|
  {
    seq(|bs|, i requires 0 <= i < |bs| => bs[i] as char)
  }

  /** Bytes decoded as ASCII: a byte above 127 becomes '?'. */
  function Ascii(bs: seq<Byte>): (s: string)
    ensures |s| == |bs|
  {
    seq(|bs|, i requires 0 <= i < |bs| => if bs[i] < 128 then bs[i] as char else '?')
  }

  /** An ASCII decode equals a text without '?' exactly when the bytes are its codes. */
  lemma AsciiMatches(bs: seq<Byte>, text: string)
    requires forall i :: 0 <= i < |text| ==> text[i] < 128 as char && text[i] != '?'
    ensures Ascii(bs) == text <==> |bs| == |text| && forall i :: 0 <= i < |bs| ==> bs[i] == text[i] as int
  {
    if |bs| == |text| && forall i :: 0 <= i < |bs| ==> bs[i] == text[i] as int {
      assert forall i :: 0 <= i < |bs| ==> Ascii(bs)[i] == text[i];
    }
  }
}
