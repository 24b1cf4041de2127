/**
 * Bytes, little-endian field values and the host byte order.
 *
 * `LittleValue` (utility/ByteSwap.h, which is not part of this model) converts a
 * value between the on-disk little-endian order and the host order. It is modelled
 * on the bytes of one field in memory: the identity on a little-endian host and a
 * byte reversal on a big-endian host. Either way it is an involution, and reading
 * a field back in host order after `LittleValue` yields its little-endian value.
 */
module Bytes {

  type byte = x: int | 0 <= x < 256

  datatype Endian = LittleEndian | BigEndian

  function Pow256(n: nat): (r: nat)
    ensures r >= 1
  {
    if n == 0 then 1 else 256 * Pow256(n - 1)
  }

  function Reverse<T>(s: seq<T>): (r: seq<T>)
    ensures |r| == |s|
    ensures forall i :: 0 <= i < |s| ==> r[i] == s[|s| - 1 - i]
  {
    if |s| == 0 then [] else Reverse(s[1..]) + [s[0]]
  }

  lemma ReverseReverse<T>(s: seq<T>)
    ensures Reverse(Reverse(s)) == s
  {
  }

  /** The unsigned value of a field stored least significant byte first. */
  function LeValue(bs: seq<byte>): (r: nat)
    ensures r < Pow256(|bs|)
    ensures |bs| == 4 ==> r < 0x1_0000_0000
  {
    if |bs| == 0 then 0 else bs[0] + 256 * LeValue(bs[1..])
  }

  /** The unsigned value the host reads from a field's bytes in memory. */
  function HostValue(host: Endian, bs: seq<byte>): (r: nat)
    ensures r < Pow256(|bs|)
    ensures |bs| == 4 ==> r < 0x1_0000_0000
  {
    match host
    case LittleEndian => LeValue(bs)
    case BigEndian => LeValue(Reverse(bs))
  }

  /** `LittleValue` applied to one field in memory. */
  function LittleValue(host: Endian, bs: seq<byte>): (r: seq<byte>)
    ensures |r| == |bs|
    ensures host == LittleEndian ==> r == bs
    ensures host == BigEndian ==> forall i :: 0 <= i < |bs| ==> r[i] == bs[|bs| - 1 - i]
  {
    match host
    case LittleEndian => bs
    case BigEndian => Reverse(bs)
  }

  lemma LittleValueInvolutive(host: Endian, bs: seq<byte>)
    ensures LittleValue(host, LittleValue(host, bs)) == bs
  {
    if host == BigEndian {
      ReverseReverse(bs);
    }
  }

  /** Whatever the host order, the host reads the little-endian value after `LittleValue`. */
  lemma LittleValueReadsLittleEndian(host: Endian, bs: seq<byte>)
    ensures HostValue(host, LittleValue(host, bs)) == LeValue(bs)
  {
    if host == BigEndian {
      ReverseReverse(bs);
    }
  }

  /** Two's-complement reading of an unsigned value held in `width` bytes. */
  function Signed(v: nat, width: nat): (r: int)
    requires width >= 1 && v < Pow256(width)
    ensures -(Pow256(width) as int) <= 2 * r < Pow256(width)
    ensures r == v || r == v - Pow256(width)
  {
    if 2 * v >= Pow256(width) then v - Pow256(width) else v
  }

  /** The number of values of a 32-bit unsigned integer. */
  const U32: nat := 0x1_0000_0000

  /** The number of values of a 64-bit `size_t`. */
  const SIZE_T_MODULUS: nat := 0x1_0000_0000_0000_0000

  /** Bitwise exclusive or of two naturals. */
  function Xor(a: nat, b: nat): nat
  {
    if a == 0 && b == 0 then 0 else (a % 2 + b % 2) % 2 + 2 * Xor(a / 2, b / 2)
  }

  /** A C `int`. */
  type int32 = x: int | -0x8000_0000 <= x < 0x8000_0000

  /** Two's-complement reading of a 32-bit unsigned value. */
  function Signed32(v: nat): (r: int32)
    requires v < U32
    ensures r == v || r == v - U32
  {
    if v >= 0x8000_0000 then v - U32 else v
  }

  /** The value of a C `int` (32-bit) field. */
  function Int32(bs: seq<byte>): (r: int32)
    requires |bs| == 4
  {
    Signed32(LeValue(bs))
  }

  /** The value of a C `short` field. */
  function Int16(bs: seq<byte>): (r: int)
    requires |bs| == 2
    ensures -0x8000 <= r < 0x8000
  {
    Signed(LeValue(bs), 2)
  }

  /** The little-endian bytes of an unsigned value, `width` bytes wide. */
  function LeBytes(v: nat, width: nat): (r: seq<byte>)
    requires v < Pow256(width)
    ensures |r| == width
  {
    if width == 0 then [] else [v % 256] + LeBytes(v / 256, width - 1)
  }

  lemma {:induction false} LeValueOfLeBytes(v: nat, width: nat)
    requires v < Pow256(width)
    ensures LeValue(LeBytes(v, width)) == v
  {
    if width > 0 {
      LeValueOfLeBytes(v / 256, width - 1);
      assert LeBytes(v, width)[1..] == LeBytes(v / 256, width - 1);
    }
  }

  /** Multiplication by a natural number keeps the order. */
  lemma MulMono(a: nat, b: nat, k: nat)
    requires a <= b
    ensures a * k <= b * k
  {
  }
}
