/** Bytes, and the exclusive or of byte strings. */
module Bytes {

  type byte = bv8

  function XorByte(x: byte, y: byte): byte {
    x ^ y
  }

  /** As long as the first operand. */
  function Xor(a: seq<byte>, b: seq<byte>): (d: seq<byte>)
    requires |a| <= |b|
    ensures |d| == |a|
  {
    seq(|a|, i requires 0 <= i < |a| => XorByte(a[i], b[i]))
  }

  function Zeros(n: nat): (z: seq<byte>)
    ensures |z| == n
  {
    seq(n, i => 0)
  }
}
