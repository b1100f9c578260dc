/**
 Message codes on the wire: unsigned 64-bit scalars in RLP (Yellow Paper, Appendix B), as the
 frame writer emits them and the frame reader accepts them.
 */
module Rlp {
  import opened Bytes

  const UINT64 := 0x1_0000_0000_0000_0000

  datatype Result<+T> = Ok(value: T) | Err(error: Error)
  datatype Error = ShortRead | BadHeaderMac | BadFrameMac | BadCode | BadSnappy | TooLarge | Overflow

  function ByteValue(b: byte): (n: nat)
    ensures n < 256
  {
    b as int
  }

  /** The byte of value `n`, by counting, which needs no conversion between numbers and bit vectors. */
  function ByteOf(n: nat): (b: byte)
    requires n < 256
    ensures b as int == n && ByteValue(b) == n
  {
    if n == 0 then 0 else ByteOf(n - 1) + 1
  }

  function BigEndian(n: nat): (bs: seq<byte>)
    ensures n == 0 <==> bs == []
    ensures bs != [] ==> bs[0] != 0
  {
    if n == 0 then [] else BigEndian(n / 256) + [ByteOf(n % 256)]
  }

  function Number(bs: seq<byte>): (n: nat) {
    if bs == [] then 0 else Number(bs[..|bs| - 1]) * 256 + ByteValue(bs[|bs| - 1])
  }

  lemma {:induction false} NumberOfBigEndian(n: nat)
    ensures Number(BigEndian(n)) == n
  {
    hide ByteOf;
    if n != 0 {
      NumberOfBigEndian(n / 256);
      assert BigEndian(n)[..|BigEndian(n)| - 1] == BigEndian(n / 256);
    }
  }

  lemma ByteOfByte(b: byte)
    ensures ByteOf(ByteValue(b)) == b && (ByteValue(b) == 0 <==> b == 0)
  {
    hide ByteOf;
    SameByte(ByteOf(ByteValue(b)), b);
  }

  lemma SameByte(a: byte, b: byte)
    requires a as int == b as int
    ensures a == b
  {
  }

  lemma LastDigit(n: nat, d: nat)
    requires d < 256 && n * 256 + d != 0
    ensures BigEndian(n * 256 + d) == BigEndian(n) + [ByteOf(d)]
  {
    hide ByteOf;
    assert (n * 256 + d) / 256 == n && (n * 256 + d) % 256 == d;
  }

  lemma NumberStep(bs: seq<byte>)
    ensures Number([]) == 0 && BigEndian(0) == []
    ensures bs != [] ==> Number(bs) == Number(bs[..|bs| - 1]) * 256 + ByteValue(bs[|bs| - 1])
  {
  }

  lemma {:induction false} DigitsOfNumber(bs: seq<byte>)
    requires bs == [] || ByteValue(bs[0]) != 0
    ensures BigEndian(Number(bs)) == bs
  {
    hide ByteOf, ByteValue, BigEndian, Number;
    NumberStep(bs);
    if bs != [] {
      var front, last := bs[..|bs| - 1], bs[|bs| - 1];
      ByteOfByte(last);
      if front != [] {
        assert front[0] == bs[0];
        DigitsOfNumber(front);
      }
      LastDigit(Number(front), ByteValue(last));
      assert bs == front + [last];
    }
  }

  lemma BigEndianOfNumber(bs: seq<byte>)
    requires bs == [] || bs[0] != 0
    ensures BigEndian(Number(bs)) == bs
  {
    hide Number, BigEndian, ByteValue;
    if bs != [] {
      ByteOfByte(bs[0]);
    }
    DigitsOfNumber(bs);
  }

  function Pow256(k: nat): (p: nat)
    ensures p > 0
  {
    if k == 0 then 1 else 256 * Pow256(k - 1)
  }

  lemma {:induction false} NumberBound(bs: seq<byte>)
    ensures Number(bs) < Pow256(|bs|)
    ensures bs != [] && bs[0] != 0 ==> Pow256(|bs| - 1) <= Number(bs)
  {
    if bs != [] {
      var front := bs[..|bs| - 1];
      NumberBound(front);
      if |bs| > 1 {
        assert front[0] == bs[0];
      }
    }
  }

  lemma Pow256Monotone(j: nat, k: nat)
    requires j <= k
    ensures Pow256(j) <= Pow256(k)
  {
  }

  /** A 64-bit number takes at most eight bytes. */
  lemma SizeBound(bs: seq<byte>)
    requires bs == [] || bs[0] != 0
    ensures Number(bs) < UINT64 <==> |bs| <= 8
  {
    NumberBound(bs);
    assert Pow256(8) == UINT64;
    if |bs| <= 8 {
      Pow256Monotone(|bs|, 8);
    } else {
      Pow256Monotone(8, |bs| - 1);
    }
  }

  function EncodeUint(v: nat): (bs: seq<byte>)
    requires v < UINT64
  {
    if 0 < v < 128 then [ByteOf(v)]
    else
      NumberOfBigEndian(v); SizeBound(BigEndian(v));
      [ByteOf(0x80 + |BigEndian(v)|)] + BigEndian(v)
  }

  /** The number at the head of `bs`, if it is there in its one canonical form, and what follows it. */
  function DecodeUint(bs: seq<byte>): (r: Result<(nat, seq<byte>)>) {
    if bs == [] then Err(ShortRead)
    else
      var head := bs[0] as int;
      if head < 0x80 then
        if head == 0 then Err(BadCode) else Ok((head, bs[1..]))
      else if head > 0x88 then Err(BadCode)
      else
        var size := head - 0x80;
        if |bs| < 1 + size then Err(ShortRead)
        else
          var digits := bs[1..1 + size];
          if size > 0 && (digits[0] == 0 || Number(digits) < 128) then Err(BadCode)
          else Ok((Number(digits), bs[1 + size..]))
  }

  lemma CodeRoundTrip(v: nat, rest: seq<byte>)
    requires v < UINT64
    ensures DecodeUint(EncodeUint(v) + rest) == Ok((v, rest))
  {
    hide ByteOf, Number;
    var digits := BigEndian(v);
    NumberOfBigEndian(v);
    SizeBound(digits);
    var bs := EncodeUint(v) + rest;
    if !(0 < v < 128) {
      assert bs[0] as int == 0x80 + |digits|;
      assert bs[1..1 + |digits|] == digits;
      assert bs[1 + |digits|..] == rest;
    } else {
      assert bs[1..] == rest;
    }
  }

  /** Only the canonical encoding decodes: no other bytes stand for the same code. */
  lemma CodeIsCanonical(bs: seq<byte>)
    requires DecodeUint(bs).Ok?
    ensures var (v, rest) := DecodeUint(bs).value; v < UINT64 && bs == EncodeUint(v) + rest
  {
    hide ByteOf, Number, BigEndian;
    if bs[0] as int < 0x80 {
      assert bs == [bs[0]] + bs[1..];
    } else {
      var size := bs[0] as int - 0x80;
      LongCode(bs[0], bs[1..1 + size]);
      assert bs == [bs[0]] + bs[1..1 + size] + bs[1 + size..];
    }
  }

  lemma LongCode(head: byte, digits: seq<byte>)
    requires head as int == 0x80 + |digits| <= 0x88 && (digits == [] || (digits[0] != 0 && Number(digits) >= 128))
    ensures Number(digits) < UINT64 && EncodeUint(Number(digits)) == [head] + digits
  {
    hide ByteOf, BigEndian;
    SizeBound(digits);
    BigEndianOfNumber(digits);
  }
}
