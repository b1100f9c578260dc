/**
 The XOR metric of discovery (`p2p/discover/node.go`): which of two hashes is closer to a target,
 and the logarithmic distance that picks the bucket of a node.
 */
module Distance {
  import opened Bytes

  type Hash = h: seq<bv8> | |h| == 32 witness seq(32, i => 0)

  lemma XorInjective(t: seq<bv8>, a: seq<bv8>, b: seq<bv8>)
    requires |t| == |a| == |b|
    ensures Xor(a, t) == Xor(b, t) <==> a == b
  {
    hide XorByte;
    if Xor(a, t) == Xor(b, t) {
      forall i | 0 <= i < |a| ensures a[i] == b[i] {
        assert Xor(a, t)[i] == XorByte(a[i], t[i]) && Xor(b, t)[i] == XorByte(b[i], t[i]);
        XorCancels(a[i], b[i], t[i]);
      }
    }
  }

  lemma XorCancels(x: bv8, y: bv8, t: bv8)
    ensures XorByte(x, t) == XorByte(y, t) ==> x == y
  {
  }

  // ---------------------------------------------------------------- distcmp

  /** Lexicographic comparison: -1, 0 or 1. */
  function Compare(x: seq<bv8>, y: seq<bv8>): (c: int)
    requires |x| == |y|
    ensures -1 <= c <= 1
  {
    if x == [] then 0
    else if x[0] > y[0] then 1
    else if x[0] < y[0] then -1
    else Compare(x[1..], y[1..])
  }

  function DistanceOrder(target: Hash, a: Hash, b: Hash): (c: int) {
    Compare(Xor(a, target), Xor(b, target))
  }

  lemma CompareStep(x: seq<bv8>, y: seq<bv8>, i: nat)
    requires i < |x| == |y|
    ensures Compare(x[i..], y[i..]) == if x[i] > y[i] then 1 else if x[i] < y[i] then -1 else Compare(x[i + 1..], y[i + 1..])
  {
    assert x[i..][1..] == x[i + 1..] && y[i..][1..] == y[i + 1..];
  }

  lemma CompareEmpty()
    ensures Compare([], []) == 0
  {
  }

  method Distcmp(target: Hash, a: Hash, b: Hash) returns (c: int)
    ensures c == DistanceOrder(target, a, b)
  {
    hide XorByte, Compare;
    CompareEmpty();
    ghost var x, y := Xor(a, target), Xor(b, target);
    for i := 0 to 32
      invariant Compare(x, y) == Compare(x[i..], y[i..])
    {
      var da, db := XorByte(a[i], target[i]), XorByte(b[i], target[i]);
      CompareStep(x, y, i);
      if da > db {
        return 1;
      } else if da < db {
        return -1;
      }
    }
    assert x[32..] == [] && y[32..] == [];
    c := 0;
  }

  lemma {:induction false} CompareAntisymmetric(x: seq<bv8>, y: seq<bv8>)
    requires |x| == |y|
    ensures Compare(x, y) == -Compare(y, x)
    ensures Compare(x, y) == 0 <==> x == y
  {
    if x != [] && x[0] == y[0] {
      CompareAntisymmetric(x[1..], y[1..]);
      assert x == [x[0]] + x[1..] && y == [y[0]] + y[1..];
    }
  }

  lemma {:induction false} CompareTransitive(x: seq<bv8>, y: seq<bv8>, z: seq<bv8>)
    requires |x| == |y| == |z| && Compare(x, y) <= 0 && Compare(y, z) <= 0
    ensures Compare(x, z) <= 0
    ensures Compare(x, y) < 0 || Compare(y, z) < 0 ==> Compare(x, z) < 0
  {
    if x != [] && x[0] == y[0] == z[0] {
      CompareTransitive(x[1..], y[1..], z[1..]);
    }
  }

  /** For a fixed target, closeness is a total order in which only equal hashes are equally close. */
  lemma DistanceOrderIsTotal(t: Hash, a: Hash, b: Hash, c: Hash)
    ensures DistanceOrder(t, a, b) == -DistanceOrder(t, b, a)
    ensures DistanceOrder(t, a, b) == 0 <==> a == b
    ensures DistanceOrder(t, a, b) <= 0 && DistanceOrder(t, b, c) <= 0 ==> DistanceOrder(t, a, c) <= 0
    ensures DistanceOrder(t, a, b) < 0 && DistanceOrder(t, b, c) <= 0 ==> DistanceOrder(t, a, c) < 0
    ensures DistanceOrder(t, a, b) <= 0 && DistanceOrder(t, b, c) < 0 ==> DistanceOrder(t, a, c) < 0
  {
    var x, y, z := Xor(a, t), Xor(b, t), Xor(c, t);
    CompareAntisymmetric(x, y);
    XorInjective(t, a, b);
    if Compare(x, y) <= 0 && Compare(y, z) <= 0 {
      CompareTransitive(x, y, z);
    }
  }

  // ---------------------------------------------------------------- logdist

  /** Bit `k` of a byte, counted from the least significant one. */
  predicate BitOf(b: bv8, k: nat) {
    match k
    case 0 => b & 0x01 != 0
    case 1 => b & 0x02 != 0
    case 2 => b & 0x04 != 0
    case 3 => b & 0x08 != 0
    case 4 => b & 0x10 != 0
    case 5 => b & 0x20 != 0
    case 6 => b & 0x40 != 0
    case 7 => b & 0x80 != 0
    case _ => false
  }

  /** The leading zeros of a byte: the table `lzcount`. */
  function LzCount(b: bv8): (n: nat)
    ensures n <= 8
    ensures n == 8 <==> b == 0
  {
    if b == 0 then 8 else if b < 0x02 then 7 else if b < 0x04 then 6 else if b < 0x08 then 5
    else if b < 0x10 then 4 else if b < 0x20 then 3 else if b < 0x40 then 2 else if b < 0x80 then 1 else 0
  }

  lemma LzCountIsHighestBit(b: bv8)
    requires b != 0
    ensures BitOf(b, 7 - LzCount(b)) && forall k :: 7 - LzCount(b) < k ==> !BitOf(b, k)
  {
  }

  /** Bit `i` of a byte string, counted from the least significant one. */
  predicate Bit(x: seq<bv8>, i: nat) {
    i / 8 < |x| && BitOf(x[|x| - 1 - i / 8], i % 8)
  }

  function LeadingZeros(x: seq<bv8>): (n: nat)
    ensures n <= 8 * |x|
  {
    if x == [] then 0 else if x[0] == 0 then 8 + LeadingZeros(x[1..]) else LzCount(x[0])
  }

  function LogDistance(a: Hash, b: Hash): (n: nat)
    ensures n <= 256
  {
    256 - LeadingZeros(Xor(a, b))
  }

  method Logdist(a: Hash, b: Hash) returns (n: int)
    ensures n == LogDistance(a, b)
  {
    ghost var x := Xor(a, b);
    var lz := 0;
    var i := 0;
    while i < 32
      invariant i <= 32 && lz + LeadingZeros(x[i..]) == LeadingZeros(x)
    {
      var d := XorByte(a[i], b[i]);
      assert x[i..][0] == d && x[i..][1..] == x[i + 1..];
      if d == 0 {
        lz := lz + 8;
      } else {
        lz := lz + LzCount(d);
        return 256 - lz;
      }
      i := i + 1;
    }
    n := 256 - lz;
  }

  /** `n` is one more than the index of the highest set bit of `x`, or 0 if there is none. */
  ghost predicate BitLength(x: seq<bv8>, n: nat) {
    && (n > 0 ==> Bit(x, n - 1))
    && (forall i :: i >= n ==> !Bit(x, i))
  }

  lemma BitLengthUnique(x: seq<bv8>, m: nat, n: nat)
    requires BitLength(x, m) && BitLength(x, n)
    ensures m == n
  {
    assert m > 0 ==> Bit(x, m - 1);
    assert n > 0 ==> Bit(x, n - 1);
  }

  lemma {:induction false} LeadingZerosBits(x: seq<bv8>)
    ensures BitLength(x, 8 * |x| - LeadingZeros(x))
  {
    if x != [] {
      var rest := x[1..];
      LeadingZerosBits(rest);
      forall i: nat | i < 8 * |rest| ensures Bit(x, i) == Bit(rest, i) {
        assert x[|x| - 1 - i / 8] == rest[|rest| - 1 - i / 8];
      }
      TopByte(x);
    }
  }

  /** The bits of the first byte are the top eight. */
  lemma TopByte(x: seq<bv8>)
    requires x != []
    ensures var low := 8 * (|x| - 1);
            && (x[0] != 0 ==> BitLength(x, low + 8 - LzCount(x[0])))
            && (x[0] == 0 ==> forall i :: i >= low ==> !Bit(x, i))
  {
    var low := 8 * (|x| - 1);
    forall i | i >= low ensures Bit(x, i) == (i < low + 8 && BitOf(x[0], i - low)) {
      if i < low + 8 {
        assert i / 8 == |x| - 1 && i % 8 == i - low;
      }
    }
    if x[0] != 0 {
      LzCountIsHighestBit(x[0]);
      var top := low + 7 - LzCount(x[0]);
      assert Bit(x, top);
      forall i | i > top ensures !Bit(x, i) {
        assert i < low + 8 ==> !BitOf(x[0], i - low);
      }
    }
  }

  /** The logarithmic distance is the one bit length of the XOR of the two hashes. */
  lemma LogDistanceIsBitLength(a: Hash, b: Hash, n: nat)
    ensures LogDistance(a, b) == n <==> BitLength(Xor(a, b), n)
  {
    LeadingZerosBits(Xor(a, b));
    if BitLength(Xor(a, b), n) {
      BitLengthUnique(Xor(a, b), n, LogDistance(a, b));
    }
  }

  lemma LzCountOrders(x: bv8, y: bv8)
    requires LzCount(x) > LzCount(y)
    ensures x < y
  {
  }

  lemma {:induction false} LeadingZerosOrder(x: seq<bv8>, y: seq<bv8>)
    requires |x| == |y| && LeadingZeros(x) > LeadingZeros(y)
    ensures Compare(x, y) == -1
  {
    if x[0] == 0 && y[0] == 0 {
      LeadingZerosOrder(x[1..], y[1..]);
    } else {
      assert y[0] != 0;
      if x[0] != 0 {
        LzCountOrders(x[0], y[0]);
      }
    }
  }

  /** A hash in a nearer bucket is nearer: the buckets agree with the metric. */
  lemma NearerBucketIsNearer(t: Hash, a: Hash, b: Hash)
    requires LogDistance(a, t) < LogDistance(b, t)
    ensures DistanceOrder(t, a, b) == -1
  {
    LeadingZerosOrder(Xor(a, t), Xor(b, t));
  }

  lemma LogDistanceSymmetric(a: Hash, b: Hash)
    ensures LogDistance(a, b) == LogDistance(b, a)
    ensures LogDistance(a, b) == 0 <==> a == b
  {
    assert Xor(a, b) == Xor(b, a);
    XorInjective(b, a, b);
    AllZero(Xor(b, b));
    AllZero(Xor(a, b));
    assert forall i :: 0 <= i < 32 ==> Xor(b, b)[i] == 0;
    if LogDistance(a, b) == 0 {
      assert Xor(a, b) == Xor(b, b);
    }
  }

  lemma {:induction false} AllZero(x: seq<bv8>)
    ensures LeadingZeros(x) == 8 * |x| <==> forall i :: 0 <= i < |x| ==> x[i] == 0
  {
    if x != [] {
      AllZero(x[1..]);
      assert x == [x[0]] + x[1..];
    }
  }

  // ---------------------------------------------------------------- hashAtDistance

  /** The byte `1 << (k - 1)`. */
  function OneBit(k: nat): bv8
    requires 1 <= k <= 8
  {
    match k
    case 1 => 0x01
    case 2 => 0x02
    case 3 => 0x04
    case 4 => 0x08
    case 5 => 0x10
    case 6 => 0x20
    case 7 => 0x40
    case _ => 0x80
  }

  function FlipBit(b: bv8, bit: bv8): bv8 {
    (b & !bit) | (!b & bit)
  }

  lemma FlipBitXor(b: bv8, k: nat)
    requires 1 <= k <= 8
    ensures LzCount(XorByte(b, FlipBit(b, OneBit(k)))) == 8 - k
    ensures XorByte(b, FlipBit(b, OneBit(k))) != 0 && XorByte(b, b) == 0
  {
    FlipBitIsXor(b, OneBit(k));
    OneBitZeros(k);
  }

  lemma FlipBitIsXor(b: bv8, bit: bv8)
    ensures XorByte(b, FlipBit(b, bit)) == bit && XorByte(b, b) == 0
  {
  }

  lemma OneBitZeros(k: nat)
    requires 1 <= k <= 8
    ensures LzCount(OneBit(k)) == 8 - k && OneBit(k) != 0
  {
  }

  lemma {:induction false} ZerosThen(x: seq<bv8>, pos: nat)
    requires pos < |x| && x[pos] != 0 && forall i :: 0 <= i < pos ==> x[i] == 0
    ensures LeadingZeros(x) == 8 * pos + LzCount(x[pos])
  {
    if pos > 0 {
      ZerosThen(x[1..], pos - 1);
    }
  }

  /** A hash at logarithmic distance `n` from `a`, whatever bytes are drawn for its tail. */
  method HashAtDistance(a: Hash, n: nat, random: seq<bv8>) returns (b: Hash)
    requires n <= 256 && |random| == 32
    ensures LogDistance(a, b) == n
  {
    if n == 0 {
      LogDistanceSymmetric(a, a);
      return a;
    }
    hide XorByte, FlipBit, OneBit, LzCount, LeadingZeros;
    var pos, k := 32 - n / 8 - 1, n % 8;
    if k == 0 {
      pos, k := pos + 1, 8;
    }
    b := a[pos := FlipBit(a[pos], OneBit(k))];
    var i := pos + 1;
    while i < 32
      invariant pos + 1 <= i <= 32
      invariant forall j :: 0 <= j < pos ==> b[j] == a[j]
      invariant b[pos] == FlipBit(a[pos], OneBit(k))
    {
      b := b[i := random[i]];
      i := i + 1;
    }
    FlipBitXor(a[pos], k);
    forall j | 0 <= j < pos ensures Xor(a, b)[j] == 0 {
      FlipBitXor(a[j], 1);
    }
    ZerosThen(Xor(a, b), pos);
  }
}
