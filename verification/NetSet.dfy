/**
 IP ranges (`p2p/netutil/net.go`): when two addresses are in the same network, and the counter set
 that bounds how many addresses of one network it tracks.
 */
module NetSet {
  import opened Bytes

  type Ip = ip: seq<bv8> | |ip| == 4 || |ip| == 16 witness [0, 0, 0, 0]
  type Key = seq<bv8>

  const V4: bv8 := 0x34
  const V6: bv8 := 0x36

  /** The four-byte form of an address that has one; otherwise the address itself. */
  function Canonical(ip: Ip): (c: Ip) {
    if |ip| == 16 && ip[..10] == seq(10, i => 0) && ip[10] == 0xFF && ip[11] == 0xFF then ip[12..] else ip
  }

  /** The top `r` bits of a byte: `^byte(0xFF >> r)`. */
  function Mask(r: nat): bv8
    requires r < 8
  {
    match r
    case 0 => 0x00
    case 1 => 0x80
    case 2 => 0xC0
    case 3 => 0xE0
    case 4 => 0xF0
    case 5 => 0xF8
    case 6 => 0xFC
    case _ => 0xFE
  }

  function Masked(b: bv8, mask: bv8): bv8 { b & mask }

  predicate SamePrefix(bits: nat, ip: Ip, other: Ip)
    requires |ip| == |other|
  {
    var nb, mask := bits / 8, Mask(bits % 8);
    if mask != 0 && nb < |ip| && Masked(ip[nb], mask) != Masked(other[nb], mask) then false
    else nb <= |ip| && ip[..nb] == other[..nb]
  }

  /** The byte with bit `i` alone, from the top. */
  function OneBit(i: nat): bv8
    requires i < 8
  {
    match i
    case 0 => 0x80
    case 1 => 0x40
    case 2 => 0x20
    case 3 => 0x10
    case 4 => 0x08
    case 5 => 0x04
    case 6 => 0x02
    case _ => 0x01
  }

  predicate BitOf(b: bv8, i: nat)
    requires i < 8
  {
    Masked(b, OneBit(i)) != 0
  }

  predicate Bit(ip: Ip, i: nat)
    requires i / 8 < |ip|
  {
    BitOf(ip[i / 8], i % 8)
  }

  lemma MasksJoin(x: bv8, y: bv8, m: bv8, n: bv8)
    ensures Masked(x, m | n) == Masked(y, m | n) <==> Masked(x, m) == Masked(y, m) && Masked(x, n) == Masked(y, n)
  {
    hide Masked;
    MaskOfBoth(x, m, n);
    MaskOfBoth(y, m, n);
    MaskOfOne(x, m, n);
    MaskOfOne(y, m, n);
    MaskOfOne(x, n, m);
    MaskOfOne(y, n, m);
    BothWays(m, n);
  }

  lemma MaskOfBoth(x: bv8, m: bv8, n: bv8)
    ensures Masked(x, m | n) == Masked(x, m) | Masked(x, n)
  {
  }

  lemma MaskOfOne(x: bv8, m: bv8, n: bv8)
    ensures Masked(x, m) == Masked(Masked(x, m | n), m)
  {
  }

  lemma BothWays(m: bv8, n: bv8)
    ensures m | n == n | m
  {
  }

  lemma BitIsBit(x: bv8, y: bv8, i: nat)
    requires i < 8
    ensures Masked(x, OneBit(i)) == Masked(y, OneBit(i)) <==> (BitOf(x, i) <==> BitOf(y, i))
  {
    SoleBit(x, i);
    SoleBit(y, i);
  }

  lemma SoleBit(x: bv8, i: nat)
    requires i < 8
    ensures Masked(x, OneBit(i)) == 0 || Masked(x, OneBit(i)) == OneBit(i)
    ensures OneBit(i) != 0
  {
    match i
    case 0 =>
    case 1 =>
    case 2 =>
    case 3 =>
    case 4 =>
    case 5 =>
    case 6 =>
    case _ =>
  }

  lemma MaskStep(r: nat)
    requires r < 7
    ensures Mask(r + 1) == Mask(r) | OneBit(r)
  {
  }

  lemma OneBitMore(r: nat, x: bv8, y: bv8)
    requires r < 7
    ensures Masked(x, Mask(r + 1)) == Masked(y, Mask(r + 1)) <==>
              Masked(x, Mask(r)) == Masked(y, Mask(r)) && (BitOf(x, r) <==> BitOf(y, r))
  {
    hide Masked, Mask, OneBit, BitOf;
    MaskStep(r);
    MasksJoin(x, y, Mask(r), OneBit(r));
    BitIsBit(x, y, r);
  }

  /** A mask keeps exactly the top bits. */
  lemma {:induction false} MaskedBits(r: nat, x: bv8, y: bv8)
    requires r < 8
    ensures Masked(x, Mask(r)) == Masked(y, Mask(r)) <==> forall i :: 0 <= i < r ==> (BitOf(x, i) <==> BitOf(y, i))
  {
    hide BitOf, Masked;
    if r > 0 {
      OneBitMore(r - 1, x, y);
      MaskedBits(r - 1, x, y);
    } else {
      NoBits(x, y);
    }
  }

  lemma NoBits(x: bv8, y: bv8)
    ensures Masked(x, Mask(0)) == Masked(y, Mask(0))
  {
  }

  lemma AllBits(x: bv8, y: bv8)
    requires forall i :: 0 <= i < 8 ==> (BitOf(x, i) <==> BitOf(y, i))
    ensures x == y
  {
    hide Masked, Mask, BitOf, OneBit;
    MaskedBits(7, x, y);
    assert BitOf(x, 7) <==> BitOf(y, 7);
    BitIsBit(x, y, 7);
    MasksJoin(x, y, Mask(7), OneBit(7));
    WholeMask(x, y);
  }

  lemma WholeMask(x: bv8, y: bv8)
    ensures Masked(x, Mask(7) | OneBit(7)) == x && Masked(y, Mask(7) | OneBit(7)) == y
  {
  }

  /** So addresses are in one network exactly if their first `bits` bits are the same. */
  lemma PrefixIsBits(bits: nat, ip: Ip, other: Ip)
    requires |ip| == |other| && bits <= |ip| * 8
    ensures SamePrefix(bits, ip, other) <==> forall i :: 0 <= i < bits ==> (Bit(ip, i) <==> Bit(other, i))
  {
    hide BitOf, Masked, Mask;
    var nb, r := bits / 8, bits % 8;
    if nb < |ip| {
      MaskedBits(r, ip[nb], other[nb]);
      ZeroMask(r);
    }
    if SamePrefix(bits, ip, other) {
      forall i | 0 <= i < bits ensures Bit(ip, i) <==> Bit(other, i) {
        if i / 8 < nb {
          assert ip[..nb][i / 8] == other[..nb][i / 8];
        }
      }
    }
    if forall i :: 0 <= i < bits ==> (Bit(ip, i) <==> Bit(other, i)) {
      forall k | 0 <= k < nb ensures ip[k] == other[k] {
        forall i | 0 <= i < 8 ensures BitOf(ip[k], i) <==> BitOf(other[k], i) {
          assert Bit(ip, 8 * k + i) <==> Bit(other, 8 * k + i);
        }
        AllBits(ip[k], other[k]);
      }
      if nb < |ip| {
        forall i | 0 <= i < r ensures BitOf(ip[nb], i) <==> BitOf(other[nb], i) {
          assert Bit(ip, 8 * nb + i) <==> Bit(other, 8 * nb + i);
        }
      }
    }
  }

  lemma ZeroMask(r: nat)
    requires r < 8
    ensures Mask(r) == 0 <==> r == 0
  {
  }

  /** `SameNet`: addresses of different families are never in one network. */
  predicate SameNet(bits: nat, ip: Ip, other: Ip) {
    var a, b := Canonical(ip), Canonical(other);
    |a| == |b| && SamePrefix(bits, a, b)
  }

  function Clamp(subnet: nat, length: nat): nat { if subnet > length * 8 then length * 8 else subnet }

  function Family(a: Ip): bv8 { if |a| == 4 then V4 else V6 }

  function PartialByte(a: Ip, bits: nat): Key {
    if bits / 8 < |a| && Mask(bits % 8) != 0 then [Masked(a[bits / 8], Mask(bits % 8))] else []
  }

  /** `key`: a family tag, then the first `subnet` bits of the address, or all it has. */
  function KeyOf(subnet: nat, ip: Ip): (k: Key) {
    var a := Canonical(ip);
    var bits := Clamp(subnet, |a|);
    [Family(a)] + a[..bits / 8] + PartialByte(a, bits)
  }

  lemma TaggedEqual(t: bv8, a: Key, b: Key, la: Key, lb: Key)
    requires |a| == |b|
    ensures [t] + a + la == [t] + b + lb <==> a == b && la == lb
  {
    assert ([t] + a + la)[1..1 + |a|] == a && ([t] + b + lb)[1..1 + |a|] == b;
    assert ([t] + a + la)[1 + |a|..] == la && ([t] + b + lb)[1 + |a|..] == lb;
  }

  /**
   Two addresses share a counter exactly if they are in the same network, except that a subnet length
   a whole byte or more beyond the address puts no address in a network with itself.
   */
  lemma SharedCounterIsSameNet(subnet: nat, ip: Ip, other: Ip)
    ensures KeyOf(subnet, ip) == KeyOf(subnet, other) <==>
              SameNet(subnet, ip, other) || (subnet / 8 > |Canonical(ip)| && Canonical(ip) == Canonical(other))
  {
    hide Canonical, Mask, Masked;
    var a, b := Canonical(ip), Canonical(other);
    if |a| != |b| {
      assert KeyOf(subnet, ip)[0] == Family(a) && KeyOf(subnet, other)[0] == Family(b);
      assert V4 != V6;
    } else {
      var bits := Clamp(subnet, |a|);
      TaggedEqual(Family(a), a[..bits / 8], b[..bits / 8], PartialByte(a, bits), PartialByte(b, bits));
      ClampedPrefix(subnet, a, b);
    }
  }

  lemma ClampedPrefix(subnet: nat, a: Ip, b: Ip)
    requires |a| == |b|
    ensures var bits := Clamp(subnet, |a|);
            (a[..bits / 8] == b[..bits / 8] && PartialByte(a, bits) == PartialByte(b, bits)) <==>
            (SamePrefix(subnet, a, b) || (subnet / 8 > |a| && a == b))
  {
    hide Mask, Masked;
    if subnet > |a| * 8 {
      assert a[..|a|] == a && b[..|b|] == b;
    } else if subnet / 8 < |a| {
      var mask := Mask(subnet % 8);
      var x, y := Masked(a[subnet / 8], mask), Masked(b[subnet / 8], mask);
      assert [x] == [y] <==> x == y;
    }
  }

  // ---------------------------------------------------------------- local networks

  predicate IsLoopback(ip: Ip) {
    var a := Canonical(ip);
    if |a| == 4 then a[0] == 127 else a == Zeros(15) + [1]
  }

  /** `IsLAN`: loopback, or in one of the private networks of its family. */
  predicate IsLan(ip: Ip) {
    var a := Canonical(ip);
    || IsLoopback(ip)
    || (if |a| == 4 then
          || SamePrefix(8, a, [0, 0, 0, 0]) || SamePrefix(8, a, [10, 0, 0, 0])
          || SamePrefix(12, a, [172, 16, 0, 0]) || SamePrefix(16, a, [192, 168, 0, 0])
        else
          SamePrefix(10, a, [0xFE, 0x80] + Zeros(14)) || SamePrefix(7, a, [0xFC] + Zeros(15)))
  }

  /** The local networks, by their numbers. */
  lemma LanNumbers(ip: Ip)
    ensures var a := Canonical(ip);
            IsLan(ip) <==>
              if |a| == 4 then
                || a[0] == 0 || a[0] == 10 || a[0] == 127
                || (a[0] == 172 && 16 <= a[1] < 32) || (a[0] == 192 && a[1] == 168)
              else
                || a == Zeros(15) + [1]
                || (|a| == 16 && ((a[0] == 0xFE && 0x80 <= a[1] < 0xC0) || a[0] == 0xFC || a[0] == 0xFD))
  {
    var a := Canonical(ip);
    if |a| == 4 {
      assert a[..1] == [a[0]] && a[..2] == [a[0], a[1]];
      assert Mask(4) == 0xF0;
    } else {
      assert |Zeros(15)| == 15;
    }
  }

  // ---------------------------------------------------------------- counters

  type Counter = map<Key, nat>

  function At(m: Counter, k: Key): nat { if k in m then m[k] else 0 }

  function Incremented(m: Counter, k: Key): Counter { m[k := At(m, k) + 1] }

  function Decremented(m: Counter, k: Key): Counter {
    if k !in m then m else if m[k] <= 1 then m - {k} else m[k := m[k] - 1]
  }

  /** No network is listed with a count of zero, or with more than `limit`. */
  ghost predicate Limited(m: Counter, limit: nat) {
    forall k :: k in m ==> 1 <= m[k] <= limit
  }

  lemma IncrementedAt(m: Counter, k: Key, limit: nat)
    requires Limited(m, limit)
    ensures forall j :: At(Incremented(m, k), j) == At(m, j) + if j == k then 1 else 0
    ensures At(m, k) < limit ==> Limited(Incremented(m, k), limit)
  {
  }

  lemma DecrementedAt(m: Counter, k: Key, limit: nat)
    requires Limited(m, limit)
    ensures forall j :: At(Decremented(m, k), j) == if j == k && At(m, j) > 0 then At(m, j) - 1 else At(m, j)
    ensures Limited(Decremented(m, k), limit)
  {
  }

  /** Taking back what was just added leaves no trace. */
  lemma AddThenRemove(m: Counter, k: Key, limit: nat)
    requires Limited(m, limit)
    ensures Decremented(Incremented(m, k), k) == m
  {
    if k in m {
      assert Incremented(m, k)[k] == m[k] + 1;
    }
  }

  class DistinctNetSet {
    const subnet: nat
    const limit: nat
    var members: Counter

    ghost predicate Valid()
      reads this
    {
      Limited(members, limit)
    }

    constructor (subnet: nat, limit: nat)
      ensures Valid() && members == map[] && this.subnet == subnet && this.limit == limit
    {
      this.subnet, this.limit := subnet, limit;
      members := map[];
    }

    method Key(ip: Ip) returns (k: Key)
      ensures k == KeyOf(subnet, ip)
    {
      hide Canonical, Mask, Masked;
      var typ := V6;
      var a := Canonical(ip);
      if |a| == 4 {
        typ := V4;
      }
      var bits := subnet;
      if bits > |a| * 8 {
        bits := |a| * 8;
      }
      var nb, mask := bits / 8, Mask(bits % 8);
      k := [typ] + a[..nb];
      if nb < |a| && mask != 0 {
        k := k + [Masked(a[nb], mask)];
      }
    }

    method Add(ip: Ip) returns (ok: bool)
      requires Valid()
      modifies this
      ensures Valid()
      ensures ok <==> At(old(members), KeyOf(subnet, ip)) < limit
      ensures members == if ok then Incremented(old(members), KeyOf(subnet, ip)) else old(members)
    {
      hide KeyOf;
      var key := Key(ip);
      var n := if key in members then members[key] else 0;
      ok := n < limit;
      if ok {
        IncrementedAt(members, key, limit);
        members := members[key := n + 1];
      }
    }

    method Remove(ip: Ip)
      requires Valid()
      modifies this
      ensures Valid()
      ensures members == Decremented(old(members), KeyOf(subnet, ip))
    {
      hide KeyOf;
      var key := Key(ip);
      DecrementedAt(members, key, limit);
      if key in members {
        if members[key] == 1 {
          members := members - {key};
        } else {
          members := members[key := members[key] - 1];
        }
      }
    }

    method Contains(ip: Ip) returns (found: bool)
      requires Valid()
      ensures found <==> At(members, KeyOf(subnet, ip)) > 0
    {
      hide KeyOf;
      var key := Key(ip);
      found := key in members;
    }
  }
}
