/**
 When the counters of the v4 table (`p2p/discover/table.go`) are exact, and not only high enough. A node
 that is entered while it is a replacement is charged a second time, and only one of the charges is ever
 given back, so that the address range stays counted for nothing.
 */
module TableCounts {
  import opened Collections
  import opened Bytes
  import opened Distance
  import opened NetSet
  import opened Table4

  /** Every counter of the bucket is the number of nodes it counts. */
  ghost predicate Tight(b: Bucket) {
    forall k :: Tally(b, OfNet(k)) == At(b.ips, k)
  }

  ghost predicate Exact(buckets: seq<Bucket>, ips: Counter) {
    && (forall i :: 0 <= i < |buckets| ==> Tight(buckets[i]))
    && (forall k :: At(ips, k) == Sum(buckets, k))
  }

  lemma ExactIsAccounted(buckets: seq<Bucket>, ips: Counter)
    requires Exact(buckets, ips)
    ensures Accounted(buckets, ips)
  {
    hide Tally, At;
    forall i | 0 <= i < |buckets| ensures Covered(buckets[i]) {
      assert Tight(buckets[i]);
    }
  }

  /** The counters stay exact when a bucket changes if that bucket's do and the table's keep the sum. */
  lemma ExactWith(buckets: seq<Bucket>, ips: Counter, i: nat, b: Bucket, ips': Counter)
    requires Exact(buckets, ips) && i < |buckets|
    ensures Exact(buckets[i := b], ips') <==>
              && Tight(b)
              && forall k :: At(ips', k) - At(ips, k) == At(b.ips, k) - At(buckets[i].ips, k)
  {
    hide Tight, At;
    forall k ensures Sum(buckets[i := b], k) == Sum(buckets, k) - At(buckets[i].ips, k) + At(b.ips, k) {
      SumUpdated(buckets, i, b, k);
    }
    var after := buckets[i := b];
    assert after[i] == b;
    if Tight(b) {
      forall j | 0 <= j < |after| ensures Tight(after[j]) {
        assert j != i ==> after[j] == buckets[j];
      }
    }
    forall k ensures At(ips', k) == Sum(after, k) <==> At(ips', k) - At(ips, k) == At(b.ips, k) - At(buckets[i].ips, k) {
      assert At(ips, k) == Sum(buckets, k);
    }
  }

  lemma TightAt(buckets: seq<Bucket>, ips: Counter, i: nat, k: Key)
    requires Exact(buckets, ips) && i < |buckets|
    ensures Tally(buckets[i], OfNet(k)) == At(buckets[i].ips, k) <= At(ips, k)
  {
    hide Tally, At;
    assert Tight(buckets[i]);
    SumUpdated(buckets, i, buckets[i], k);
  }

  // ---------------------------------------------------------------- giving an address back

  /** Nobody, or somebody who is not counted. */
  predicate Uncounted(n: Option<Node>) {
    n.None? || IsLan(n.value.ip)
  }

  /** Whether giving back `ip` is due to `gone` leaving: both are counted in one range, or neither is counted. */
  predicate RefundIsDue(ips: Counter, gone: Option<Node>, ip: Ip) {
    if IsLan(ip) || At(ips, Net(ip)) == 0 then Uncounted(gone) else !Uncounted(gone) && Net(gone.value.ip) == Net(ip)
  }

  lemma GoneAt(gone: Option<Node>, k: Key)
    ensures WeightOf(gone, OfNet(k)) == if !Uncounted(gone) && Net(gone.value.ip) == k then 1 else 0
  {
  }

  /** The bucket loses `gone`, and `ip` is given back. */
  lemma RefundExact(buckets: seq<Bucket>, ips: Counter, i: nat, b: Bucket, gone: Option<Node>, ip: Ip)
    requires Exact(buckets, ips) && i < |buckets|
    requires Limited(ips, TABLE_IP_LIMIT) && Limited(buckets[i].ips, BUCKET_IP_LIMIT)
    requires b.ips == Refund(buckets[i].ips, ip) && Swapped(buckets[i], b, gone, None)
    ensures Exact(buckets[i := b], Refund(ips, ip)) <==> RefundIsDue(ips, gone, ip)
  {
    hide Tally, Refund, IsLan, Net, Sum, Limited, At;
    var before := buckets[i];
    forall k ensures At(Refund(ips, ip), k) == At(ips, k) - if Charged(ip, k) && At(ips, k) > 0 then 1 else 0
             ensures At(b.ips, k) == At(before.ips, k) - if Charged(ip, k) && At(before.ips, k) > 0 then 1 else 0
             ensures Tally(b, OfNet(k)) + WeightOf(gone, OfNet(k)) == Tally(before, OfNet(k)) == At(before.ips, k) <= At(ips, k) {
      ChargedAt(ips, ip, TABLE_IP_LIMIT, k);
      ChargedAt(before.ips, ip, BUCKET_IP_LIMIT, k);
      TightAt(buckets, ips, i, k);
    }
    ExactWith(buckets, ips, i, b, Refund(ips, ip));
    GoneAt(gone, Net(ip));
    if gone.Some? {
      GoneAt(gone, Net(gone.value.ip));
    }
    if RefundIsDue(ips, gone, ip) {
      forall k ensures Tally(b, OfNet(k)) == At(b.ips, k) {
        GoneAt(gone, k);
      }
    } else if Tight(b) {
      assert Tally(b, OfNet(Net(ip))) == At(b.ips, Net(ip));
      if gone.Some? {
        assert Tally(b, OfNet(Net(gone.value.ip))) == At(b.ips, Net(gone.value.ip));
      }
    }
  }

  // ---------------------------------------------------------------- each change to the table

  /** A node is listed, charged to both counters, and one that held its place is gone, with no refund. */
  lemma ListExact(buckets: seq<Bucket>, ips: Counter, i: nat, b: Bucket, n: Node, gone: Option<Node>)
    requires Exact(buckets, ips) && i < |buckets|
    requires Limited(ips, TABLE_IP_LIMIT) && Limited(buckets[i].ips, BUCKET_IP_LIMIT)
    requires b.ips == Charge(buckets[i].ips, n.ip) && Swapped(buckets[i], b, gone, Some(n))
    ensures Exact(buckets[i := b], Charge(ips, n.ip)) <==> Uncounted(gone)
  {
    hide Tally, Charge, IsLan, Net, Sum, Limited, At;
    var before := buckets[i];
    forall k ensures At(Charge(ips, n.ip), k) - At(ips, k) == At(b.ips, k) - At(before.ips, k) == Weight(n, OfNet(k))
             ensures Tally(b, OfNet(k)) + WeightOf(gone, OfNet(k)) == Tally(before, OfNet(k)) + Weight(n, OfNet(k))
             ensures Tally(before, OfNet(k)) == At(before.ips, k) {
      ChargedAt(ips, n.ip, TABLE_IP_LIMIT, k);
      ChargedAt(before.ips, n.ip, BUCKET_IP_LIMIT, k);
      TightAt(buckets, ips, i, k);
    }
    ExactWith(buckets, ips, i, b, Charge(ips, n.ip));
    if Uncounted(gone) {
      forall k ensures Tally(b, OfNet(k)) == At(b.ips, k) {
        GoneAt(gone, k);
      }
    } else {
      GoneAt(gone, Net(gone.value.ip));
      assert Tally(b, OfNet(Net(gone.value.ip))) != At(b.ips, Net(gone.value.ip));
    }
  }

  /** `bumpOrAdd` of a new entry: a replacement that becomes an entry is charged twice. */
  lemma EnteredExactly(ks: Keyspace, buckets: seq<Bucket>, ips: Counter, i: Index, n: Node)
    requires Exact(buckets, ips) && Structured(ks, buckets) && Limited(ips, TABLE_IP_LIMIT)
    ensures Exact(buckets[i := EnteredBucket(buckets[i], n)], Charge(ips, n.ip)) <==> Uncounted(Held(buckets[i].replacements, n.id))
  {
    hide Exact, Limited, Tally, IsLan, Charge, Held, Dropped;
    assert BucketOk(ks, i, buckets[i]);
    EnterSwaps(buckets[i], n);
    ListExact(buckets, ips, i, EnteredBucket(buckets[i], n), n, Held(buckets[i].replacements, n.id));
  }

  /** `bump`: the counters stay, so the address must count the same. */
  lemma BumpedExactly(buckets: seq<Bucket>, ips: Counter, i: nat, n: Node)
    requires Exact(buckets, ips) && i < |buckets| && IndexOf(buckets[i].entries, n.id) < |buckets[i].entries|
    ensures var e := Held(buckets[i].entries, n.id);
            Exact(buckets[i := BumpedBucket(buckets[i], n)], ips) <==>
              (Uncounted(e) && IsLan(n.ip)) || (!Uncounted(e) && !IsLan(n.ip) && Net(e.value.ip) == Net(n.ip))
  {
    hide Tally, IsLan, Net, Sum, At, BumpedBucket, Held;
    var b, after, e := buckets[i], BumpedBucket(buckets[i], n), Held(buckets[i].entries, n.id);
    BumpSwaps(b, n);
    BumpKeepsCounters(b, n);
    forall k ensures Tally(after, OfNet(k)) + WeightOf(e, OfNet(k)) == Tally(b, OfNet(k)) + Weight(n, OfNet(k))
             ensures Tally(b, OfNet(k)) == At(b.ips, k) {
      TightAt(buckets, ips, i, k);
    }
    ExactWith(buckets, ips, i, after, ips);
    if Tight(after) {
      assert Tally(after, OfNet(Net(n.ip))) == At(after.ips, Net(n.ip));
      GoneAt(e, Net(n.ip));
      if e.Some? {
        assert Tally(after, OfNet(Net(e.value.ip))) == At(after.ips, Net(e.value.ip));
        GoneAt(e, Net(e.value.ip));
      }
    } else {
      forall k ensures WeightOf(e, OfNet(k)) == if !Uncounted(e) && Net(e.value.ip) == k then 1 else 0 {
        GoneAt(e, k);
      }
    }
  }

  /** `delete`: exact if and only if what leaves the entries is what is given back. */
  lemma DeletedExactly(ks: Keyspace, buckets: seq<Bucket>, ips: Counter, i: Index, n: Node)
    requires Exact(buckets, ips) && Structured(ks, buckets) && Limited(ips, TABLE_IP_LIMIT)
    ensures var s := Removed(State(DeletedBucket(buckets[i], n.id), ips), n.ip);
            Exact(buckets[i := s.bucket], s.ips) <==> RefundIsDue(ips, Held(buckets[i].entries, n.id), n.ip)
  {
    hide Exact, Limited, Count, IsLan, Net, Refund, Held, Dropped, At;
    assert BucketOk(ks, i, buckets[i]);
    DeleteSwaps(buckets[i], n.id);
    var s := Removed(State(DeletedBucket(buckets[i], n.id), ips), n.ip);
    RecountedSwaps(buckets[i], DeletedBucket(buckets[i], n.id), s.bucket, Held(buckets[i].entries, n.id), None);
    RefundExact(buckets, ips, i, s.bucket, Held(buckets[i].entries, n.id), n.ip);
  }

  lemma RecountedSwaps(before: Bucket, after: Bucket, recounted: Bucket, gone: Option<Node>, come: Option<Node>)
    requires Swapped(before, after, gone, come) && recounted.entries == after.entries && recounted.replacements == after.replacements
    ensures Swapped(before, recounted, gone, come)
  {
    hide Tally;
    forall t ensures Tally(recounted, t) == Tally(after, t) {
      SameTally(after, recounted, t);
    }
  }

  /** `replace`: likewise for the last entry, whatever replacement takes its place. */
  lemma PromotedExactly(ks: Keyspace, buckets: seq<Bucket>, ips: Counter, i: Index, last: Node, pick: nat)
    requires Exact(buckets, ips) && Structured(ks, buckets) && Limited(ips, TABLE_IP_LIMIT)
    requires buckets[i].entries != [] && pick < |buckets[i].replacements|
    ensures var s := Removed(State(PromotedBucket(buckets[i], pick), ips), last.ip);
            Exact(buckets[i := s.bucket], s.ips) <==> RefundIsDue(ips, Some(buckets[i].entries[|buckets[i].entries| - 1]), last.ip)
  {
    hide Exact, Limited, Count, IsLan, Net, Refund, Dropped, At;
    assert BucketOk(ks, i, buckets[i]);
    PromoteOk(ks, i, buckets[i], pick);
    var s := Removed(State(PromotedBucket(buckets[i], pick), ips), last.ip);
    var e := Some(buckets[i].entries[|buckets[i].entries| - 1]);
    RecountedSwaps(buckets[i], PromotedBucket(buckets[i], pick), s.bucket, e, None);
    RefundExact(buckets, ips, i, s.bucket, e, last.ip);
  }

  /** `addReplacement` always keeps the counters exact: what is pushed out is what is given back. */
  lemma ReplacementExactly(ks: Keyspace, buckets: seq<Bucket>, ips: Counter, i: Index, n: Node)
    requires Exact(buckets, ips) && Structured(ks, buckets) && Limited(ips, TABLE_IP_LIMIT)
    ensures var s := ReplacementAdded(State(buckets[i], ips), n); Exact(buckets[i := s.bucket], s.ips)
  {
    hide Exact, Limited, Count, IsLan, Net, Refund, Charge, Dropped, At, PushedFront, PushedOut;
    var b := buckets[i];
    assert BucketOk(ks, i, b);
    if IndexOf(b.replacements, n.id) < |b.replacements| || !Room(ips, b, n.ip) {
      assert buckets[i := b] == buckets;
    } else {
      PushedExactly(buckets, ips, i, n);
    }
  }

  lemma PushedExactly(buckets: seq<Bucket>, ips: Counter, i: nat, n: Node)
    requires Exact(buckets, ips) && i < |buckets| && Limited(ips, TABLE_IP_LIMIT) && Limited(buckets[i].ips, BUCKET_IP_LIMIT)
    requires Room(ips, buckets[i], n.ip)
    ensures var pushed := State(ReplacementBucket(buckets[i], n), Charge(ips, n.ip));
            var out := PushedOut(buckets[i].replacements, MAX_REPLACEMENTS);
            var s := if out.None? then pushed else Removed(pushed, out.value.ip);
            Exact(buckets[i := s.bucket], s.ips)
  {
    hide Tally, Refund, Charge, IsLan, Net, Sum, Limited, At, PushedFront, PushedOut, Room;
    var b, after := buckets[i], ReplacementBucket(buckets[i], n);
    var out := PushedOut(b.replacements, MAX_REPLACEMENTS);
    var pushed := State(after, Charge(ips, n.ip));
    var s := if out.None? then pushed else Removed(pushed, out.value.ip);
    ReplacementSwaps(b, n);
    LimitedAfterCharge(ips, b, n.ip);
    forall k ensures Tally(s.bucket, OfNet(k)) == At(s.bucket.ips, k) && At(s.ips, k) - At(ips, k) == At(s.bucket.ips, k) - At(b.ips, k) {
      TightAt(buckets, ips, i, k);
      ChargedAt(ips, n.ip, TABLE_IP_LIMIT, k);
      ChargedAt(b.ips, n.ip, BUCKET_IP_LIMIT, k);
      assert Tally(after, OfNet(k)) + WeightOf(out, OfNet(k)) == Tally(b, OfNet(k)) + Weight(n, OfNet(k));
      SameTally(after, s.bucket, OfNet(k));
      if out.Some? {
        ChargedAt(Charge(ips, n.ip), out.value.ip, TABLE_IP_LIMIT, k);
        ChargedAt(Charge(b.ips, n.ip), out.value.ip, BUCKET_IP_LIMIT, k);
      }
    }
    ExactWith(buckets, ips, i, s.bucket, s.ips);
  }

  /** Whether `add` keeps the counters exact. */
  predicate AddIsExact(s: State, n: Node) {
    var e := Held(s.bucket.entries, n.id);
    if e.Some? then (IsLan(e.value.ip) && IsLan(n.ip)) || (!IsLan(e.value.ip) && !IsLan(n.ip) && Net(e.value.ip) == Net(n.ip))
    else Enters(s, n) ==> Uncounted(Held(s.bucket.replacements, n.id))
  }

  /** `add`, in all its cases: a bump must not change the range, and a new entry must not be a counted replacement. */
  lemma AddedExactly(ks: Keyspace, buckets: seq<Bucket>, ips: Counter, i: Index, n: Node)
    requires Exact(buckets, ips) && Structured(ks, buckets) && Limited(ips, TABLE_IP_LIMIT)
    ensures var s := State(buckets[i], ips);
            var t := if Enters(s, n) then BumpedOrAdded(s, n) else ReplacementAdded(s, n);
            Exact(buckets[i := t.bucket], t.ips) <==> AddIsExact(s, n)
  {
    hide Exact, BucketOk, Limited, IsLan, Net, Charge, Dropped, BumpedBucket, EnteredBucket, ReplacementAdded, Room;
    var s := State(buckets[i], ips);
    if IndexOf(buckets[i].entries, n.id) < |buckets[i].entries| {
      BumpedExactly(buckets, ips, i, n);
    } else if Enters(s, n) {
      EnteredExactly(ks, buckets, ips, i, n);
    } else {
      ReplacementExactly(ks, buckets, ips, i, n);
    }
  }

  /** Deleting a node that is not an entry breaks exact counters exactly if the table counts its range at all, and then leaves a node uncovered. */
  lemma AbsentDelete(ks: Keyspace, buckets: seq<Bucket>, ips: Counter, i: Index, n: Node)
    requires Exact(buckets, ips) && Structured(ks, buckets) && Limited(ips, TABLE_IP_LIMIT)
    requires Held(buckets[i].entries, n.id).None?
    ensures var s := Removed(State(DeletedBucket(buckets[i], n.id), ips), n.ip);
            && (Exact(buckets[i := s.bucket], s.ips) <==> IsLan(n.ip) || At(ips, Net(n.ip)) == 0)
            && (Accounted(buckets[i := s.bucket], s.ips) <==> IsLan(n.ip) || At(ips, Net(n.ip)) == 0)
  {
    hide Exact, Accounted, BucketOk, Limited, IsLan, Net, Refund, Tally, At;
    DeletedExactly(ks, buckets, ips, i, n);
    ExactIsAccounted(buckets, ips);
    DeleteAccounts(ks, buckets, ips, i, n);
    TightAt(buckets, ips, i, Net(n.ip));
    assert DeletedBucket(buckets[i], n.id) == buckets[i];
  }

  // ---------------------------------------------------------------- runs of the table

  const HOST: Ip := [8, 8, 8, 8]
  const NEIGHBOUR: Ip := [8, 8, 8, 4]
  const ELSEWHERE: Ip := [9, 9, 9, 9]
  const LAN: Ip := [10, 0, 0, 1]

  lemma Addresses()
    ensures !IsLan(HOST) && !IsLan(NEIGHBOUR) && !IsLan(ELSEWHERE) && IsLan(LAN)
    ensures Net(NEIGHBOUR) == Net(HOST) && Net(ELSEWHERE) != Net(HOST)
  {
    var a, b, c := HOST, NEIGHBOUR, ELSEWHERE;
    SharedCounterIsSameNet(SUBNET, a, b);
    SharedCounterIsSameNet(SUBNET, a, c);
    assert a[..3] == b[..3] == [8, 8, 8];
    assert a[..3][0] != c[..3][0];
  }

  /** A key space in which all nodes are at one place. */
  function OnePlace(): (ks: Keyspace)
    ensures ks.self == 0 && forall id :: ks.Place(id) == 0
  {
    var h: Hash := seq(32, i => 0);
    LogDistanceSymmetric(h, h);
    Keyspace(0, _ => h)
  }

  /** One node in an empty table. */
  method OneNode(ip: Ip) returns (t: Table)
    requires !IsLan(ip)
    ensures fresh(t) && t.Valid() && Accounted(t.buckets, t.ips) && (forall id :: t.ks.Place(id) == 0)
    ensures t.buckets[0] == Bucket([Node(1, ip)], [], map[Net(ip) := 1]) && t.ips == map[Net(ip) := 1]
  {
    hide IsLan, Net, BucketOk, Limited, Accounted, Keyspace.Place, OnePlace, Incremented, At;
    t := new Table(OnePlace());
    EmptyAddress(Net(ip));
    assert t.buckets[0] in t.buckets;
    t.Add(Node(1, ip));
  }

  lemma EmptyAddress(k: Key)
    ensures At(map[], k) == 0 && Incremented(map[], k) == map[k := 1]
  {
  }

  lemma TwoOnOneCharge(n: Node, m: Node)
    requires !IsLan(n.ip) && !IsLan(m.ip)
    ensures Tally(Bucket([n], [], map[]), OfNet(Net(n.ip))) == 1
    ensures Tally(Bucket([n], [], map[]), OfNet(Net(m.ip))) == if Net(n.ip) == Net(m.ip) then 1 else 0
  {
    hide IsLan, Net;
    CountOne(n, OfNet(Net(n.ip)));
    CountOne(n, OfNet(Net(m.ip)));
  }

  /** A node that is not listed is deleted, and the one of its range that is stays without cover. */
  method DeleteUncovers() returns (t: Table)
    ensures t.Valid() && !Accounted(t.buckets, t.ips)
  {
    hide IsLan, Net, BucketOk, Limited, Accounted, Keyspace.Place, HOST, NEIGHBOUR, ELSEWHERE, LAN, Tally, Refund, At;
    Addresses();
    t := OneNode(HOST);
    OneCounted(Net(HOST));
    TwoOnOneCharge(Node(1, HOST), Node(2, NEIGHBOUR));
    SameTally(Bucket([Node(1, HOST)], [], map[]), t.buckets[0], OfNet(Net(NEIGHBOUR)));
    assert DeletedBucket(t.buckets[0], 2) == t.buckets[0];
    t.Delete(Node(2, NEIGHBOUR));
  }

  lemma OneCounted(k: Key)
    ensures At(map[k := 1], k) == 1 && forall j :: j != k ==> At(map[k := 1], j) == 0
  {
  }

  /** A node comes back under another address, which nothing is charged for. */
  method BumpUncovers() returns (t: Table)
    ensures t.Valid() && !Accounted(t.buckets, t.ips)
  {
    hide IsLan, Net, BucketOk, Limited, Accounted, Keyspace.Place, HOST, NEIGHBOUR, ELSEWHERE, LAN, Tally, At, BumpedBucket;
    Addresses();
    t := OneNode(HOST);
    OneCounted(Net(HOST));
    TwoOnOneCharge(Node(1, HOST), Node(1, ELSEWHERE));
    SameTally(Bucket([Node(1, HOST)], [], map[]), t.buckets[0], OfNet(Net(ELSEWHERE)));
    assert IndexOf(t.buckets[0].entries, 1) == 0;
    t.Add(Node(1, ELSEWHERE));
  }

  /** Sixteen nodes of the local network, none of them counted. */
  method FullOfLan() returns (t: Table)
    ensures fresh(t) && t.Valid() && (forall id :: t.ks.Place(id) == 0) && t.ips == map[]
    ensures |t.buckets[0].entries| == BUCKET_SIZE && t.buckets[0].replacements == [] && t.buckets[0].ips == map[]
    ensures forall j :: 0 <= j < BUCKET_SIZE ==> t.buckets[0].entries[j] == Node(BUCKET_SIZE - j, LAN)
    ensures forall i :: 0 < i < N_BUCKETS ==> t.buckets[i] == Bucket([], [], map[])
  {
    hide IsLan, Net, BucketOk, Limited, Accounted, Keyspace.Place, OnePlace, HOST, NEIGHBOUR, ELSEWHERE, LAN, AddHasCover;
    Addresses();
    t := new Table(OnePlace());
    assert forall i :: 0 <= i < N_BUCKETS ==> t.buckets[i] in t.buckets;
    var n := 1;
    while n <= BUCKET_SIZE
      invariant 1 <= n <= BUCKET_SIZE + 1 && fresh(t) && t.Valid() && (forall id :: t.ks.Place(id) == 0) && t.ips == map[]
      invariant |t.buckets[0].entries| == n - 1 && t.buckets[0].replacements == [] && t.buckets[0].ips == map[]
      invariant forall j :: 0 <= j < n - 1 ==> t.buckets[0].entries[j] == Node(n - 1 - j, LAN)
      invariant forall i :: 0 < i < N_BUCKETS ==> t.buckets[i] == Bucket([], [], map[])
    {
      t.Add(Node(n, LAN));
      n := n + 1;
    }
  }

  /** Nobody in the bucket is subject to the limits. */
  ghost predicate OnlyLan(b: Bucket) {
    b.replacements == [] && forall j :: 0 <= j < |b.entries| ==> IsLan(b.entries[j].ip)
  }

  lemma Counters(k: Key)
    ensures At(map[], k) == 0 && At(map[k := 1], k) == 1 && At(map[k := 2], k) == 2
    ensures Incremented(map[], k) == map[k := 1] && Incremented(map[k := 1], k) == map[k := 2]
    ensures Decremented(map[k := 2], k) == map[k := 1]
  {
    assert map[k := 1][k := 2] == map[k := 2];
    assert map[k := 2][k := 1] == map[k := 1];
  }

  /** The last of a full bucket goes, and a replacement is entered in its stead: it is charged once more. */
  method ReplaceByAdding(t: Table, x: Node)
    requires t.Valid() && (forall id :: t.ks.Place(id) == 0) && !IsLan(x.ip) && IsLan(LAN) && x.id == 17
    requires |t.buckets[0].entries| == BUCKET_SIZE && t.buckets[0].replacements == [x]
    requires forall j :: 0 <= j < BUCKET_SIZE ==> t.buckets[0].entries[j] == Node(BUCKET_SIZE - j, LAN)
    requires t.ips == map[Net(x.ip) := 1] && t.buckets[0].ips == map[Net(x.ip) := 1]
    modifies t
    ensures t.Valid() && t.buckets == old(t.buckets)[0 := Bucket([x] + old(t.buckets[0].entries)[..15], [], map[Net(x.ip) := 2])]
    ensures t.ips == map[Net(x.ip) := 2]
  {
    hide IsLan, Net, BucketOk, Limited, Accounted, Keyspace.Place, LAN, AddHasCover, DeleteHasCover, At, Incremented, Decremented, IndexOf;
    var k := Net(x.ip);
    Counters(k);
    ghost var full := t.buckets[0].entries;
    LastIs(full, 1, 15);
    t.Delete(Node(1, LAN));
    assert t.buckets[0] == Bucket(full[..15], [x], map[k := 1]);
    LastIs([x], 17, 0);
    NotIn(full[..15], 17);
    t.Add(x);
  }

  lemma LastIs(list: seq<Node>, id: NodeId, i: nat)
    requires |list| == i + 1 && list[i].id == id && forall j :: 0 <= j < i ==> list[j].id != id
    ensures IndexOf(list, id) == i && Dropped(list, id) == list[..i]
  {
  }

  lemma NotIn(list: seq<Node>, id: NodeId)
    requires forall j :: 0 <= j < |list| ==> list[j].id != id
    ensures IndexOf(list, id) == |list|
  {
  }

  /**
   A replacement is entered when there is room, and then leaves: no node of its range is left in the table,
   but the range stays counted.
   */
  method PhantomCharge() returns (t: Table)
    ensures t.Valid() && (forall i :: 0 <= i < N_BUCKETS ==> OnlyLan(t.buckets[i]))
    ensures At(t.ips, Net(HOST)) == 1 && At(t.buckets[0].ips, Net(HOST)) == 1
  {
    hide IsLan, Net, BucketOk, Limited, Accounted, Keyspace.Place, HOST, NEIGHBOUR, ELSEWHERE, LAN, AddHasCover, DeleteHasCover,
      At, Incremented, Decremented, IndexOf;
    Addresses();
    var k := Net(HOST);
    Counters(k);
    t := FullOfLan();
    var x := Node(17, HOST);
    ghost var full := t.buckets[0].entries;
    NotIn(full, 17);
    NotIn([], 17);
    t.Add(x);
    assert t.buckets[0] == Bucket(full, [x], map[k := 1]);
    ReplaceByAdding(t, x);
    FirstIs([x] + full[..15], 17);
    t.Delete(x);
    assert t.buckets[0] == Bucket(full[..15], [], map[k := 1]);
  }

  lemma FirstIs(list: seq<Node>, id: NodeId)
    requires list != [] && list[0].id == id
    ensures Dropped(list, id) == list[1..]
  {
  }
}
