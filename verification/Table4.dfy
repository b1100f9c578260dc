/**
 The discovery v4 node table (`p2p/discover/table.go`): seventeen buckets by distance from the local
 node, each with live entries, replacements, and counters of how many of its nodes come from one
 IP range. The counters are taken when a node is listed and given back when it is dropped, by the
 address of the node that the caller holds.
 */
module Table4 {
  import opened Collections
  import opened Distance
  import opened NetSet

  const BUCKET_SIZE := 16
  const MAX_REPLACEMENTS := 10
  const N_BUCKETS := 17
  const BUCKET_MIN_DISTANCE := 239
  const BUCKET_IP_LIMIT := 2
  const TABLE_IP_LIMIT := 10
  const SUBNET := 24

  type NodeId = nat
  type Index = i: nat | i < N_BUCKETS

  datatype Node = Node(id: NodeId, ip: Ip)
  datatype Bucket = Bucket(entries: seq<Node>, replacements: seq<Node>, ips: Counter)

  /** The local node, and the hash that places a node in the key space. */
  datatype Keyspace = Keyspace(self: NodeId, sha: NodeId -> Hash) {
    function Place(id: NodeId): Index {
      var d := LogDistance(sha(self), sha(id));
      if d <= BUCKET_MIN_DISTANCE then 0 else d - BUCKET_MIN_DISTANCE - 1
    }
  }

  // ---------------------------------------------------------------- counting nodes

  /** What nodes are counted by: their ID, or the range their address is in. */
  datatype Test = OfId(id: NodeId) | OfNet(net: Key)

  function Net(ip: Ip): Key { KeyOf(SUBNET, ip) }

  /** Whether the address is subject to the limits, and counted under `k`. */
  predicate Charged(ip: Ip, k: Key) { !IsLan(ip) && Net(ip) == k }

  function Weight(n: Node, t: Test): nat {
    match t
    case OfId(id) => if n.id == id then 1 else 0
    case OfNet(k) => if Charged(n.ip, k) then 1 else 0
  }

  function Count(s: seq<Node>, t: Test): nat {
    if s == [] then 0 else Weight(s[0], t) + Count(s[1..], t)
  }

  lemma {:induction false} CountConcat(a: seq<Node>, b: seq<Node>, t: Test)
    ensures Count(a + b, t) == Count(a, t) + Count(b, t)
  {
    hide Weight;
    if a == [] {
      assert a + b == b;
    } else {
      CountConcat(a[1..], b, t);
      assert (a + b)[1..] == a[1..] + b && (a + b)[0] == a[0];
    }
  }

  lemma CountOne(n: Node, t: Test)
    ensures Count([n], t) == Weight(n, t)
  {
    assert [n][1..] == [];
  }

  lemma CountSplit(s: seq<Node>, i: nat, t: Test)
    requires i < |s|
    ensures Count(s, t) == Count(s[..i], t) + Weight(s[i], t) + Count(s[i + 1..], t)
  {
    assert s == s[..i] + [s[i]] + s[i + 1..];
    CountConcat(s[..i] + [s[i]], s[i + 1..], t);
    CountConcat(s[..i], [s[i]], t);
    CountOne(s[i], t);
  }

  lemma {:induction false} CountedIsListed(s: seq<Node>, id: NodeId)
    ensures Count(s, OfId(id)) > 0 <==> exists i :: 0 <= i < |s| && s[i].id == id
  {
    if s != [] {
      CountedIsListed(s[1..], id);
      assert forall i :: 1 <= i < |s| ==> s[i] == s[1..][i - 1];
      if Count(s[1..], OfId(id)) > 0 {
        var i :| 0 <= i < |s[1..]| && s[1..][i].id == id;
        assert s[i + 1].id == id;
      }
    }
  }

  function Tally(b: Bucket, t: Test): nat {
    Count(b.entries, t) + Count(b.replacements, t)
  }

  function Sum(buckets: seq<Bucket>, k: Key): nat {
    if buckets == [] then 0 else At(buckets[0].ips, k) + Sum(buckets[1..], k)
  }

  lemma {:induction false} SumUpdated(buckets: seq<Bucket>, i: nat, b: Bucket, k: Key)
    requires i < |buckets|
    ensures Sum(buckets[i := b], k) == Sum(buckets, k) - At(buckets[i].ips, k) + At(b.ips, k)
    ensures Sum(buckets, k) >= At(buckets[i].ips, k)
  {
    if i > 0 {
      SumUpdated(buckets[1..], i - 1, b, k);
      assert buckets[i := b][1..] == buckets[1..][i - 1 := b];
    } else {
      assert buckets[i := b][1..] == buckets[1..];
    }
  }

  // ---------------------------------------------------------------- invariants

  /** Bucket `i` is within its sizes, lists no ID twice in either list or in both, and only its own. */
  ghost predicate BucketOk(ks: Keyspace, i: nat, b: Bucket) {
    && |b.entries| <= BUCKET_SIZE && |b.replacements| <= MAX_REPLACEMENTS
    && Limited(b.ips, BUCKET_IP_LIMIT)
    && forall id :: Tally(b, OfId(id)) <= 1 && (Tally(b, OfId(id)) > 0 ==> ks.Place(id) == i)
  }

  ghost predicate Structured(ks: Keyspace, buckets: seq<Bucket>) {
    && |buckets| == N_BUCKETS
    && forall i :: 0 <= i < N_BUCKETS ==> BucketOk(ks, i, buckets[i])
  }

  /** No counter of the bucket is below the number of nodes it counts. */
  ghost predicate Covered(b: Bucket) {
    forall k :: Tally(b, OfNet(k)) <= At(b.ips, k)
  }

  ghost predicate Accounted(buckets: seq<Bucket>, ips: Counter) {
    && (forall i :: 0 <= i < |buckets| ==> Covered(buckets[i]))
    && (forall k :: At(ips, k) == Sum(buckets, k))
  }

  /** No range has more than two nodes in a bucket. */
  lemma BucketRange(ks: Keyspace, buckets: seq<Bucket>, ips: Counter, i: Index, k: Key)
    requires Structured(ks, buckets) && Accounted(buckets, ips)
    ensures Tally(buckets[i], OfNet(k)) <= At(buckets[i].ips, k) <= BUCKET_IP_LIMIT
  {
    assert BucketOk(ks, i, buckets[i]) && Covered(buckets[i]);
  }

  function TotalTally(buckets: seq<Bucket>, k: Key): nat {
    if buckets == [] then 0 else Tally(buckets[0], OfNet(k)) + TotalTally(buckets[1..], k)
  }

  lemma {:induction false} TotalCovered(buckets: seq<Bucket>, k: Key)
    requires forall i :: 0 <= i < |buckets| ==> Covered(buckets[i])
    ensures TotalTally(buckets, k) <= Sum(buckets, k)
  {
    if buckets != [] {
      assert Covered(buckets[0]);
      TotalCovered(buckets[1..], k);
    }
  }

  /** No range has more than ten nodes in the table. */
  lemma TableRange(buckets: seq<Bucket>, ips: Counter, k: Key)
    requires Accounted(buckets, ips) && Limited(ips, TABLE_IP_LIMIT)
    ensures TotalTally(buckets, k) <= At(ips, k) <= TABLE_IP_LIMIT
  {
    TotalCovered(buckets, k);
  }

  /** No ID is listed twice in the table, whatever lists its two places are in. */
  lemma ListedOnce(ks: Keyspace, buckets: seq<Bucket>, i: Index, j: Index, id: NodeId)
    requires Structured(ks, buckets)
    requires Tally(buckets[i], OfId(id)) > 0 && Tally(buckets[j], OfId(id)) > 0
    ensures i == j == ks.Place(id) && Tally(buckets[i], OfId(id)) == 1
  {
    assert BucketOk(ks, i, buckets[i]) && BucketOk(ks, j, buckets[j]);
  }

  // ---------------------------------------------------------------- changes to one bucket

  function WeightOf(n: Option<Node>, t: Test): nat {
    match n case None => 0 case Some(m) => Weight(m, t)
  }

  /** The bucket lists what it listed before, but for one node more and one node less. */
  ghost predicate Swapped(before: Bucket, after: Bucket, gone: Option<Node>, come: Option<Node>) {
    forall t :: Tally(after, t) + WeightOf(gone, t) == Tally(before, t) + WeightOf(come, t)
  }

  lemma SwapOk(ks: Keyspace, i: nat, before: Bucket, after: Bucket, gone: Option<Node>, come: Option<Node>)
    requires BucketOk(ks, i, before) && Swapped(before, after, gone, come)
    requires |after.entries| <= BUCKET_SIZE && |after.replacements| <= MAX_REPLACEMENTS
    requires Limited(after.ips, BUCKET_IP_LIMIT)
    requires come.Some? ==> ks.Place(come.value.id) == i
    requires come.Some? ==> Tally(before, OfId(come.value.id)) == WeightOf(gone, OfId(come.value.id))
    ensures BucketOk(ks, i, after)
  {
    hide Tally, Keyspace.Place;
    forall id ensures Tally(after, OfId(id)) <= 1 && (Tally(after, OfId(id)) > 0 ==> ks.Place(id) == i) {
      assert Tally(after, OfId(id)) + WeightOf(gone, OfId(id)) == Tally(before, OfId(id)) + WeightOf(come, OfId(id));
      assert Tally(before, OfId(id)) <= 1;
    }
  }

  lemma StructuredWith(ks: Keyspace, buckets: seq<Bucket>, i: nat, b: Bucket)
    requires Structured(ks, buckets) && i < N_BUCKETS && BucketOk(ks, i, b)
    ensures Structured(ks, buckets[i := b])
  {
    hide BucketOk;
  }

  /** The counters stay right when a bucket changes if that bucket's do and the table's keep the sum. */
  lemma AccountedWith(buckets: seq<Bucket>, ips: Counter, i: nat, b: Bucket, ips': Counter)
    requires Accounted(buckets, ips) && i < |buckets|
    ensures Accounted(buckets[i := b], ips') <==>
              && Covered(b)
              && forall k :: At(ips', k) - At(ips, k) == At(b.ips, k) - At(buckets[i].ips, k)
  {
    hide Covered, At;
    forall k ensures Sum(buckets[i := b], k) == Sum(buckets, k) - At(buckets[i].ips, k) + At(b.ips, k) {
      SumUpdated(buckets, i, b, k);
    }
    var after := buckets[i := b];
    assert after[i] == b;
    if Covered(b) {
      forall j | 0 <= j < |after| ensures Covered(after[j]) {
        assert j != i ==> after[j] == buckets[j];
      }
    }
    forall k ensures At(ips', k) == Sum(after, k) <==> At(ips', k) - At(ips, k) == At(b.ips, k) - At(buckets[i].ips, k) {
      assert At(ips, k) == Sum(buckets, k);
    }
  }

  // ---------------------------------------------------------------- changes to a list

  function IndexOf(list: seq<Node>, id: NodeId): (i: nat)
    ensures i <= |list|
    ensures i < |list| ==> list[i].id == id
    ensures forall j :: 0 <= j < i ==> list[j].id != id
  {
    if list == [] || list[0].id == id then 0 else 1 + IndexOf(list[1..], id)
  }

  /** The list without its node of this ID, if it has one. */
  function Dropped(list: seq<Node>, id: NodeId): seq<Node> {
    var i := IndexOf(list, id);
    if i < |list| then Without(list, i) else list
  }

  /** The node of this ID that the list holds. */
  function Held(list: seq<Node>, id: NodeId): Option<Node> {
    var i := IndexOf(list, id);
    if i < |list| then Some(list[i]) else None
  }

  function PushedFront(list: seq<Node>, n: Node, max: nat): seq<Node>
    requires max > 0
  {
    [n] + if |list| < max then list else list[..|list| - 1]
  }

  function PushedOut(list: seq<Node>, max: nat): Option<Node>
    requires max > 0
  {
    if |list| < max then None else Some(list[|list| - 1])
  }

  lemma {:induction false} CountAbsent(list: seq<Node>, id: NodeId)
    ensures Count(list, OfId(id)) == 0 <==> IndexOf(list, id) == |list|
  {
    CountedIsListed(list, id);
  }

  lemma CountWithout(list: seq<Node>, i: nat, t: Test)
    requires i < |list|
    ensures Count(Without(list, i), t) == Count(list, t) - Weight(list[i], t)
  {
    CountSplit(list, i, t);
    CountConcat(list[..i], list[i + 1..], t);
  }

  lemma CountDropped(list: seq<Node>, id: NodeId, t: Test)
    ensures Count(Dropped(list, id), t) + WeightOf(Held(list, id), t) == Count(list, t)
  {
    hide Count, Without, IndexOf;
    if IndexOf(list, id) < |list| {
      CountWithout(list, IndexOf(list, id), t);
    }
  }

  lemma CountFront(list: seq<Node>, n: Node, t: Test)
    ensures Count([n] + list, t) == Weight(n, t) + Count(list, t)
  {
    CountConcat([n], list, t);
    CountOne(n, t);
  }

  lemma CountPushed(list: seq<Node>, n: Node, max: nat, t: Test)
    requires max > 0
    ensures Count(PushedFront(list, n, max), t) + WeightOf(PushedOut(list, max), t) == Count(list, t) + Weight(n, t)
  {
    hide Count;
    if |list| < max {
      CountFront(list, n, t);
    } else {
      var last := |list| - 1;
      CountFront(list[..last], n, t);
      CountWithout(list, last, t);
      assert Without(list, last) == list[..last];
    }
  }

  // ---------------------------------------------------------------- changes to a bucket

  function Charge(m: Counter, ip: Ip): Counter { if IsLan(ip) then m else Incremented(m, Net(ip)) }

  function Refund(m: Counter, ip: Ip): Counter { if IsLan(ip) then m else Decremented(m, Net(ip)) }

  /** Whether both limits leave room for the address. */
  predicate Room(ips: Counter, b: Bucket, ip: Ip) {
    IsLan(ip) || (At(ips, Net(ip)) < TABLE_IP_LIMIT && At(b.ips, Net(ip)) < BUCKET_IP_LIMIT)
  }

  function BumpedBucket(b: Bucket, n: Node): Bucket
    requires IndexOf(b.entries, n.id) < |b.entries|
  {
    b.(entries := [n] + Without(b.entries, IndexOf(b.entries, n.id)))
  }

  function EnteredBucket(b: Bucket, n: Node): Bucket {
    Bucket([n] + b.entries, Dropped(b.replacements, n.id), Charge(b.ips, n.ip))
  }

  function ReplacementBucket(b: Bucket, n: Node): Bucket {
    b.(replacements := PushedFront(b.replacements, n, MAX_REPLACEMENTS), ips := Charge(b.ips, n.ip))
  }

  function PromotedBucket(b: Bucket, pick: nat): Bucket
    requires b.entries != [] && pick < |b.replacements|
  {
    var r := b.replacements[pick];
    b.(replacements := Dropped(b.replacements, r.id), entries := b.entries[|b.entries| - 1 := r])
  }

  function DeletedBucket(b: Bucket, id: NodeId): Bucket {
    b.(entries := Dropped(b.entries, id))
  }

  lemma BumpSwaps(b: Bucket, n: Node)
    requires IndexOf(b.entries, n.id) < |b.entries|
    ensures Swapped(b, BumpedBucket(b, n), Held(b.entries, n.id), Some(n))
  {
    hide Count, Without, IndexOf, Weight;
    var i := IndexOf(b.entries, n.id);
    forall t ensures Tally(BumpedBucket(b, n), t) + Weight(b.entries[i], t) == Tally(b, t) + Weight(n, t) {
      CountFront(Without(b.entries, i), n, t);
      CountWithout(b.entries, i, t);
    }
  }

  lemma EnterSwaps(b: Bucket, n: Node)
    ensures Swapped(b, EnteredBucket(b, n), Held(b.replacements, n.id), Some(n))
  {
    hide Count, Dropped, Held, Weight, Charge;
    forall t ensures Tally(EnteredBucket(b, n), t) + WeightOf(Held(b.replacements, n.id), t) == Tally(b, t) + Weight(n, t) {
      CountFront(b.entries, n, t);
      CountDropped(b.replacements, n.id, t);
    }
  }

  lemma ReplacementSwaps(b: Bucket, n: Node)
    ensures Swapped(b, ReplacementBucket(b, n), PushedOut(b.replacements, MAX_REPLACEMENTS), Some(n))
  {
    hide Count, PushedFront, PushedOut, Weight, Charge;
    forall t ensures Tally(ReplacementBucket(b, n), t) + WeightOf(PushedOut(b.replacements, MAX_REPLACEMENTS), t) == Tally(b, t) + Weight(n, t) {
      CountPushed(b.replacements, n, MAX_REPLACEMENTS, t);
    }
  }

  lemma PromoteSwaps(b: Bucket, pick: nat)
    requires b.entries != [] && pick < |b.replacements|
    requires Held(b.replacements, b.replacements[pick].id) == Some(b.replacements[pick])
    ensures Swapped(b, PromotedBucket(b, pick), Some(b.entries[|b.entries| - 1]), None)
  {
    hide Count, Dropped, Held, Weight;
    var last, r := |b.entries| - 1, b.replacements[pick];
    var entries := b.entries[last := r];
    forall t ensures Tally(PromotedBucket(b, pick), t) + Weight(b.entries[last], t) == Tally(b, t) {
      CountDropped(b.replacements, r.id, t);
      CountWithout(entries, last, t);
      CountWithout(b.entries, last, t);
      assert Without(entries, last) == Without(b.entries, last);
    }
  }

  lemma DeleteSwaps(b: Bucket, id: NodeId)
    ensures Swapped(b, DeletedBucket(b, id), Held(b.entries, id), None)
  {
    hide Count, Dropped, Held, Weight;
    forall t ensures Tally(DeletedBucket(b, id), t) + WeightOf(Held(b.entries, id), t) == Tally(b, t) {
      CountDropped(b.entries, id, t);
    }
  }

  /** In a bucket that lists no ID twice, a search by ID finds the very node it was taken from. */
  lemma HeldIsUnique(ks: Keyspace, i: nat, b: Bucket, p: nat)
    requires BucketOk(ks, i, b) && p < |b.replacements|
    ensures Held(b.replacements, b.replacements[p].id) == Some(b.replacements[p])
  {
    hide Keyspace.Place, Limited, Count;
    var id := b.replacements[p].id;
    var f := IndexOf(b.replacements, id);
    assert Tally(b, OfId(id)) <= 1;
    if f < p {
      CountOfTwo(b.replacements, f, p, OfId(id));
    }
  }

  lemma CountOfTwo(list: seq<Node>, i: nat, j: nat, t: Test)
    requires i < j < |list|
    ensures Count(list, t) >= Weight(list[i], t) + Weight(list[j], t)
  {
    hide Count, Weight;
    CountSplit(list, i, t);
    CountSplit(list[i + 1..], j - i - 1, t);
    assert list[i + 1..][j - i - 1] == list[j];
  }

  // ---------------------------------------------------------------- keeping account

  lemma ChargedAt(m: Counter, ip: Ip, limit: nat, k: Key)
    requires Limited(m, limit)
    ensures At(Charge(m, ip), k) == At(m, k) + if Charged(ip, k) then 1 else 0
    ensures At(Refund(m, ip), k) == At(m, k) - if Charged(ip, k) && At(m, k) > 0 then 1 else 0
  {
    hide IsLan, Net;
    IncrementedAt(m, Net(ip), limit);
    DecrementedAt(m, Net(ip), limit);
  }

  /** Listing one node, charged to both counters, keeps the account. */
  lemma ListingAccounts(buckets: seq<Bucket>, ips: Counter, i: nat, b: Bucket, n: Node)
    requires Accounted(buckets, ips) && i < |buckets|
    requires Limited(ips, TABLE_IP_LIMIT) && Limited(buckets[i].ips, BUCKET_IP_LIMIT)
    requires b.ips == Charge(buckets[i].ips, n.ip)
    requires forall k :: Tally(b, OfNet(k)) <= Tally(buckets[i], OfNet(k)) + Weight(n, OfNet(k))
    ensures Accounted(buckets[i := b], Charge(ips, n.ip))
  {
    hide Tally, Charge, Charged, Sum, Limited;
    assert Covered(buckets[i]);
    forall k ensures Tally(b, OfNet(k)) <= At(b.ips, k)
             ensures At(Charge(ips, n.ip), k) - At(ips, k) == At(b.ips, k) - At(buckets[i].ips, k) {
      ChargedAt(ips, n.ip, TABLE_IP_LIMIT, k);
      ChargedAt(buckets[i].ips, n.ip, BUCKET_IP_LIMIT, k);
    }
    AccountedWith(buckets, ips, i, b, Charge(ips, n.ip));
  }

  /**
   Giving back an address keeps the account exactly if it is not counted at all, or the counter of
   the bucket is above the number of nodes that remain in the range.
   */
  lemma DroppingAccounts(buckets: seq<Bucket>, ips: Counter, i: nat, b: Bucket, ip: Ip)
    requires Accounted(buckets, ips) && i < |buckets|
    requires Limited(ips, TABLE_IP_LIMIT) && Limited(buckets[i].ips, BUCKET_IP_LIMIT)
    requires b.ips == Refund(buckets[i].ips, ip)
    requires forall k :: Tally(b, OfNet(k)) <= Tally(buckets[i], OfNet(k))
    ensures Accounted(buckets[i := b], Refund(ips, ip)) <==>
              IsLan(ip) || At(ips, Net(ip)) == 0 || Tally(b, OfNet(Net(ip))) < At(buckets[i].ips, Net(ip))
  {
    hide Tally, Refund, IsLan, Net, Sum, Limited;
    assert Covered(buckets[i]);
    forall k ensures At(Refund(ips, ip), k) == At(ips, k) - if Charged(ip, k) && At(ips, k) > 0 then 1 else 0
             ensures At(b.ips, k) == At(buckets[i].ips, k) - if Charged(ip, k) && At(buckets[i].ips, k) > 0 then 1 else 0 {
      ChargedAt(ips, ip, TABLE_IP_LIMIT, k);
      ChargedAt(buckets[i].ips, ip, BUCKET_IP_LIMIT, k);
    }
    SumUpdated(buckets, i, b, Net(ip));
    assert At(ips, Net(ip)) == Sum(buckets, Net(ip));
    AccountedWith(buckets, ips, i, b, Refund(ips, ip));
    if !IsLan(ip) && Accounted(buckets[i := b], Refund(ips, ip)) {
      assert Tally(b, OfNet(Net(ip))) <= At(b.ips, Net(ip));
    }
  }

  /** Changing a node for one of the same ID keeps the account exactly if the new address has cover. */
  lemma BumpAccounts(buckets: seq<Bucket>, ips: Counter, i: nat, n: Node)
    requires Accounted(buckets, ips) && i < |buckets| && IndexOf(buckets[i].entries, n.id) < |buckets[i].entries|
    ensures Accounted(buckets[i := BumpedBucket(buckets[i], n)], ips) <==> BumpHasCover(buckets[i], n)
  {
    hide Tally, IsLan, Net, At, BumpedBucket, IndexOf;
    var b, after := buckets[i], BumpedBucket(buckets[i], n);
    var e := b.entries[IndexOf(b.entries, n.id)];
    BumpSwaps(b, n);
    assert after.ips == b.ips by { BumpKeepsCounters(b, n); }
    assert Covered(b);
    forall k ensures Tally(after, OfNet(k)) + Weight(e, OfNet(k)) == Tally(b, OfNet(k)) + Weight(n, OfNet(k)) {
    }
    AccountedWith(buckets, ips, i, after, ips);
    var k := Net(n.ip);
    assert Tally(after, OfNet(k)) + Weight(e, OfNet(k)) == Tally(b, OfNet(k)) + Weight(n, OfNet(k));
  }

  lemma BumpKeepsCounters(b: Bucket, n: Node)
    requires IndexOf(b.entries, n.id) < |b.entries|
    ensures BumpedBucket(b, n).ips == b.ips
  {
  }

  /** Whether the counter of the bucket covers the address that a bump brings in. */
  predicate BumpHasCover(b: Bucket, n: Node)
    requires IndexOf(b.entries, n.id) < |b.entries|
  {
    || IsLan(n.ip)
    || Charged(b.entries[IndexOf(b.entries, n.id)].ip, Net(n.ip))
    || Tally(b, OfNet(Net(n.ip))) < At(b.ips, Net(n.ip))
  }

  // ---------------------------------------------------------------- the table

  lemma RecountedOk(ks: Keyspace, i: nat, b: Bucket, ips: Counter)
    requires BucketOk(ks, i, b) && Limited(ips, BUCKET_IP_LIMIT)
    ensures BucketOk(ks, i, b.(ips := ips))
  {
    hide Count, Keyspace.Place, Limited;
    assert forall id :: Tally(b.(ips := ips), OfId(id)) == Tally(b, OfId(id));
  }

  lemma ChargeLimited(m: Counter, ip: Ip, limit: nat)
    requires Limited(m, limit)
    ensures IsLan(ip) || At(m, Net(ip)) < limit ==> Limited(Charge(m, ip), limit)
    ensures Limited(Refund(m, ip), limit)
  {
    hide IsLan, Net;
  }

  lemma HeldWeight(list: seq<Node>, id: NodeId)
    ensures Count(list, OfId(id)) <= 1 ==> Count(list, OfId(id)) == WeightOf(Held(list, id), OfId(id))
    ensures Held(list, id) == None <==> Count(list, OfId(id)) == 0
  {
    CountAbsent(list, id);
  }

  lemma BumpOk(ks: Keyspace, i: nat, b: Bucket, n: Node)
    requires BucketOk(ks, i, b) && IndexOf(b.entries, n.id) < |b.entries| && ks.Place(n.id) == i
    ensures BucketOk(ks, i, BumpedBucket(b, n))
  {
    hide Keyspace.Place, Limited, Count;
    BumpSwaps(b, n);
    HeldWeight(b.entries, n.id);
    assert Tally(b, OfId(n.id)) <= 1;
    SwapOk(ks, i, b, BumpedBucket(b, n), Held(b.entries, n.id), Some(n));
  }

  lemma EnterOk(ks: Keyspace, i: nat, ips: Counter, b: Bucket, n: Node)
    requires BucketOk(ks, i, b) && IndexOf(b.entries, n.id) == |b.entries| && ks.Place(n.id) == i
    requires |b.entries| < BUCKET_SIZE && Room(ips, b, n.ip)
    ensures BucketOk(ks, i, EnteredBucket(b, n))
  {
    hide Keyspace.Place, Limited, Count, IsLan, Net;
    EnterSwaps(b, n);
    HeldWeight(b.entries, n.id);
    HeldWeight(b.replacements, n.id);
    assert Tally(b, OfId(n.id)) <= 1;
    ChargeLimited(b.ips, n.ip, BUCKET_IP_LIMIT);
    SwapOk(ks, i, b, EnteredBucket(b, n), Held(b.replacements, n.id), Some(n));
  }

  lemma ReplacementOk(ks: Keyspace, i: nat, ips: Counter, b: Bucket, n: Node)
    requires BucketOk(ks, i, b) && IndexOf(b.entries, n.id) == |b.entries| && ks.Place(n.id) == i
    requires IndexOf(b.replacements, n.id) == |b.replacements| && Room(ips, b, n.ip)
    ensures BucketOk(ks, i, ReplacementBucket(b, n))
  {
    hide Keyspace.Place, Limited, Count, IsLan, Net;
    ReplacementSwaps(b, n);
    HeldWeight(b.entries, n.id);
    HeldWeight(b.replacements, n.id);
    var out := PushedOut(b.replacements, MAX_REPLACEMENTS);
    if out.Some? {
      CountSplit(b.replacements, |b.replacements| - 1, OfId(n.id));
    }
    ChargeLimited(b.ips, n.ip, BUCKET_IP_LIMIT);
    SwapOk(ks, i, b, ReplacementBucket(b, n), out, Some(n));
  }

  lemma PromoteOk(ks: Keyspace, i: nat, b: Bucket, pick: nat)
    requires BucketOk(ks, i, b) && b.entries != [] && pick < |b.replacements|
    ensures BucketOk(ks, i, PromotedBucket(b, pick))
    ensures Swapped(b, PromotedBucket(b, pick), Some(b.entries[|b.entries| - 1]), None)
  {
    hide Keyspace.Place, Limited, Count;
    HeldIsUnique(ks, i, b, pick);
    PromoteSwaps(b, pick);
    SwapOk(ks, i, b, PromotedBucket(b, pick), Some(b.entries[|b.entries| - 1]), None);
  }

  lemma DeleteOk(ks: Keyspace, i: nat, b: Bucket, id: NodeId)
    requires BucketOk(ks, i, b)
    ensures BucketOk(ks, i, DeletedBucket(b, id))
  {
    hide Keyspace.Place, Limited, Count;
    DeleteSwaps(b, id);
    SwapOk(ks, i, b, DeletedBucket(b, id), Held(b.entries, id), None);
  }

  /** A bucket, or all of them, with the table's counters. */
  datatype State = State(bucket: Bucket, ips: Counter)
  datatype TableState = TableState(buckets: seq<Bucket>, ips: Counter)

  /** What `bumpOrAdd` makes of a bucket and of the table's counters. */
  function BumpedOrAdded(s: State, n: Node): State {
    if IndexOf(s.bucket.entries, n.id) < |s.bucket.entries| then s.(bucket := BumpedBucket(s.bucket, n))
    else if |s.bucket.entries| >= BUCKET_SIZE || !Room(s.ips, s.bucket, n.ip) then s
    else State(EnteredBucket(s.bucket, n), Charge(s.ips, n.ip))
  }

  function StuffedOne(ks: Keyspace, t: TableState, n: Node): (r: TableState)
    requires |t.buckets| == N_BUCKETS
    ensures |r.buckets| == N_BUCKETS
  {
    var bi := ks.Place(n.id);
    if n.id == ks.self || |t.buckets[bi].entries| >= BUCKET_SIZE then t
    else
      var s := BumpedOrAdded(State(t.buckets[bi], t.ips), n);
      TableState(t.buckets[bi := s.bucket], s.ips)
  }

  function Stuffed(ks: Keyspace, t: TableState, nodes: seq<Node>): (r: TableState)
    requires |t.buckets| == N_BUCKETS
    ensures |r.buckets| == N_BUCKETS
  {
    if nodes == [] then t
    else StuffedOne(ks, Stuffed(ks, t, nodes[..|nodes| - 1]), nodes[|nodes| - 1])
  }

  function Removed(s: State, ip: Ip): State {
    State(s.bucket.(ips := Refund(s.bucket.ips, ip)), Refund(s.ips, ip))
  }

  /** What `addReplacement` makes of them. */
  function ReplacementAdded(s: State, n: Node): State {
    if IndexOf(s.bucket.replacements, n.id) < |s.bucket.replacements| || !Room(s.ips, s.bucket, n.ip) then s
    else
      var pushed := State(ReplacementBucket(s.bucket, n), Charge(s.ips, n.ip));
      match PushedOut(s.bucket.replacements, MAX_REPLACEMENTS)
      case None => pushed
      case Some(out) => Removed(pushed, out.ip)
  }

  /** The node is an entry, or there is a place and an address for it. */
  predicate Enters(s: State, n: Node) {
    || IndexOf(s.bucket.entries, n.id) < |s.bucket.entries|
    || (|s.bucket.entries| < BUCKET_SIZE && Room(s.ips, s.bucket, n.ip))
  }

  predicate AddHasCover(b: Bucket, n: Node) {
    IndexOf(b.entries, n.id) < |b.entries| ==> BumpHasCover(b, n)
  }

  lemma EnterAccounts(ks: Keyspace, buckets: seq<Bucket>, ips: Counter, i: Index, n: Node)
    requires Accounted(buckets, ips) && Structured(ks, buckets) && Limited(ips, TABLE_IP_LIMIT)
    ensures Accounted(buckets[i := EnteredBucket(buckets[i], n)], Charge(ips, n.ip))
  {
    hide Tally, Limited, Accounted, IsLan, Net;
    var b := buckets[i];
    assert BucketOk(ks, i, b);
    EnterSwaps(b, n);
    forall k ensures Tally(EnteredBucket(b, n), OfNet(k)) <= Tally(b, OfNet(k)) + Weight(n, OfNet(k)) {
    }
    ListingAccounts(buckets, ips, i, EnteredBucket(b, n), n);
  }

  lemma ReplacementAccounts(ks: Keyspace, buckets: seq<Bucket>, ips: Counter, i: Index, n: Node)
    requires Accounted(buckets, ips) && Structured(ks, buckets) && Limited(ips, TABLE_IP_LIMIT)
    ensures Accounted(buckets[i := ReplacementBucket(buckets[i], n)], Charge(ips, n.ip))
  {
    hide Tally, Limited, Accounted, IsLan, Net;
    var b := buckets[i];
    assert BucketOk(ks, i, b);
    ReplacementSwaps(b, n);
    forall k ensures Tally(ReplacementBucket(b, n), OfNet(k)) <= Tally(b, OfNet(k)) + Weight(n, OfNet(k)) {
    }
    ListingAccounts(buckets, ips, i, ReplacementBucket(b, n), n);
  }

  /** The node pushed out was counted, so its address can be given back. */
  lemma PushedOutAccounts(ks: Keyspace, buckets: seq<Bucket>, ips: Counter, i: Index, n: Node, out: Node)
    requires Accounted(buckets, ips) && Structured(ks, buckets) && Limited(ips, TABLE_IP_LIMIT)
    requires PushedOut(buckets[i].replacements, MAX_REPLACEMENTS) == Some(out)
    requires Room(ips, buckets[i], n.ip)
    ensures var s := Removed(State(ReplacementBucket(buckets[i], n), Charge(ips, n.ip)), out.ip);
            Accounted(buckets[i := s.bucket], s.ips)
  {
    hide Tally, Limited, Accounted, IsLan, Net, Refund, Charge, At, PushedFront;
    var b, after := buckets[i], ReplacementBucket(buckets[i], n);
    assert BucketOk(ks, i, b);
    ReplacementSwaps(b, n);
    ReplacementAccounts(ks, buckets, ips, i, n);
    LimitedAfterCharge(ips, b, n.ip);
    var k := Net(out.ip);
    assert Tally(after, OfNet(k)) + Weight(out, OfNet(k)) == Tally(b, OfNet(k)) + Weight(n, OfNet(k));
    ChargedAt(b.ips, n.ip, BUCKET_IP_LIMIT, k);
    assert Tally(b, OfNet(k)) <= At(b.ips, k) by { CoveredAt(buckets, ips, i, k); }
    var s := Removed(State(after, Charge(ips, n.ip)), out.ip);
    forall j ensures Tally(s.bucket, OfNet(j)) <= Tally(after, OfNet(j)) {
      SameTally(after, s.bucket, OfNet(j));
    }
    SameTally(after, s.bucket, OfNet(k));
    DroppingAccounts(buckets[i := after], Charge(ips, n.ip), i, s.bucket, out.ip);
    assert buckets[i := after][i := s.bucket] == buckets[i := s.bucket];
  }

  lemma SameTally(b: Bucket, c: Bucket, t: Test)
    requires b.entries == c.entries && b.replacements == c.replacements
    ensures Tally(b, t) == Tally(c, t)
  {
  }

  lemma CoveredAt(buckets: seq<Bucket>, ips: Counter, i: nat, k: Key)
    requires Accounted(buckets, ips) && i < |buckets|
    ensures Tally(buckets[i], OfNet(k)) <= At(buckets[i].ips, k)
  {
    hide Tally, At;
    assert Covered(buckets[i]);
  }

  lemma LimitedAfterCharge(ips: Counter, b: Bucket, ip: Ip)
    requires Limited(ips, TABLE_IP_LIMIT) && Limited(b.ips, BUCKET_IP_LIMIT) && Room(ips, b, ip)
    ensures Limited(Charge(ips, ip), TABLE_IP_LIMIT) && Limited(Charge(b.ips, ip), BUCKET_IP_LIMIT)
  {
    hide IsLan, Net;
    ChargeLimited(ips, ip, TABLE_IP_LIMIT);
    ChargeLimited(b.ips, ip, BUCKET_IP_LIMIT);
  }

  /** Whether giving back `n`'s address leaves cover for the nodes of its range once its ID is off the entries. */
  predicate DeleteHasCover(s: State, n: Node) {
    || IsLan(n.ip) || At(s.ips, Net(n.ip)) == 0
    || Tally(DeletedBucket(s.bucket, n.id), OfNet(Net(n.ip))) < At(s.bucket.ips, Net(n.ip))
  }

  lemma DeleteAccounts(ks: Keyspace, buckets: seq<Bucket>, ips: Counter, i: Index, n: Node)
    requires Accounted(buckets, ips) && Structured(ks, buckets) && Limited(ips, TABLE_IP_LIMIT)
    ensures var s := Removed(State(DeletedBucket(buckets[i], n.id), ips), n.ip);
            Accounted(buckets[i := s.bucket], s.ips) <==> DeleteHasCover(State(buckets[i], ips), n)
  {
    hide Tally, Limited, Accounted, IsLan, Net, Refund, At, Dropped, Held;
    var b, deleted := buckets[i], DeletedBucket(buckets[i], n.id);
    assert BucketOk(ks, i, b);
    DeleteSwaps(b, n.id);
    var s := Removed(State(deleted, ips), n.ip);
    forall k ensures Tally(s.bucket, OfNet(k)) == Tally(deleted, OfNet(k)) <= Tally(b, OfNet(k)) {
      SameTally(deleted, s.bucket, OfNet(k));
    }
    DroppingAccounts(buckets, ips, i, s.bucket, n.ip);
  }

  /** A node that is an entry under the address given is always safe to delete. */
  lemma PresentDeleteHasCover(buckets: seq<Bucket>, ips: Counter, i: Index, n: Node)
    requires |buckets| == N_BUCKETS && Accounted(buckets, ips)
    requires var e := Held(buckets[i].entries, n.id); e.Some? && e.value.ip == n.ip
    ensures DeleteHasCover(State(buckets[i], ips), n)
  {
    hide Tally, Accounted, IsLan, Net, At, Dropped, Held;
    DeleteSwaps(buckets[i], n.id);
    CoveredAt(buckets, ips, i, Net(n.ip));
    var k := Net(n.ip);
    var e := Held(buckets[i].entries, n.id);
    assert Tally(DeletedBucket(buckets[i], n.id), OfNet(k)) + WeightOf(e, OfNet(k)) == Tally(buckets[i], OfNet(k));
  }

  /** Some replacement, `r`, has taken the place of the last entry, and `last`'s address is given back. */
  ghost predicate Promoted(before: TableState, after: TableState, bi: Index, last: Node, r: Option<Node>)
    requires |before.buckets| == N_BUCKETS && before.buckets[bi].entries != []
  {
    var b := before.buckets[bi];
    exists pick :: 0 <= pick < |b.replacements| && r == Some(b.replacements[pick])
      && after == PromotedTable(before, bi, last, pick)
  }

  function PromotedTable(before: TableState, bi: Index, last: Node, pick: nat): TableState
    requires |before.buckets| == N_BUCKETS
    requires before.buckets[bi].entries != [] && pick < |before.buckets[bi].replacements|
  {
    var s := Removed(State(PromotedBucket(before.buckets[bi], pick), before.ips), last.ip);
    TableState(before.buckets[bi := s.bucket], s.ips)
  }

  predicate StillLast(b: Bucket, last: Node) {
    b.entries != [] && b.entries[|b.entries| - 1].id == last.id
  }

  predicate PromoteHasCover(s: State, last: Node)
    requires s.bucket.entries != []
  {
    || IsLan(last.ip) || At(s.ips, Net(last.ip)) == 0
    || Tally(s.bucket, OfNet(Net(last.ip)))
         < At(s.bucket.ips, Net(last.ip)) + Weight(s.bucket.entries[|s.bucket.entries| - 1], OfNet(Net(last.ip)))
  }

  lemma PromoteAccounts(ks: Keyspace, buckets: seq<Bucket>, ips: Counter, i: Index, last: Node, pick: nat)
    requires Accounted(buckets, ips) && Structured(ks, buckets) && Limited(ips, TABLE_IP_LIMIT)
    requires buckets[i].entries != [] && pick < |buckets[i].replacements|
    ensures var s := Removed(State(PromotedBucket(buckets[i], pick), ips), last.ip);
            Accounted(buckets[i := s.bucket], s.ips) <==> PromoteHasCover(State(buckets[i], ips), last)
  {
    hide Tally, Limited, Accounted, IsLan, Net, Refund, At, Dropped, Held;
    var b, promoted := buckets[i], PromotedBucket(buckets[i], pick);
    assert BucketOk(ks, i, b);
    PromoteOk(ks, i, b, pick);
    var s := Removed(State(promoted, ips), last.ip);
    var e := b.entries[|b.entries| - 1];
    forall k ensures Tally(s.bucket, OfNet(k)) + Weight(e, OfNet(k)) == Tally(b, OfNet(k)) {
      SameTally(promoted, s.bucket, OfNet(k));
    }
    DroppingAccounts(buckets, ips, i, s.bucket, last.ip);
  }

  class Table {
    const ks: Keyspace
    var buckets: seq<Bucket>
    var ips: Counter

    /** Kept whatever the callers pass; `Accounted` is kept under the conditions the methods state. */
    ghost predicate Valid()
      reads this
    {
      Structured(ks, buckets) && Limited(ips, TABLE_IP_LIMIT)
    }

    constructor (ks: Keyspace)
      ensures Valid() && Accounted(buckets, ips) && this.ks == ks
      ensures ips == map[] && forall b :: b in buckets ==> b == Bucket([], [], map[])
    {
      this.ks := ks;
      buckets := seq(N_BUCKETS, i => Bucket([], [], map[]));
      ips := map[];
      new;
      forall k ensures Sum(buckets, k) == 0 {
        EmptyTable(N_BUCKETS, k);
      }
    }

    /** `addIP`: both counters or neither. */
    method AddIp(bi: Index, ip: Ip) returns (ok: bool)
      requires Valid()
      modifies this
      ensures Valid()
      ensures ok <==> Room(old(ips), old(buckets)[bi], ip)
      ensures !ok ==> buckets == old(buckets) && ips == old(ips)
      ensures ok ==> ips == Charge(old(ips), ip)
      ensures ok ==> buckets == old(buckets)[bi := old(buckets)[bi].(ips := Charge(old(buckets)[bi].ips, ip))]
    {
      hide IsLan, Net, Tally, Keyspace.Place, Limited;
      ghost var b := buckets[bi];
      assert BucketOk(ks, bi, b);
      ChargeLimited(ips, ip, TABLE_IP_LIMIT);
      ChargeLimited(b.ips, ip, BUCKET_IP_LIMIT);
      if IsLan(ip) {
        return true;
      }
      AddThenRemove(ips, Net(ip), TABLE_IP_LIMIT);
      if At(ips, Net(ip)) >= TABLE_IP_LIMIT {
        return false;
      }
      ips := Incremented(ips, Net(ip));
      if At(buckets[bi].ips, Net(ip)) >= BUCKET_IP_LIMIT {
        ips := Decremented(ips, Net(ip));
        return false;
      }
      RecountedOk(ks, bi, b, Charge(b.ips, ip));
      StructuredWith(ks, buckets, bi, b.(ips := Charge(b.ips, ip)));
      buckets := buckets[bi := buckets[bi].(ips := Incremented(buckets[bi].ips, Net(ip)))];
      return true;
    }

    method RemoveIp(bi: Index, ip: Ip)
      requires Valid()
      modifies this
      ensures Valid()
      ensures ips == Refund(old(ips), ip)
      ensures buckets == old(buckets)[bi := old(buckets)[bi].(ips := Refund(old(buckets)[bi].ips, ip))]
    {
      hide IsLan, Net, Tally, Keyspace.Place, Limited;
      ghost var b := buckets[bi];
      assert BucketOk(ks, bi, b);
      ChargeLimited(ips, ip, TABLE_IP_LIMIT);
      ChargeLimited(b.ips, ip, BUCKET_IP_LIMIT);
      if IsLan(ip) {
        return;
      }
      RecountedOk(ks, bi, b, Refund(b.ips, ip));
      StructuredWith(ks, buckets, bi, b.(ips := Refund(b.ips, ip)));
      ips := Decremented(ips, Net(ip));
      buckets := buckets[bi := buckets[bi].(ips := Decremented(buckets[bi].ips, Net(ip)))];
    }

    /** `bump`: the node moves to the front of the entries, in the form the caller has. */
    method Bump(bi: Index, n: Node) returns (ok: bool)
      requires Valid() && ks.Place(n.id) == bi
      modifies this`buckets
      ensures Valid()
      ensures ok <==> IndexOf(old(buckets)[bi].entries, n.id) < |old(buckets)[bi].entries|
      ensures buckets == if ok then old(buckets)[bi := BumpedBucket(old(buckets)[bi], n)] else old(buckets)
      ensures Accounted(old(buckets), ips) ==> (Accounted(buckets, ips) <==> AddHasCover(old(buckets)[bi], n))
    {
      hide BumpHasCover, Accounted, Keyspace.Place, Limited, Tally, Without;
      var b := buckets[bi];
      assert BucketOk(ks, bi, b);
      var i := FindIndex(b.entries, n.id);
      if i < |b.entries| {
        BumpOk(ks, bi, b, n);
        StructuredWith(ks, buckets, bi, BumpedBucket(b, n));
        if Accounted(buckets, ips) {
          BumpAccounts(buckets, ips, bi, n);
        }
        buckets := buckets[bi := b.(entries := [n] + Without(b.entries, i))];
        return true;
      }
      return false;
    }

    method BumpOrAdd(bi: Index, n: Node) returns (ok: bool)
      requires Valid() && ks.Place(n.id) == bi
      modifies this
      ensures Valid()
      ensures ok <==> Enters(State(old(buckets)[bi], old(ips)), n)
      ensures var s := BumpedOrAdded(State(old(buckets)[bi], old(ips)), n);
              buckets == old(buckets)[bi := s.bucket] && ips == s.ips
      ensures Accounted(old(buckets), old(ips)) ==> (Accounted(buckets, ips) <==> AddHasCover(old(buckets)[bi], n))
    {
      hide BumpHasCover, BumpedBucket, Accounted, Keyspace.Place, Limited, Tally, Without, Charge, Room, Dropped;
      ghost var buckets0, ips0 := buckets, ips;
      var bumped := Bump(bi, n);
      if bumped {
        return true;
      }
      if |buckets[bi].entries| >= BUCKET_SIZE {
        return false;
      }
      var fits := AddIp(bi, n.ip);
      if !fits {
        return false;
      }
      var b := buckets[bi];
      var entries, _ := PushNode(b.entries, n, BUCKET_SIZE);
      var replacements := DeleteNode(b.replacements, n.id);
      ghost var entered := EnteredBucket(buckets0[bi], n);
      assert BucketOk(ks, bi, buckets0[bi]);
      EnterOk(ks, bi, ips0, buckets0[bi], n);
      StructuredWith(ks, buckets0, bi, entered);
      if Accounted(buckets0, ips0) {
        EnterAccounts(ks, buckets0, ips0, bi, n);
      }
      buckets := buckets[bi := Bucket(entries, replacements, b.ips)];
      assert buckets == buckets0[bi := entered];
      return true;
    }

    /** `addReplacement`, which its callers run for a node that is not an entry. */
    method AddReplacement(bi: Index, n: Node)
      requires Valid() && ks.Place(n.id) == bi
      requires IndexOf(buckets[bi].entries, n.id) == |buckets[bi].entries|
      modifies this
      ensures Valid()
      ensures var s := ReplacementAdded(State(old(buckets)[bi], old(ips)), n);
              buckets == old(buckets)[bi := s.bucket] && ips == s.ips
      ensures Accounted(old(buckets), old(ips)) ==> Accounted(buckets, ips)
    {
      hide BumpHasCover, BumpedBucket, Accounted, Keyspace.Place, Limited, Tally, Without, Charge, Refund, Room, Dropped,
        PushedFront;
      ghost var buckets0, ips0 := buckets, ips;
      ghost var b0 := buckets[bi];
      var i := FindIndex(buckets[bi].replacements, n.id);
      if i < |buckets[bi].replacements| {
        return;
      }
      var fits := AddIp(bi, n.ip);
      if !fits {
        return;
      }
      var b := buckets[bi];
      var replacements, removed := PushNode(b.replacements, n, MAX_REPLACEMENTS);
      assert BucketOk(ks, bi, b0);
      ReplacementOk(ks, bi, ips0, b0, n);
      StructuredWith(ks, buckets0, bi, ReplacementBucket(b0, n));
      buckets := buckets[bi := b.(replacements := replacements)];
      assert buckets == buckets0[bi := ReplacementBucket(b0, n)];
      if Accounted(buckets0, ips0) {
        ReplacementAccounts(ks, buckets0, ips0, bi, n);
        if removed.Some? {
          PushedOutAccounts(ks, buckets0, ips0, bi, n, removed.value);
        }
      }
      if removed.Some? {
        RemoveIp(bi, removed.value.ip);
        assert buckets == buckets0[bi := ReplacementAdded(State(b0, ips0), n).bucket];
      }
    }

    /** `add`: the node becomes the first entry if it can, and else a replacement if it can. */
    method Add(n: Node)
      requires Valid()
      modifies this
      ensures Valid()
      ensures var bi := ks.Place(n.id);
              var s := State(old(buckets)[bi], old(ips));
              var t := if Enters(s, n) then BumpedOrAdded(s, n) else ReplacementAdded(s, n);
              buckets == old(buckets)[bi := t.bucket] && ips == t.ips
      ensures Accounted(old(buckets), old(ips)) ==> (Accounted(buckets, ips) <==> AddHasCover(old(buckets)[ks.Place(n.id)], n))
    {
      hide BumpHasCover, BumpedBucket, Accounted, Keyspace.Place, Limited, Tally, Without, Charge, Refund, Room, Dropped,
        PushedFront;
      var bi := ks.Place(n.id);
      var ok := BumpOrAdd(bi, n);
      if !ok {
        AddReplacement(bi, n);
      }
    }

    /** `stuff`: in each bucket that is not full, nodes other than the local one are bumped or added. */
    method Stuff(nodes: seq<Node>)
      requires Valid()
      modifies this
      ensures Valid()
      ensures TableState(buckets, ips) == Stuffed(ks, TableState(old(buckets), old(ips)), nodes)
    {
      hide BumpedOrAdded, AddHasCover, Accounted, Keyspace.Place, Limited, Tally, Enters;
      ghost var start := TableState(buckets, ips);
      for k := 0 to |nodes|
        invariant Valid()
        invariant TableState(buckets, ips) == Stuffed(ks, start, nodes[..k])
      {
        var n := nodes[k];
        assert nodes[..k + 1][..k] == nodes[..k];
        if n.id == ks.self {
          continue;
        }
        var bi := ks.Place(n.id);
        if |buckets[bi].entries| < BUCKET_SIZE {
          var _ := BumpOrAdd(bi, n);
        }
      }
      assert nodes[..|nodes|] == nodes;
    }

    method DeleteInBucket(bi: Index, n: Node)
      requires Valid()
      modifies this
      ensures Valid()
      ensures var s := Removed(State(DeletedBucket(old(buckets)[bi], n.id), old(ips)), n.ip);
              buckets == old(buckets)[bi := s.bucket] && ips == s.ips
      ensures Accounted(old(buckets), old(ips)) ==>
                (Accounted(buckets, ips) <==> DeleteHasCover(State(old(buckets)[bi], old(ips)), n))
    {
      hide DeleteHasCover, Accounted, Keyspace.Place, Limited, Tally, Without, Charge, Refund, Dropped;
      ghost var buckets0, ips0 := buckets, ips;
      var b := buckets[bi];
      assert BucketOk(ks, bi, b);
      var entries := DeleteNode(b.entries, n.id);
      DeleteOk(ks, bi, b, n.id);
      StructuredWith(ks, buckets, bi, DeletedBucket(b, n.id));
      if Accounted(buckets, ips) {
        DeleteAccounts(ks, buckets, ips, bi, n);
      }
      buckets := buckets[bi := b.(entries := entries)];
      RemoveIp(bi, n.ip);
      assert buckets == buckets0[bi := Removed(State(DeletedBucket(b, n.id), ips0), n.ip).bucket];
    }

    method Delete(n: Node)
      requires Valid()
      modifies this
      ensures Valid()
      ensures var bi := ks.Place(n.id);
              var s := Removed(State(DeletedBucket(old(buckets)[bi], n.id), old(ips)), n.ip);
              buckets == old(buckets)[bi := s.bucket] && ips == s.ips
      ensures Accounted(old(buckets), old(ips)) ==>
                (Accounted(buckets, ips) <==> DeleteHasCover(State(old(buckets)[ks.Place(n.id)], old(ips)), n))
    {
      hide DeleteHasCover, Accounted, Keyspace.Place, Limited, Tally, Removed, DeletedBucket;
      DeleteInBucket(ks.Place(n.id), n);
    }

    /** `replace`: if `last` is still the last entry, a replacement drawn at random takes its place, or none does. */
    method Replace(bi: Index, last: Node) returns (r: Option<Node>)
      requires Valid()
      modifies this
      ensures Valid()
      ensures !StillLast(old(buckets)[bi], last) ==> r == None && buckets == old(buckets) && ips == old(ips)
      ensures StillLast(old(buckets)[bi], last) && old(buckets)[bi].replacements == [] ==>
                var s := Removed(State(DeletedBucket(old(buckets)[bi], last.id), old(ips)), last.ip);
                r == None && buckets == old(buckets)[bi := s.bucket] && ips == s.ips
                && (Accounted(old(buckets), old(ips)) ==>
                    (Accounted(buckets, ips) <==> DeleteHasCover(State(old(buckets)[bi], old(ips)), last)))
      ensures StillLast(old(buckets)[bi], last) && old(buckets)[bi].replacements != [] ==>
                && Promoted(TableState(old(buckets), old(ips)), TableState(buckets, ips), bi, last, r)
                && (Accounted(old(buckets), old(ips)) ==>
                    (Accounted(buckets, ips) <==> PromoteHasCover(State(old(buckets)[bi], old(ips)), last)))
    {
      hide DeleteHasCover, PromoteHasCover, Accounted, Keyspace.Place, Limited, Tally, Without, Charge, Refund, Dropped;
      ghost var buckets0, ips0 := buckets, ips;
      var b := buckets[bi];
      if b.entries == [] || b.entries[|b.entries| - 1].id != last.id {
        return None;
      }
      if b.replacements == [] {
        DeleteInBucket(bi, last);
        return None;
      }
      assert 0 <= 0 < |b.replacements|;
      var pick :| 0 <= pick < |b.replacements|;
      assert BucketOk(ks, bi, b);
      PromoteOk(ks, bi, b, pick);
      StructuredWith(ks, buckets, bi, PromotedBucket(b, pick));
      if Accounted(buckets, ips) {
        PromoteAccounts(ks, buckets, ips, bi, last, pick);
      }
      var replacements := DeleteNode(b.replacements, b.replacements[pick].id);
      buckets := buckets[bi := b.(replacements := replacements, entries := b.entries[|b.entries| - 1 := b.replacements[pick]])];
      RemoveIp(bi, last.ip);
      assert TableState(buckets, ips) == PromotedTable(TableState(buckets0, ips0), bi, last, pick);
      return Some(b.replacements[pick]);
    }
  }

  // ---------------------------------------------------------------- loops over a list

  method FindIndex(list: seq<Node>, id: NodeId) returns (i: nat)
    ensures i == IndexOf(list, id)
  {
    i := 0;
    while i < |list| && list[i].id != id
      invariant i <= |list| && forall j :: 0 <= j < i ==> list[j].id != id
    {
      i := i + 1;
    }
  }

  method DeleteNode(list: seq<Node>, id: NodeId) returns (r: seq<Node>)
    ensures r == Dropped(list, id)
  {
    for i := 0 to |list|
      invariant forall j :: 0 <= j < i ==> list[j].id != id
    {
      if list[i].id == id {
        return list[..i] + list[i + 1..];
      }
    }
    return list;
  }

  /** The node is first, the others keep their order, and no more than the last of them goes, to keep a full list its length. */
  method PushNode(list: seq<Node>, n: Node, max: nat) returns (r: seq<Node>, removed: Option<Node>)
    requires max > 0
    ensures r == PushedFront(list, n, max) && removed == PushedOut(list, max)
    ensures r[0] == n && r[1..] <= list && |r| == if |list| < max then |list| + 1 else |list|
    ensures removed.Some? <==> |list| >= max
    ensures list == r[1..] + if removed.Some? then [removed.value] else []
    ensures multiset(r) + (if removed.Some? then multiset{removed.value} else multiset{}) == multiset(list) + multiset{n}
  {
    if |list| >= max {
      assert list == list[..|list| - 1] + [list[|list| - 1]];
    }
    if |list| < max {
      return [n] + list, None;
    }
    return [n] + list[..|list| - 1], Some(list[|list| - 1]);
  }

  lemma {:induction false} EmptyTable(n: nat, k: Key)
    ensures Sum(seq(n, i => Bucket([], [], map[])), k) == 0
  {
    if n > 0 {
      EmptyTable(n - 1, k);
      assert seq(n, i => Bucket([], [], map[]))[1..] == seq(n - 1, i => Bucket([], [], map[]));
    }
  }

  // ---------------------------------------------------------------- runs with one address per ID

  ghost predicate AllAt(list: seq<Node>, addr: NodeId -> Ip) {
    forall j :: 0 <= j < |list| ==> list[j].ip == addr(list[j].id)
  }

  ghost predicate Settled(b: Bucket, addr: NodeId -> Ip) {
    AllAt(b.entries, addr) && AllAt(b.replacements, addr)
  }

  /** Every node that the table lists is listed under the one address its ID has. */
  ghost predicate Stable(buckets: seq<Bucket>, addr: NodeId -> Ip) {
    forall i :: 0 <= i < |buckets| ==> Settled(buckets[i], addr)
  }

  lemma DroppedAllAt(list: seq<Node>, id: NodeId, addr: NodeId -> Ip)
    requires AllAt(list, addr)
    ensures AllAt(Dropped(list, id), addr)
  {
  }

  lemma SettledChanges(b: Bucket, n: Node, addr: NodeId -> Ip)
    requires Settled(b, addr) && n.ip == addr(n.id)
    ensures IndexOf(b.entries, n.id) < |b.entries| ==> Settled(BumpedBucket(b, n), addr)
    ensures Settled(EnteredBucket(b, n), addr)
    ensures Settled(ReplacementBucket(b, n), addr)
    ensures Settled(DeletedBucket(b, n.id), addr)
  {
    hide IndexOf, Charge;
    DroppedAllAt(b.replacements, n.id, addr);
    DroppedAllAt(b.entries, n.id, addr);
  }

  lemma SettledPromotion(b: Bucket, pick: nat, addr: NodeId -> Ip)
    requires Settled(b, addr) && b.entries != [] && pick < |b.replacements|
    ensures Settled(PromotedBucket(b, pick), addr)
  {
    hide Dropped;
    DroppedAllAt(b.replacements, b.replacements[pick].id, addr);
  }

  lemma StableWith(buckets: seq<Bucket>, i: nat, b: Bucket, addr: NodeId -> Ip)
    requires Stable(buckets, addr) && i < |buckets| && Settled(b, addr)
    ensures Stable(buckets[i := b], addr)
  {
    hide Settled;
  }

  lemma StableCover(buckets: seq<Bucket>, ips: Counter, i: Index, n: Node, addr: NodeId -> Ip)
    requires |buckets| == N_BUCKETS && Stable(buckets, addr) && n.ip == addr(n.id) && Accounted(buckets, ips)
    ensures AddHasCover(buckets[i], n)
    ensures IndexOf(buckets[i].entries, n.id) < |buckets[i].entries| ==> DeleteHasCover(State(buckets[i], ips), n)
    ensures StillLast(buckets[i], n) ==> PromoteHasCover(State(buckets[i], ips), n)
  {
    hide Tally, Accounted, IsLan, Net, At, DeletedBucket;
    assert Settled(buckets[i], addr);
    if IndexOf(buckets[i].entries, n.id) < |buckets[i].entries| {
      PresentDeleteHasCover(buckets, ips, i, n);
    }
    CoveredAt(buckets, ips, i, Net(n.ip));
  }

  /** What the rest of the node asks of the table; `alive` is whether the node revalidated has answered. */
  datatype Request = Add(node: Node) | Stuff(nodes: seq<Node>) | Delete(node: Node) | Revalidate(bi: Index, last: Node, alive: bool)

  /** What a request does: an add bumps, enters or keeps in reserve; a revalidation bumps what is alive, and replaces what is not. */
  ghost predicate Served(ks: Keyspace, before: TableState, q: Request, after: TableState)
    requires |before.buckets| == N_BUCKETS
  {
    match q
    case Add(n) =>
      var bi := ks.Place(n.id);
      var s := State(before.buckets[bi], before.ips);
      InBucket(before, bi, if Enters(s, n) then BumpedOrAdded(s, n) else ReplacementAdded(s, n), after)
    case Stuff(nodes) => after == Stuffed(ks, before, nodes)
    case Delete(n) =>
      var bi := ks.Place(n.id);
      InBucket(before, bi, Removed(State(DeletedBucket(before.buckets[bi], n.id), before.ips), n.ip), after)
    case Revalidate(bi, last, alive) =>
      var b := before.buckets[bi];
      if alive then
        InBucket(before, bi, State(if IndexOf(b.entries, last.id) < |b.entries| then BumpedBucket(b, last) else b, before.ips), after)
      else if !StillLast(b, last) then after == before
      else if b.replacements == [] then
        InBucket(before, bi, Removed(State(DeletedBucket(b, last.id), before.ips), last.ip), after)
      else exists r :: Promoted(before, after, bi, last, r)
  }

  /** One bucket and the table's counters change. */
  ghost predicate InBucket(before: TableState, bi: Index, s: State, after: TableState)
    requires |before.buckets| == N_BUCKETS
  {
    after == TableState(before.buckets[bi := s.bucket], s.ips)
  }

  ghost predicate InRun(buckets: seq<Bucket>, ks: Keyspace, q: Request, addr: NodeId -> Ip)
    requires |buckets| == N_BUCKETS
  {
    match q
    case Add(n) => n.ip == addr(n.id)
    case Stuff(nodes) => AllAt(nodes, addr)
    case Delete(n) =>
      var entries := buckets[ks.Place(n.id)].entries;
      n.ip == addr(n.id) && IndexOf(entries, n.id) < |entries|
    case Revalidate(bi, last, _) => last.ip == addr(last.id) && ks.Place(last.id) == bi
  }

  lemma {:induction false} StuffedStable(ks: Keyspace, t: TableState, nodes: seq<Node>, addr: NodeId -> Ip)
    requires Structured(ks, t.buckets) && Limited(t.ips, TABLE_IP_LIMIT)
    requires Stable(t.buckets, addr) && Accounted(t.buckets, t.ips) && AllAt(nodes, addr)
    ensures var r := Stuffed(ks, t, nodes);
            && Structured(ks, r.buckets) && Limited(r.ips, TABLE_IP_LIMIT)
            && Stable(r.buckets, addr) && Accounted(r.buckets, r.ips)
  {
    hide Structured, Limited, Stable, Accounted, StuffedOne;
    StructuredSize(ks, t.buckets);
    if nodes != [] {
      StuffedStable(ks, t, nodes[..|nodes| - 1], addr);
      BumpOrAddStable(ks, Stuffed(ks, t, nodes[..|nodes| - 1]), nodes[|nodes| - 1], addr);
    }
  }

  lemma BumpOrAddStable(ks: Keyspace, t: TableState, n: Node, addr: NodeId -> Ip)
    requires Structured(ks, t.buckets) && Limited(t.ips, TABLE_IP_LIMIT)
    requires Stable(t.buckets, addr) && Accounted(t.buckets, t.ips) && n.ip == addr(n.id)
    ensures var r := StuffedOne(ks, t, n);
            && Structured(ks, r.buckets) && Limited(r.ips, TABLE_IP_LIMIT)
            && Stable(r.buckets, addr) && Accounted(r.buckets, r.ips)
  {
    hide Limited, Stable, Accounted, Tally, IsLan, Net, Settled, EnteredBucket, BumpedBucket, Charge, Keyspace.Place;
    var bi := ks.Place(n.id);
    var b := t.buckets[bi];
    assert BucketOk(ks, bi, b);
    assert Settled(b, addr) by { SettledAt(t.buckets, bi, addr); }
    SettledChanges(b, n, addr);
    if IndexOf(b.entries, n.id) < |b.entries| {
      BumpOk(ks, bi, b, n);
      StructuredWith(ks, t.buckets, bi, BumpedBucket(b, n));
      StableWith(t.buckets, bi, BumpedBucket(b, n), addr);
      StableCover(t.buckets, t.ips, bi, n, addr);
      BumpAccounts(t.buckets, t.ips, bi, n);
    } else if |b.entries| < BUCKET_SIZE && Room(t.ips, b, n.ip) {
      EnterOk(ks, bi, t.ips, b, n);
      StructuredWith(ks, t.buckets, bi, EnteredBucket(b, n));
      StableWith(t.buckets, bi, EnteredBucket(b, n), addr);
      EnterAccounts(ks, t.buckets, t.ips, bi, n);
      LimitedAfterCharge(t.ips, b, n.ip);
    } else {
      assert t.buckets[bi := b] == t.buckets;
    }
  }

  lemma SettledAt(buckets: seq<Bucket>, i: nat, addr: NodeId -> Ip)
    requires Stable(buckets, addr) && i < |buckets|
    ensures Settled(buckets[i], addr)
  {
  }

  /**
   As long as every ID keeps one address and only entries are deleted, no request makes a counter
   wrong, whichever of its effects it has, so by `BucketRange` and `TableRange` no range ever exceeds its two limits.
   */
  method Serve(t: Table, q: Request, ghost addr: NodeId -> Ip)
    requires t.Valid() && Stable(t.buckets, addr) && Accounted(t.buckets, t.ips)
    requires InRun(t.buckets, t.ks, q, addr)
    modifies t
    ensures t.Valid() && Stable(t.buckets, addr) && Accounted(t.buckets, t.ips)
    ensures Served(t.ks, TableState(old(t.buckets), old(t.ips)), q, TableState(t.buckets, t.ips))
  {
    hide Structured, Limited, Stable, Accounted, BumpedOrAdded, ReplacementAdded, Removed, Enters, Settled, AllAt,
      AddHasCover, DeleteHasCover, PromoteHasCover, Keyspace.Place, PromotedBucket, DeletedBucket, BumpedBucket;
    ghost var start, ips := t.buckets, t.ips;
    assert |start| == N_BUCKETS by { StructuredSize(t.ks, start); }
    match q {
      case Add(n) => {
        var bi := t.ks.Place(n.id);
        StableCover(start, ips, bi, n, addr);
        SettledAt(start, bi, addr);
        AddSettled(State(start[bi], ips), n, addr);
        t.Add(n);
        StableWith(start, bi, t.buckets[bi], addr);
      }
      case Stuff(nodes) => {
        StuffedStable(t.ks, TableState(start, ips), nodes, addr);
        t.Stuff(nodes);
      }
      case Delete(n) => {
        var bi := t.ks.Place(n.id);
        StableCover(start, ips, bi, n, addr);
        SettledAt(start, bi, addr);
        DeleteSettled(State(start[bi], ips), n, addr);
        t.Delete(n);
        StableWith(start, bi, t.buckets[bi], addr);
      }
      case Revalidate(bi, last, alive) => {
        StableCover(start, ips, bi, last, addr);
        SettledAt(start, bi, addr);
        if alive {
          SettledChanges(start[bi], last, addr);
          var bumped := t.Bump(bi, last);
          if bumped {
            StableWith(start, bi, t.buckets[bi], addr);
          }
        } else {
          if StillLast(start[bi], last) {
            DeleteSettled(State(start[bi], ips), last, addr);
            LastIsListed(start[bi], last);
          }
          var _ := t.Replace(bi, last);
          if StillLast(start[bi], last) {
            if start[bi].replacements == [] {
              StableWith(start, bi, t.buckets[bi], addr);
            } else {
              PromotionStable(TableState(start, ips), TableState(t.buckets, t.ips), bi, last, addr);
            }
          }
        }
      }
    }
  }

  lemma StructuredSize(ks: Keyspace, buckets: seq<Bucket>)
    requires Structured(ks, buckets)
    ensures |buckets| == N_BUCKETS
  {
  }

  lemma LastIsListed(b: Bucket, last: Node)
    requires StillLast(b, last)
    ensures IndexOf(b.entries, last.id) < |b.entries|
  {
  }

  lemma AddSettled(s: State, n: Node, addr: NodeId -> Ip)
    requires Settled(s.bucket, addr) && n.ip == addr(n.id)
    ensures Settled((if Enters(s, n) then BumpedOrAdded(s, n) else ReplacementAdded(s, n)).bucket, addr)
  {
    hide Room, BumpedBucket, EnteredBucket, ReplacementBucket, IndexOf;
    SettledChanges(s.bucket, n, addr);
  }

  lemma DeleteSettled(s: State, n: Node, addr: NodeId -> Ip)
    requires Settled(s.bucket, addr) && n.ip == addr(n.id)
    ensures Settled(Removed(State(DeletedBucket(s.bucket, n.id), s.ips), n.ip).bucket, addr)
  {
    hide DeletedBucket;
    SettledChanges(s.bucket, n, addr);
  }

  lemma PromotionStable(before: TableState, after: TableState, bi: Index, last: Node, addr: NodeId -> Ip)
    requires |before.buckets| == N_BUCKETS && before.buckets[bi].entries != []
    requires Stable(before.buckets, addr) && exists r :: Promoted(before, after, bi, last, r)
    ensures Stable(after.buckets, addr)
  {
    hide PromotedBucket, Stable;
    var r :| Promoted(before, after, bi, last, r);
    var b := before.buckets[bi];
    var pick :| 0 <= pick < |b.replacements| && r == Some(b.replacements[pick])
      && after == PromotedTable(before, bi, last, pick);
    SettledAt(before.buckets, bi, addr);
    SettledPromotion(b, pick, addr);
    StableWith(before.buckets, bi, after.buckets[bi], addr);
  }
}
