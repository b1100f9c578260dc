/**
 The discovery v5 node table (`p2p/discv5/table.go`): one bucket per logarithmic distance, each a
 list of entries with the most recently active first, and replacements appended as they come.
 */
module Table5 {
  import opened Collections

  type NodeId = nat

  const BUCKET_SIZE := 16
  const N_BUCKETS := 257

  type Index = i: nat | i < N_BUCKETS

  datatype Bucket = Bucket(entries: seq<NodeId>, replacements: seq<NodeId>)

  function Total(buckets: seq<Bucket>): (n: nat) {
    if buckets == [] then 0 else |buckets[0].entries| + Total(buckets[1..])
  }

  lemma {:induction false} TotalUpdated(buckets: seq<Bucket>, i: nat, b: Bucket)
    requires i < |buckets|
    ensures Total(buckets[i := b]) == Total(buckets) - |buckets[i].entries| + |b.entries|
  {
    if i > 0 {
      TotalUpdated(buckets[1..], i - 1, b);
      assert buckets[i := b][1..] == buckets[1..][i - 1 := b];
    } else {
      assert buckets[i := b][1..] == buckets[1..];
    }
  }

  lemma {:induction false} TotalOfEmpty(n: nat)
    ensures Total(seq(n, i => Bucket([], []))) == 0
  {
    if n > 0 {
      TotalOfEmpty(n - 1);
      assert seq(n, i => Bucket([], []))[1..] == seq(n - 1, i => Bucket([], []));
    }
  }

  ghost predicate Sized(buckets: seq<Bucket>) {
    && |buckets| == N_BUCKETS
    && forall b :: b in buckets ==> |b.entries| <= BUCKET_SIZE && |b.replacements| <= BUCKET_SIZE
  }

  /** The nodes a table refers to, as entries or as replacements. */
  ghost predicate Within(buckets: seq<Bucket>, ids: set<NodeId>) {
    forall b :: b in buckets ==> (forall n :: n in b.entries ==> n in ids) && (forall n :: n in b.replacements ==> n in ids)
  }

  lemma BucketReplaced(buckets: seq<Bucket>, i: nat, b: Bucket, ids: set<NodeId>)
    requires Sized(buckets) && Within(buckets, ids) && i < |buckets|
    requires |b.entries| <= BUCKET_SIZE && |b.replacements| <= BUCKET_SIZE
    requires (forall n :: n in b.entries ==> n in ids) && (forall n :: n in b.replacements ==> n in ids)
    ensures Sized(buckets[i := b]) && Within(buckets[i := b], ids)
    ensures Total(buckets[i := b]) == Total(buckets) - |buckets[i].entries| + |b.entries|
  {
    TotalUpdated(buckets, i, b);
    forall c | c in buckets[i := b] ensures c == b || c in buckets {
    }
  }

  lemma WithoutCounts(s: seq<NodeId>, i: nat)
    requires i < |s|
    ensures multiset(Without(s, i)) + multiset{s[i]} == multiset(s)
  {
    assert s == s[..i] + [s[i]] + s[i + 1..];
  }

  /** `bump`: the same entries with `n` in front. */
  ghost predicate Bumped(before: seq<NodeId>, after: seq<NodeId>, n: NodeId) {
    && after != [] && after[0] == n
    && exists i :: 0 <= i < |before| && before[i] == n && after[1..] == Without(before, i)
  }

  /** What `add` makes of a bucket, and whom it wants revalidated. */
  ghost predicate Added(before: Bucket, after: Bucket, n: NodeId, self: NodeId, contested: Option<NodeId>) {
    if n == self then after == before && contested == None
    else if n in before.entries then
      after.replacements == before.replacements && Bumped(before.entries, after.entries, n) && contested == None
    else if |before.entries| < BUCKET_SIZE then
      after == Bucket([n] + before.entries, before.replacements) && contested == None
    else
      && after == Bucket(before.entries, Recent(before.replacements + [n]))
      && contested == Some(before.entries[|before.entries| - 1])
  }

  /** What `delete` makes of a bucket: one entry of `n`, if there is one, is gone. */
  ghost predicate Deleted(before: Bucket, after: Bucket, n: NodeId) {
    if n in before.entries then
      after.replacements == before.replacements && multiset(after.entries) + multiset{n} == multiset(before.entries)
    else after == before
  }

  /** At most the sixteen latest. */
  function Recent(replacements: seq<NodeId>): seq<NodeId> {
    if |replacements| > BUCKET_SIZE then replacements[1..] else replacements
  }

  function Dropped(s: seq<NodeId>, n: NodeId): (r: seq<NodeId>)
    ensures |r| <= |s| && n !in r
  {
    if s == [] then [] else (if s[0] == n then [] else [s[0]]) + Dropped(s[1..], n)
  }

  function Refilled(entries: seq<NodeId>, replacements: seq<NodeId>): Bucket {
    var ri := |replacements| - 1;
    if |entries| < BUCKET_SIZE && ri >= 0 then Bucket([replacements[ri]] + entries, replacements[..ri])
    else Bucket(entries, replacements)
  }

  lemma BumpKeepsEntries(before: seq<NodeId>, after: seq<NodeId>, n: NodeId)
    requires Bumped(before, after, n)
    ensures multiset(after) == multiset(before)
    ensures Distinct(before) ==> Distinct(after)
  {
    var i :| 0 <= i < |before| && before[i] == n && after[1..] == Without(before, i);
    WithoutCounts(before, i);
    assert after == [n] + Without(before, i);
    if Distinct(before) {
      MovedDistinct(before, i);
    }
  }

  lemma MovedDistinct(before: seq<NodeId>, i: nat)
    requires i < |before| && Distinct(before)
    ensures Distinct([before[i]] + Without(before, i))
  {
    var after := [before[i]] + Without(before, i);
    assert |after| == |before|;
    assert forall k :: 0 <= k < |after| ==> after[k] == before[Origin(i, k)];
    forall j, k | 0 <= j < k < |after| ensures after[j] != after[k] {
      DistinctSlots(before, Origin(i, j), Origin(i, k));
    }
  }

  lemma DistinctSlots(s: seq<NodeId>, j: nat, k: nat)
    requires Distinct(s) && j < |s| && k < |s| && j != k
    ensures s[j] != s[k]
  {
  }

  /** The slot that slot `k` came from when slot `i` was moved to the front. */
  function Origin(i: nat, k: nat): nat {
    if k == 0 then i else if k <= i then k - 1 else k
  }

  /**
   Replacements may repeat a node, so a refill can bring in a node that is an entry already: it
   leaves the entries free of repetitions exactly if the replacement it takes is not one of them.
   */
  lemma RefillRepeats(entries: seq<NodeId>, replacements: seq<NodeId>)
    requires Distinct(entries)
    ensures Distinct(Refilled(entries, replacements).entries) <==>
              !(|entries| < BUCKET_SIZE && |replacements| > 0 && replacements[|replacements| - 1] in entries)
  {
    var after := Refilled(entries, replacements).entries;
    if |entries| < BUCKET_SIZE && |replacements| > 0 {
      var r := replacements[|replacements| - 1];
      if r in entries {
        var k :| 0 <= k < |entries| && entries[k] == r;
        assert after[0] == after[k + 1];
      }
      assert after[1..] == entries;
      forall j, k | r !in entries && 0 <= j < k < |after| ensures after[j] != after[k] {
        assert after[k] == entries[k - 1];
      }
    }
  }

  lemma {:induction false} DroppedKeeps(s: seq<NodeId>, n: NodeId)
    ensures forall m :: m in Dropped(s, n) <==> m in s && m != n
    ensures n in s ==> |Dropped(s, n)| < |s|
  {
    if s != [] {
      DroppedKeeps(s[1..], n);
      assert forall m :: m in s <==> m == s[0] || m in s[1..];
    }
  }

  lemma RemovalStep(s: seq<NodeId>, i: nat, n: NodeId)
    requires i < |s|
    ensures s[i] == n ==> Without(s, i)[..i] + Dropped(Without(s, i)[i..], n) == s[..i] + Dropped(s[i..], n)
    ensures s[i] != n ==> s[..i + 1] + Dropped(s[i + 1..], n) == s[..i] + Dropped(s[i..], n)
  {
    var tail := s[i..];
    assert tail[1..] == s[i + 1..];
    assert Without(s, i)[..i] == s[..i] && Without(s, i)[i..] == tail[1..];
    assert s[..i] + ([tail[0]] + Dropped(tail[1..], n)) == s[..i + 1] + Dropped(tail[1..], n);
  }

  class Table {
    const self: NodeId
    const distance: NodeId -> Index
    var count: int
    var buckets: seq<Bucket>
    ghost var ids: set<NodeId>  // the interned nodes, the only ones the table may refer to

    ghost predicate Valid()
      reads this
    {
      Sized(buckets) && Within(buckets, ids) && count == Total(buckets)
    }

    constructor (self: NodeId, distance: NodeId -> Index)
      ensures Valid() && count == 0 && ids == {} && this.self == self && this.distance == distance
      ensures |buckets| == N_BUCKETS && forall i :: 0 <= i < N_BUCKETS ==> buckets[i] == Bucket([], [])
    {
      this.self, this.distance, count, ids := self, distance, 0, {};
      buckets := seq(N_BUCKETS, i => Bucket([], []));
      TotalOfEmpty(N_BUCKETS);
    }

    /** From now on the table may refer to `n`. */
    ghost method Allow(n: NodeId)
      requires Valid()
      modifies this`ids
      ensures Valid() && ids == old(ids) + {n}
    {
      ids := ids + {n};
    }

    /** Where `n` sits in its bucket's entries, or their number if it does not. */
    method Find(n: NodeId) returns (i: nat)
      requires Valid()
      ensures var entries := buckets[distance(n)].entries;
              i <= |entries| && n !in entries[..i] && (i < |entries| ==> entries[i] == n)
    {
      var entries := buckets[distance(n)].entries;
      i := 0;
      while i < |entries| && entries[i] != n
        invariant i <= |entries| && n !in entries[..i]
      {
        i := i + 1;
      }
    }

    /** Moves or inserts `n` at the front of its bucket; of a full bucket the last entry is returned for revalidation. */
    method Add(n: NodeId) returns (contested: Option<NodeId>)
      requires Valid() && n in ids
      modifies this`buckets, this`count
      ensures Valid() && (contested.Some? ==> contested.value != n && contested.value in ids)
      ensures buckets == old(buckets)[distance(n) := buckets[distance(n)]]
      ensures Added(old(buckets)[distance(n)], buckets[distance(n)], n, self, contested)
    {
      contested := None;
      if n == self {
        return;
      }
      var d := distance(n);
      var b := buckets[d];
      var i := Find(n);
      if i < |b.entries| {
        b := b.(entries := [n] + Without(b.entries, i));
      } else if |b.entries| < BUCKET_SIZE {
        b := b.(entries := [n] + b.entries);
        count := count + 1;
      } else {
        b := b.(replacements := b.replacements + [n]);
        if |b.replacements| > BUCKET_SIZE {
          b := b.(replacements := b.replacements[1..]);
        }
        contested := Some(b.entries[|b.entries| - 1]);
      }
      BucketReplaced(buckets, d, b, ids);
      buckets := buckets[d := b];
    }

    /** Appends a node to its bucket unless it is there or the bucket is full: one round of `stuff`. */
    method StuffOne(n: NodeId)
      requires Valid() && n in ids
      modifies this`buckets, this`count
      ensures Valid()
      ensures var b := old(buckets)[distance(n)];
              buckets == if n == self || n in b.entries || |b.entries| >= BUCKET_SIZE then old(buckets)
                         else old(buckets)[distance(n) := b.(entries := b.entries + [n])]
    {
      var d := distance(n);
      var b := buckets[d];
      var i := Find(n);
      if n == self || i < |b.entries| {
        return;
      }
      if |b.entries| < BUCKET_SIZE {
        b := b.(entries := b.entries + [n]);
        BucketReplaced(buckets, d, b, ids);
        buckets := buckets[d := b];
        count := count + 1;
      }
    }

    method Delete(n: NodeId)
      requires Valid()
      modifies this`buckets, this`count
      ensures Valid()
      ensures buckets == old(buckets)[distance(n) := buckets[distance(n)]]
      ensures Deleted(old(buckets)[distance(n)], buckets[distance(n)], n)
    {
      var d := distance(n);
      var b := buckets[d];
      var i := Find(n);
      if i < |b.entries| {
        WithoutCounts(b.entries, i);
        b := b.(entries := Without(b.entries, i));
        BucketReplaced(buckets, d, b, ids);
        buckets := buckets[d := b];
        count := count - 1;
      }
    }

    method RemoveAll(all: seq<NodeId>, n: NodeId) returns (entries: seq<NodeId>, removed: nat)
      ensures entries == Dropped(all, n) && removed == |all| - |entries|
      ensures forall m :: m in entries ==> m in all
    {
      entries, removed := all, 0;
      var i := 0;
      while i < |entries|
        invariant i <= |entries| && removed == |all| - |entries|
        invariant entries[..i] + Dropped(entries[i..], n) == Dropped(all, n)
        invariant forall m :: m in entries ==> m in all
        decreases |entries| - i
      {
        RemovalStep(entries, i, n);
        if entries[i] == n {
          entries, removed := Without(entries, i), removed + 1;
        } else {
          i := i + 1;
        }
      }
      assert entries[..i] == entries;
    }

    /** Drops every entry of `n` and, if there is room then, brings in the latest replacement. */
    method DeleteReplace(n: NodeId)
      requires Valid()
      modifies this`buckets, this`count
      ensures Valid()
      ensures var old_b := old(buckets)[distance(n)];
              buckets == old(buckets)[distance(n) := Refilled(Dropped(old_b.entries, n), old_b.replacements)]
    {
      var d := distance(n);
      var b := buckets[d];
      var left, removed := RemoveAll(b.entries, n);
      b := b.(entries := left);
      var c := count - removed;
      if |b.entries| < BUCKET_SIZE && |b.replacements| > 0 {
        var ri := |b.replacements| - 1;
        b := Bucket([b.replacements[ri]] + b.entries, b.replacements[..ri]);
        c := c + 1;
      }
      BucketReplaced(buckets, d, b, ids);
      buckets, count := buckets[d := b], c;
    }
  }

  /** A table of sixteen nodes, all in one bucket. */
  method FillBucket(d: Index) returns (t: Table)
    ensures fresh(t) && t.Valid() && t.self == 0 && (forall n :: t.distance(n) == d) && |t.buckets| == N_BUCKETS
    ensures t.buckets[d].replacements == [] && |t.buckets[d].entries| == BUCKET_SIZE
    ensures forall m :: m in t.buckets[d].entries <==> 1 <= m <= BUCKET_SIZE
  {
    hide Sized, Within, Total, Bumped;
    var same: NodeId -> Index := _ => d;
    t := new Table(0, same);
    var n := 1;
    while n <= BUCKET_SIZE
      invariant 1 <= n <= BUCKET_SIZE + 1 && fresh(t) && t.Valid() && t.self == 0 && t.distance == same && |t.buckets| == N_BUCKETS
      invariant t.buckets[d].replacements == [] && |t.buckets[d].entries| == n - 1
      invariant forall m :: m in t.buckets[d].entries <==> 1 <= m < n
    {
      t.Allow(n);
      var _ := t.Add(n);
      n := n + 1;
    }
  }

  /** Two entries go from a full bucket that has one node twice as a replacement: that node is entered twice. */
  method DeleteTwo(t: Table, d: Index, n: NodeId)
    requires t.Valid() && |t.buckets| == N_BUCKETS && (forall m :: t.distance(m) == d) && n != 1 && n != 2
    requires |t.buckets[d].entries| == BUCKET_SIZE && 1 in t.buckets[d].entries && 2 in t.buckets[d].entries
    requires t.buckets[d].replacements == [n, n]
    modifies t`buckets, t`count
    ensures t.Valid() && |t.buckets| == N_BUCKETS && !Distinct(t.buckets[d].entries)
  {
    hide Sized, Within, Total, Dropped;
    ghost var entries := t.buckets[d].entries;
    DroppedKeeps(entries, 1);
    t.DeleteReplace(1);
    ghost var once := [n] + Dropped(entries, 1);
    assert t.buckets[d] == Bucket(once, [n]);
    DroppedKeeps(once, 2);
    t.DeleteReplace(2);
    InFrontAgain(n, Dropped(once, 2));
  }

  lemma InFrontAgain(n: NodeId, s: seq<NodeId>)
    requires n in s
    ensures !Distinct([n] + s)
  {
    var k :| 0 <= k < |s| && s[k] == n;
    assert ([n] + s)[0] == ([n] + s)[k + 1];
  }

  /** A node that is added twice while its bucket is full is recorded twice, and entered twice when two entries go. */
  method RefillRepeatsExample() returns (t: Table)
    ensures t.Valid() && |t.buckets| == N_BUCKETS && !Distinct(t.buckets[5].entries)
  {
    hide Sized, Within, Total, Bumped;
    t := FillBucket(5);
    t.Allow(17);
    var _ := t.Add(17);
    var _ := t.Add(17);
    DeleteTwo(t, 5, 17);
  }
}
