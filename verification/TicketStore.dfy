/**
 The discovery v5 ticket store (`p2p/discv5/ticket.go`): waiting tickets filed per topic in
 one-minute buckets, found again by a scan that starts at a moving lower bound, with the next
 ticket cached and every ticket counting its own references.

 Times are in nanoseconds and each operation reads the clock once; the radius estimation, which
 computes in floating point, is not part of this model.
 */
module Tickets {
  import opened Collections

  type Topic = string
  type NodeId = nat

  const SECOND := 1_000_000_000
  const TICKET_TIME_BUCKET_LEN := 60 * SECOND
  const COLLECT_FREQUENCY := 30 * SECOND
  const REGISTER_FREQUENCY := 60 * SECOND
  const MAX_COLLECT_DEBT := 10
  const MAX_REGISTER_DEBT := 5
  const RADIUS_TC := 20 * 60 * SECOND

  class Ticket {
    const topics: seq<Topic>
    const regTime: seq<int>
    const node: NodeId
    var refCnt: int

    constructor (topics: seq<Topic>, regTime: seq<int>, node: NodeId)
      ensures this.topics == topics && this.regTime == regTime && this.node == node && refCnt == 0
    {
      this.topics, this.regTime, this.node, refCnt := topics, regTime, node, 0;
    }
  }

  /** The integer division of the source truncates towards zero. */
  function TimeBucket(t: int): int {
    if t >= 0 then t / TICKET_TIME_BUCKET_LEN else -(-t / TICKET_TIME_BUCKET_LEN)
  }

  lemma TimeBucketMonotone(s: int, t: int)
    requires s <= t
    ensures TimeBucket(s) <= TimeBucket(t)
  {
  }

  datatype TicketRef = TicketRef(t: Ticket, idx: nat) {
    ghost predicate WellFormed() {
      idx < |t.topics| && |t.regTime| == |t.topics|
    }

    function Topic(): Topic
      requires idx < |t.topics|
    {
      t.topics[idx]
    }

    function RegTime(): int
      requires idx < |t.regTime|
    {
      t.regTime[idx]
    }

    function Bucket(): int
      requires idx < |t.regTime|
    {
      TimeBucket(t.regTime[idx])
    }
  }

  datatype TopicTickets = TopicTickets(buckets: map<int, seq<TicketRef>>, nextLookup: int, nextReg: int)
  datatype ReqInfo = ReqInfo(pingHash: seq<bv8>, topic: Topic, radiusLookup: bool, time: int)

  type Calendar = map<Topic, TopicTickets>

  // ---------------------------------------------------------------- the calendar and the stored references

  /** Every stored reference is where its topic and its registration time say. */
  ghost predicate Filed(tickets: Calendar, refs: set<TicketRef>) {
    forall r :: r in refs ==>
      && r.WellFormed() && r.Topic() in tickets
      && r.Bucket() in tickets[r.Topic()].buckets && r in tickets[r.Topic()].buckets[r.Bucket()]
  }

  /** No list is empty or repeats a reference, and the lists hold nothing else. */
  ghost predicate Exact(tickets: Calendar, refs: set<TicketRef>) {
    forall topic, b :: topic in tickets && b in tickets[topic].buckets ==>
      var list := tickets[topic].buckets[b];
      && |list| > 0 && Distinct(list)
      && forall r :: r in list ==> r in refs && r.WellFormed() && r.Topic() == topic && r.Bucket() == b
  }

  /** `nodes` is exactly the nodes owning a stored ticket, and each such ticket is stored once. */
  ghost predicate Owned(nodes: map<NodeId, Ticket>, refs: set<TicketRef>) {
    && (forall r :: r in refs ==> r.t.node in nodes && nodes[r.t.node] == r.t)
    && (forall r, s :: r in refs && s in refs && r.t == s.t ==> r == s)
    && (forall n :: n in nodes ==> nodes[n].node == n && exists r :: r in refs && r.t == nodes[n])
  }

  ghost function RefsOf(refs: set<TicketRef>, t: Ticket): set<TicketRef> {
    set r | r in refs && r.t == t
  }

  ghost predicate Counted(refs: set<TicketRef>)
    reads set r | r in refs :: r.t
  {
    forall r :: r in refs ==> r.t.refCnt == |RefsOf(refs, r.t)|
  }

  ghost predicate Bounded(refs: set<TicketRef>, lowest: int) {
    forall r :: r in refs ==> r.WellFormed() && lowest <= r.Bucket()
  }

  ghost predicate Least(refs: set<TicketRef>, r: TicketRef) {
    && r in refs && r.WellFormed()
    && forall s :: s in refs ==> s.WellFormed() && r.RegTime() <= s.RegTime()
  }

  /** The list a reference belongs to; an absent bucket reads as an empty list. */
  function ListOf(tickets: Calendar, topic: Topic, b: int): seq<TicketRef> {
    if topic in tickets && b in tickets[topic].buckets then tickets[topic].buckets[b] else []
  }

  function WithRef(tickets: Calendar, r: TicketRef, nextLookup: int): Calendar
    requires r.WellFormed() && r.Topic() in tickets
  {
    var tt := tickets[r.Topic()];
    tickets[r.Topic() := tt.(buckets := tt.buckets[r.Bucket() := ListOf(tickets, r.Topic(), r.Bucket()) + [r]],
                             nextLookup := nextLookup)]
  }

  function WithList(tickets: Calendar, topic: Topic, b: int, list: seq<TicketRef>): Calendar
    requires topic in tickets
  {
    var tt := tickets[topic];
    tickets[topic := tt.(buckets := if |list| != 0 then tt.buckets[b := list] else tt.buckets - {b})]
  }

  lemma RefFiled(tickets: Calendar, refs: set<TicketRef>, r: TicketRef, nextLookup: int)
    requires Filed(tickets, refs) && Exact(tickets, refs) && r !in refs && r.WellFormed() && r.Topic() in tickets
    ensures Filed(WithRef(tickets, r, nextLookup), refs + {r}) && Exact(WithRef(tickets, r, nextLookup), refs + {r})
  {
    var after := WithRef(tickets, r, nextLookup);
    var list := ListOf(tickets, r.Topic(), r.Bucket());
    assert r !in list;
    forall s | s in refs + {r} ensures s in ListOf(after, s.Topic(), s.Bucket()) {
      if s == r {
        assert (list + [r])[|list|] == r;
      }
    }
  }

  lemma RefUnfiled(tickets: Calendar, refs: set<TicketRef>, r: TicketRef, i: nat)
    requires Filed(tickets, refs) && Exact(tickets, refs) && r in refs
    requires i < |ListOf(tickets, r.Topic(), r.Bucket())| && ListOf(tickets, r.Topic(), r.Bucket())[i] == r
    ensures var after := WithList(tickets, r.Topic(), r.Bucket(), Without(ListOf(tickets, r.Topic(), r.Bucket()), i));
            Filed(after, refs - {r}) && Exact(after, refs - {r})
  {
    hide Distinct;
    var list := ListOf(tickets, r.Topic(), r.Bucket());
    WithoutIsRest(list, i);
    forall s | s in Without(list, i) ensures s in refs - {r} && s.Topic() == r.Topic() && s.Bucket() == r.Bucket() {
      assert s in list;
    }
  }

  lemma TopicUnfiled(tickets: Calendar, refs: set<TicketRef>, topic: Topic)
    requires Filed(tickets, refs) && Exact(tickets, refs)
    ensures var left := set r | r in refs && r.Topic() != topic;
            Filed(tickets - {topic}, left) && Exact(tickets - {topic}, left)
  {
  }

  lemma SomeMember<T>(s: set<T>) returns (x: T)
    requires s != {}
    ensures x in s
  {
    x :| x in s;
  }

  lemma LeastIsStored(refs: set<TicketRef>, r: TicketRef)
    ensures Least(refs, r) ==> r in refs
  {
  }

  lemma SomeKey<K, V>(m: map<K, V>) returns (k: K)
    requires |m| != 0
    ensures k in m
  {
    assert m.Keys != {};
    k :| k in m.Keys;
  }

  /** The scan's emptiness test: no topic has a bucket iff nothing is stored. */
  lemma EmptyCalendar(tickets: Calendar, refs: set<TicketRef>)
    requires Filed(tickets, refs) && Exact(tickets, refs)
    ensures refs == {} <==> forall topic :: topic in tickets ==> |tickets[topic].buckets| == 0
  {
    if topic :| topic in tickets && |tickets[topic].buckets| != 0 {
      var b := SomeKey(tickets[topic].buckets);
      assert tickets[topic].buckets[b][0] in refs;
    }
    if r :| r in refs {
      assert r.Bucket() in tickets[r.Topic()].buckets;
    }
  }

  /** The scan that starts at `lowest` comes to an end. */
  ghost predicate ScanEnds(refs: set<TicketRef>, lowest: int) {
    refs == {} || exists r :: r in refs && r.WellFormed() && lowest <= r.Bucket()
  }

  ghost predicate Earliest(refs: set<TicketRef>, lowest: int, r: TicketRef) {
    && r in refs && r.WellFormed() && lowest <= r.Bucket()
    && forall s :: s in refs && s.WellFormed() && lowest <= s.Bucket() ==> r.RegTime() <= s.RegTime()
  }

  /**
   It comes to an end exactly if every round finds all topics without buckets, or some round finds one of its own.
   Otherwise every round, from `lowest` on, finds tickets in other buckets only, and goes on.
   */
  lemma ScanEndsExactly(tickets: Calendar, refs: set<TicketRef>, lowest: int)
    requires Filed(tickets, refs) && Exact(tickets, refs)
    ensures ScanEnds(refs, lowest) <==>
              || (forall topic :: topic in tickets ==> |tickets[topic].buckets| == 0)
              || exists topic, b :: topic in tickets && b in tickets[topic].buckets && lowest <= b
  {
    EmptyCalendar(tickets, refs);
    if r :| r in refs && r.WellFormed() && lowest <= r.Bucket() {
      assert r.Bucket() in tickets[r.Topic()].buckets;
    }
    if topic, b :| topic in tickets && b in tickets[topic].buckets && lowest <= b {
      assert tickets[topic].buckets[b][0] in refs;
    }
  }

  /** With a true lower bound the scan ends, and what is earliest from it on is the earliest of all. */
  lemma BoundedScan(refs: set<TicketRef>, lowest: int)
    requires Bounded(refs, lowest)
    ensures ScanEnds(refs, lowest)
    ensures forall r :: Earliest(refs, lowest, r) <==> Least(refs, r)
  {
    if r :| r in refs {
      assert lowest <= r.Bucket();
    }
  }

  lemma OnlyRef(refs: set<TicketRef>, r: TicketRef)
    requires r in refs && forall s :: s in refs && s.t == r.t ==> s == r
    ensures |RefsOf(refs, r.t)| == 1
  {
    assert RefsOf(refs, r.t) == {r};
  }

  lemma BucketThenTime(refs: set<TicketRef>, r: TicketRef, lowest: int)
    requires r in refs && r.WellFormed() && lowest <= r.Bucket()
    requires forall s :: s in refs ==> s.WellFormed() && (lowest <= s.Bucket() ==> r.Bucket() <= s.Bucket())
    requires forall s :: s in refs && s.WellFormed() && s.Bucket() == r.Bucket() ==> r.RegTime() <= s.RegTime()
    ensures Earliest(refs, lowest, r)
  {
    forall s | s in refs && lowest <= s.Bucket() ensures r.RegTime() <= s.RegTime() {
      if s.RegTime() <= r.RegTime() {
        TimeBucketMonotone(s.RegTime(), r.RegTime());
      }
    }
  }

  lemma OwnedWithout(nodes: map<NodeId, Ticket>, refs: set<TicketRef>, r: TicketRef)
    requires Owned(nodes, refs) && r in refs
    ensures Owned(nodes - {r.t.node}, refs - {r}) && r.t.node in nodes
    ensures |RefsOf(refs, r.t)| == 1
    ensures forall s :: s in refs - {r} ==> s.t != r.t && RefsOf(refs, s.t) == RefsOf(refs - {r}, s.t)
  {
    OnlyRef(refs, r);
    forall s | s in refs - {r} ensures s.t.node != r.t.node && RefsOf(refs, s.t) == RefsOf(refs - {r}, s.t) {
    }
    forall n | n in nodes - {r.t.node} ensures exists s :: s in refs - {r} && s.t == nodes[n] {
      var s :| s in refs && s.t == nodes[n];
      assert s in refs - {r};
    }
  }

  lemma OwnedWith(nodes: map<NodeId, Ticket>, refs: set<TicketRef>, r: TicketRef)
    requires Owned(nodes, refs) && r.t.node !in nodes
    ensures Owned(nodes[r.t.node := r.t], refs + {r})
    ensures |RefsOf(refs + {r}, r.t)| == 1
    ensures forall s :: s in refs ==> s.t != r.t && RefsOf(refs, s.t) == RefsOf(refs + {r}, s.t)
  {
    var after := nodes[r.t.node := r.t];
    OnlyRef(refs + {r}, r);
    forall s | s in refs ensures s.t != r.t && RefsOf(refs, s.t) == RefsOf(refs + {r}, s.t) {
    }
    forall n | n in after ensures exists s :: s in refs + {r} && s.t == after[n] {
      if n == r.t.node {
        assert r in refs + {r};
      } else {
        var s :| s in refs && s.t == nodes[n];
        assert s in refs + {r};
      }
    }
  }

  /** The slot of a stored reference in its list. */
  lemma SlotOf(tickets: Calendar, nodes: map<NodeId, Ticket>, refs: set<TicketRef>, r: TicketRef) returns (i: nat)
    requires Filed(tickets, refs) && Exact(tickets, refs) && Owned(nodes, refs) && r in refs
    ensures var list := ListOf(tickets, r.Topic(), r.Bucket());
            i < |list| && list[i] == r && forall k :: 0 <= k < |list| && list[k].t == r.t ==> k == i
  {
    var list := ListOf(tickets, r.Topic(), r.Bucket());
    i :| 0 <= i < |list| && list[i] == r;
    forall k | 0 <= k < |list| && list[k].t == r.t ensures k == i {
      assert list[k] in refs;
    }
  }

  lemma SomeBucket(refs: set<TicketRef>, lowest: int) returns (b: int)
    requires ScanEnds(refs, lowest)
    ensures refs != {} ==> lowest <= b && exists r :: r in refs && r.WellFormed() && r.Bucket() == b
  {
    b := lowest;
    if refs != {} {
      var r :| r in refs && r.WellFormed() && lowest <= r.Bucket();
      b := r.Bucket();
    }
  }

  /** `nextReg` is a debt counter: it never falls more than five registrations behind the clock. */
  function NextReg(nextReg: int, now: int): (r: int)
    ensures r >= nextReg + REGISTER_FREQUENCY && r >= now - 4 * REGISTER_FREQUENCY
    ensures r == nextReg + REGISTER_FREQUENCY || r == now - 4 * REGISTER_FREQUENCY
  {
    var min := now - REGISTER_FREQUENCY * MAX_REGISTER_DEBT;
    (if min > nextReg then min else nextReg) + REGISTER_FREQUENCY
  }

  /** `nextLookup` likewise, at most ten tickets behind. */
  function NextLookup(nextLookup: int, now: int): (r: int)
    ensures r >= nextLookup + COLLECT_FREQUENCY && r >= now - 9 * COLLECT_FREQUENCY
    ensures r == nextLookup + COLLECT_FREQUENCY || r == now - 9 * COLLECT_FREQUENCY
  {
    var min := now - COLLECT_FREQUENCY * MAX_COLLECT_DEBT;
    (if nextLookup < min then min else nextLookup) + COLLECT_FREQUENCY
  }

  ghost predicate Early(refs: set<TicketRef>, tickets: Calendar) {
    forall r :: r in refs ==> r.WellFormed() && r.Topic() in tickets && r.RegTime() < tickets[r.Topic()].nextReg
  }

  lemma StoredTabled(tickets: Calendar, refs: set<TicketRef>)
    requires Filed(tickets, refs)
    ensures forall r :: r in refs ==> r.WellFormed() && r.Topic() in tickets && r.Bucket() in tickets[r.Topic()].buckets
  {
  }

  lemma RegChanged(tickets: Calendar, refs: set<TicketRef>, topic: Topic, nextReg: int)
    requires Filed(tickets, refs) && Exact(tickets, refs) && topic in tickets
    ensures var after := tickets[topic := tickets[topic].(nextReg := nextReg)];
            Filed(after, refs) && Exact(after, refs)
  {
  }

  lemma NewTicketUnstored(nodes: map<NodeId, Ticket>, refs: set<TicketRef>, t: Ticket)
    requires Owned(nodes, refs) && t.node !in nodes
    ensures RefsOf(refs, t) == {} && forall i :: TicketRef(t, i) !in refs
  {
  }

  /** Nothing is filtered out of a topic that may register at any time. */
  lemma NoneEarly(before: set<TicketRef>, refs: set<TicketRef>, tickets: Calendar)
    requires refs <= before && Early(before - refs, tickets)
    requires forall r :: r in before && r.WellFormed() && r.Topic() in tickets ==> r.RegTime() >= tickets[r.Topic()].nextReg
    ensures refs == before
  {
    assert forall r :: r in before ==> r !in before - refs;
  }

  lemma TopicAdded(tickets: Calendar, refs: set<TicketRef>, topic: Topic)
    requires Filed(tickets, refs) && Exact(tickets, refs) && topic !in tickets
    ensures Filed(tickets[topic := TopicTickets(map[], 0, 0)], refs) && Exact(tickets[topic := TopicTickets(map[], 0, 0)], refs)
  {
  }

  lemma ListHolds(tickets: Calendar, refs: set<TicketRef>, topic: Topic, b: int)
    requires Filed(tickets, refs) && Exact(tickets, refs) && topic in tickets && b in tickets[topic].buckets
    ensures var list := tickets[topic].buckets[b];
            && Distinct(list)
            && (forall k :: 0 <= k < |list| ==> list[k] in refs)
            && (forall r :: r in refs ==> r.WellFormed() && (r in list <==> r.Topic() == topic && r.Bucket() == b))
  {
  }

  lemma ListedRefs(tickets: Calendar, refs: set<TicketRef>, topic: Topic, b: int)
    requires Filed(tickets, refs) && Exact(tickets, refs) && topic in tickets
    ensures var list := ListOf(tickets, topic, b);
            && (forall k :: 0 <= k < |list| ==> list[k] in refs && list[k].WellFormed() && list[k].Topic() == topic && list[k].Bucket() == b)
            && (forall r :: r in refs && r.WellFormed() && r.Topic() == topic && r.Bucket() == b ==> r in list)
    ensures |tickets[topic].buckets| == 0 ==> forall b :: b !in tickets[topic].buckets
    ensures |tickets[topic].buckets| == 0 ==> ListOf(tickets, topic, b) == []
  {
    hide Distinct;
  }

  /** The cached ticket is what a fresh scan would find, unless its topic was removed under it. */
  ghost predicate CacheOk(tickets: Calendar, refs: set<TicketRef>, cached: Option<TicketRef>) {
    match cached
    case None => true
    case Some(r) => r.WellFormed() && (Least(refs, r) || r.Topic() !in tickets)
  }

  lemma CachedIsLeast(tickets: Calendar, refs: set<TicketRef>, r: TicketRef)
    ensures CacheOk(tickets, refs, Some(r)) ==> r.WellFormed() && (Least(refs, r) || r.Topic() !in tickets)
    ensures Least(refs, r) ==> CacheOk(tickets, refs, Some(r))
  {
  }

  lemma NothingCached(tickets: Calendar, refs: set<TicketRef>)
    ensures CacheOk(tickets, refs, None)
  {
  }

  lemma BoundRaised(refs: set<TicketRef>, lowest: int, higher: int)
    requires forall r :: r in refs ==> r.WellFormed() && (lowest <= r.Bucket() ==> higher <= r.Bucket())
    ensures Bounded(refs, lowest) ==> Bounded(refs, higher)
  {
  }

  lemma TopicForgotten(tickets: Calendar, refs: set<TicketRef>, left: set<TicketRef>, topic: Topic, lowest: int, cached: Option<TicketRef>)
    requires Filed(tickets, refs) && Exact(tickets, refs) && Bounded(refs, lowest) && CacheOk(tickets, refs, cached)
    requires left <= refs && forall r :: r in refs ==> r.WellFormed() && (r in left <==> r.Topic() != topic)
    ensures Filed(tickets - {topic}, left) && Exact(tickets - {topic}, left)
    ensures Bounded(left, lowest) && CacheOk(tickets - {topic}, left, cached)
  {
    assert left == set r | r in refs && r.Topic() != topic;
    TopicUnfiled(tickets, refs, topic);
  }

  ghost predicate SameTurns(before: Calendar, after: Calendar) {
    before.Keys == after.Keys && forall topic :: topic in after ==> after[topic].nextReg == before[topic].nextReg
  }

  /** The next lookup of this topic alone moves, by the debt rule, if any does. */
  ghost predicate LookupMoved(before: Calendar, after: Calendar, topic: Topic, moved: bool, now: int) {
    forall t :: t in after && t in before ==>
      after[t].nextLookup == if moved && t == topic then NextLookup(before[t].nextLookup, now) else before[t].nextLookup
  }

  lemma NoLookupMoved(tickets: Calendar, now: int)
    ensures forall topic :: LookupMoved(tickets, tickets, topic, false, now)
  {
  }

  /** Neither the topics' next turns nor their next lookups change. */
  ghost predicate SameTimes(before: Calendar, after: Calendar) {
    SameTurns(before, after) && forall topic :: topic in after ==> after[topic].nextLookup == before[topic].nextLookup
  }

  lemma TurnsCompose(a: Calendar, b: Calendar, c: Calendar)
    requires SameTimes(a, b) && SameTimes(b, c)
    ensures SameTimes(a, c)
  {
  }

  /** What taking a reference out leaves alone. */
  lemma RefTaken(tickets: Calendar, refs: set<TicketRef>, lowest: int, r: TicketRef)
    ensures SameTimes(tickets, tickets) && (Bounded(refs, lowest) ==> Bounded(refs - {r}, lowest))
    ensures r.WellFormed() && r.Topic() in tickets ==> forall list :: SameTimes(tickets, WithList(tickets, r.Topic(), r.Bucket(), list))
  {
  }

  /** One more reference taken out because its topic may not register by then. */
  lemma EarlyGrows(start: set<TicketRef>, refs: set<TicketRef>, refs': set<TicketRef>, ref: TicketRef, before: Calendar, now: Calendar)
    requires Early(start - refs, before) && SameTimes(before, now)
    requires refs' == refs || refs' == refs - {ref}
    requires ref in refs ==> ref.WellFormed() && ref.Topic() in now && ref.RegTime() < now[ref.Topic()].nextReg
    ensures Early(start - refs', before)
  {
  }

  // ---------------------------------------------------------------- the store

  class TicketStore {
    var tickets: Calendar
    var nodes: map<NodeId, Ticket>
    var nodeLastReq: map<NodeId, ReqInfo>
    var lastBucketFetched: int
    var nextTicketCached: Option<TicketRef>
    ghost var refs: set<TicketRef>

    ghost predicate Indexed()
      reads this, set r | r in refs :: r.t
    {
      Filed(tickets, refs) && Exact(tickets, refs) && Owned(nodes, refs) && Counted(refs)
    }

    ghost predicate Valid()
      reads this, set r | r in refs :: r.t
    {
      Indexed() && Bounded(refs, lastBucketFetched) && CacheOk(tickets, refs, nextTicketCached)
    }

    constructor ()
      ensures Valid() && refs == {} && lastBucketFetched == 0
      ensures tickets == map[] && nodes == map[] && nodeLastReq == map[] && nextTicketCached == None
    {
      tickets, nodes, nodeLastReq, lastBucketFetched, nextTicketCached, refs := map[], map[], map[], 0, None, {};
    }

    /** One round of the scan: the earliest ticket of `bucket`, if it has any. */
    method ScanBucket(bucket: int) returns (best: Option<TicketRef>, empty: bool)
      requires Filed(tickets, refs) && Exact(tickets, refs)
      ensures empty <==> refs == {}
      ensures best.None? ==> forall s :: s in refs ==> s.Bucket() != bucket
      ensures best.Some? ==> best.value in refs && best.value.Bucket() == bucket
                             && forall s :: s in refs && s.Bucket() == bucket ==> best.value.RegTime() <= s.RegTime()
    {
      hide Filed, Exact, ListOf;
      best, empty := None, true;
      EmptyCalendar(tickets, refs);
      StoredTabled(tickets, refs);
      var todo := tickets.Keys;
      while todo != {}
        invariant todo <= tickets.Keys
        invariant empty <==> forall topic :: topic in tickets && topic !in todo ==> |tickets[topic].buckets| == 0
        invariant best.None? ==> forall s :: s in refs && s.Topic() !in todo ==> s.Bucket() != bucket
        invariant best.Some? ==> best.value in refs && best.value.Bucket() == bucket
                                 && forall s :: s in refs && s.Topic() !in todo && s.Bucket() == bucket ==> best.value.RegTime() <= s.RegTime()
        decreases todo
      {
        var topic :| topic in todo;
        todo := todo - {topic};
        ListedRefs(tickets, refs, topic, bucket);
        if |tickets[topic].buckets| != 0 {
          empty := false;
          var list := ListOf(tickets, topic, bucket);
          best := EarliestOf(list, best);
        }
      }
    }

    /** The inner loop of the scan, over one list. */
    method EarliestOf(list: seq<TicketRef>, start: Option<TicketRef>) returns (best: Option<TicketRef>)
      requires forall k :: 0 <= k < |list| ==> list[k].WellFormed()
      requires start.Some? ==> start.value.WellFormed()
      ensures best.None? <==> start.None? && list == []
      ensures best.Some? ==> best.value.WellFormed()
      ensures best.Some? ==> best == start || best.value in list
      ensures best.Some? ==> forall k :: 0 <= k < |list| ==> list[k].WellFormed() && best.value.RegTime() <= list[k].RegTime()
      ensures start.Some? ==> best.value.RegTime() <= start.value.RegTime()
    {
      best := start;
      for i := 0 to |list|
        invariant best.None? <==> start.None? && i == 0
        invariant best.Some? ==> best.value.WellFormed()
        invariant best.Some? ==> best == start || best.value in list
        invariant best.Some? ==> forall k :: 0 <= k < i ==> best.value.RegTime() <= list[k].RegTime()
        invariant start.Some? ==> best.value.RegTime() <= start.value.RegTime()
      {
        if best.None? || list[i].RegTime() < best.value.RegTime() {
          best := Some(list[i]);
        }
      }
    }

    /**
     The next ticket that can be used to register: the one with the earliest registration time, of those
     from the lower bound on. Without a ticket from there on, but with one before it, the scan does not end.
     */
    method NextRegisterableTicket(now: int) returns (next: Option<TicketRef>, wait: int)
      requires Filed(tickets, refs) && Exact(tickets, refs)
      requires match nextTicketCached { case None => ScanEnds(refs, lastBucketFetched) case Some(r) => r.WellFormed() }
      modifies this`lastBucketFetched, this`nextTicketCached
      ensures old(Valid()) ==> Valid()
      ensures nextTicketCached == next && (old(nextTicketCached).Some? ==> next == old(nextTicketCached))
      ensures next.None? ==> refs == {} && wait == 0
      ensures next.Some? ==> next.value.WellFormed() && wait == next.value.RegTime() - now
      ensures next.Some? && old(nextTicketCached).None? ==> Earliest(refs, old(lastBucketFetched), next.value)
      ensures next.Some? && old(Valid()) ==>
                Least(refs, next.value) || (next == old(nextTicketCached) && next.value.Topic() !in tickets)
      ensures lastBucketFetched == Passed(old(lastBucketFetched), if old(nextTicketCached).None? then next else None)
      ensures old(lastBucketFetched) <= lastBucketFetched
    {
      hide Filed, Exact, Owned, Counted, Least, ScanEnds, Earliest, Bounded, CacheOk;
      next, wait := nextTicketCached, 0;
      if next.Some? {
        wait := next.value.RegTime() - now;
        CachedIsLeast(tickets, refs, next.value);
        return;
      }
      ghost var bound := lastBucketFetched;
      next := Scan();
      if Bounded(refs, bound) {
        BoundedScan(refs, bound);
      }
      BoundRaised(refs, bound, lastBucketFetched);
      NothingCached(tickets, refs);
      if next.Some? {
        CachedIsLeast(tickets, refs, next.value);
        wait := next.value.RegTime() - now;
      }
    }

    /** The lower bound once a scan has found this ticket: the last bucket it left behind. */
    static ghost function Passed(bound: int, next: Option<TicketRef>): int {
      if next.Some? && next.value.WellFormed() && next.value.Bucket() > bound then next.value.Bucket() - 1 else bound
    }

    /** The loop of `nextRegisterableTicket`, from the lower bound on, bucket by bucket. */
    method Scan() returns (next: Option<TicketRef>)
      requires Filed(tickets, refs) && Exact(tickets, refs)
      requires nextTicketCached == None && ScanEnds(refs, lastBucketFetched)
      modifies this`lastBucketFetched, this`nextTicketCached
      ensures nextTicketCached == next && (next.None? ==> refs == {})
      ensures next.Some? ==> next.value.WellFormed() && Earliest(refs, old(lastBucketFetched), next.value)
      ensures forall r :: r in refs ==> r.WellFormed() && (old(lastBucketFetched) <= r.Bucket() ==> lastBucketFetched <= r.Bucket())
      ensures lastBucketFetched == Passed(old(lastBucketFetched), next)
    {
      hide Filed, Exact, ScanEnds, Earliest;
      ghost var bound := lastBucketFetched;
      ghost var last := SomeBucket(refs, bound);
      StoredTabled(tickets, refs);
      var bucket := lastBucketFetched;
      while true
        invariant bound <= lastBucketFetched && lastBucketFetched == if bucket == bound then bound else bucket - 1
        invariant refs == {} ==> bucket == bound
        invariant forall r :: r in refs && bound <= r.Bucket() ==> bucket <= r.Bucket()
        invariant refs != {} ==> bucket <= last
        invariant nextTicketCached.None?
        decreases last - bucket
      {
        var best, empty := ScanBucket(bucket);
        if empty {
          return None;
        }
        if best.Some? {
          BucketThenTime(refs, best.value, bound);
          nextTicketCached := best;
          return best;
        }
        lastBucketFetched := bucket;
        bucket := bucket + 1;
      }
    }

    /** Takes a stored reference out; of a topic that is gone there is nothing left to take out. */
    method RemoveTicketRef(ref: TicketRef)
      requires Indexed() && ref.WellFormed() && (ref in refs || ref.Topic() !in tickets)
      modifies this`tickets, this`nodes, this`nodeLastReq, this`nextTicketCached, this`refs
      modifies if ref in refs then {ref.t} else {}
      ensures Indexed() && nextTicketCached == None
      ensures ref.Topic() in old(tickets) ==>
                && refs == old(refs) - {ref} && ref.t.node in old(nodes)
                && nodes == old(nodes) - {ref.t.node} && nodeLastReq == old(nodeLastReq) - {ref.t.node}
      ensures ref.Topic() !in old(tickets) ==>
                refs == old(refs) && nodes == old(nodes) && nodeLastReq == old(nodeLastReq) && tickets == old(tickets)
      ensures SameTimes(old(tickets), tickets)
      ensures old(Bounded(refs, lastBucketFetched)) ==> Valid()
    {
      hide Filed, Exact, Owned, RefsOf, SameTimes, Bounded, WithList, Distinct;
      RefTaken(tickets, refs, lastBucketFetched, ref);
      nextTicketCached := None;
      if ref.Topic() !in tickets {
        return;
      }
      var list := ListOf(tickets, ref.Topic(), ref.Bucket());
      ghost var i := SlotOf(tickets, nodes, refs, ref);
      var idx := 0;
      while list[idx].t != ref.t
        invariant 0 <= idx <= i
        decreases i - idx
      {
        idx := idx + 1;
      }
      RefUnfiled(tickets, refs, ref, idx);
      OwnedWithout(nodes, refs, ref);
      tickets := WithList(tickets, ref.Topic(), ref.Bucket(), Without(list, idx));
      ref.t.refCnt := ref.t.refCnt - 1;
      if ref.t.refCnt == 0 {
        nodes, nodeLastReq := nodes - {ref.t.node}, nodeLastReq - {ref.t.node};
      }
      refs := refs - {ref};
    }

    lemma ScanReady()
      requires Valid()
      ensures ScanEnds(refs, lastBucketFetched) && (nextTicketCached.Some? ==> nextTicketCached.value.WellFormed())
    {
      BoundedScan(refs, lastBucketFetched);
    }

    static lemma PassedNothing(bound: int)
      ensures Passed(bound, None) == bound
    {
    }

    /** Whether there is a cached ticket, and its topic is still there. */
    ghost predicate CacheHolds()
      requires Valid()
      reads this, set r | r in refs :: r.t
    {
      nextTicketCached.Some? && nextTicketCached.value.Topic() in tickets
    }

    /** The earliest ticket whose topic may register by then; the ones before it are discarded. */
    method NextFilteredTicket(now: int) returns (next: Option<TicketRef>, wait: int)
      requires Valid()
      modifies this, set r | r in refs :: r.t
      ensures Valid() && nextTicketCached == next
      ensures refs <= old(refs) && Early(old(refs) - refs, old(tickets))
      ensures next.None? ==> refs == {}
      ensures lastBucketFetched >= old(lastBucketFetched)
      ensures next.Some? ==>
                && Least(refs, next.value) && wait == next.value.RegTime() - now
                && next.value.Topic() in tickets && tickets[next.value.Topic()].nextReg <= next.value.RegTime()
      ensures SameTimes(old(tickets), tickets) && Forgets(old(nodes), nodes, old(nodeLastReq), nodeLastReq)
      ensures refs == old(refs) ==>
                && nodes == old(nodes) && nodeLastReq == old(nodeLastReq) && tickets == old(tickets)
                && lastBucketFetched == Passed(old(lastBucketFetched), if old(CacheHolds()) then None else next)
    {
      hide Filed, Exact, Owned, Counted, Least, Early, SameTimes, ScanEnds, Earliest, RefsOf, Bounded, CacheOk, Forgets, Passed;
      EarlyNone(refs, tickets);
      ForgetsNothing(nodes, nodeLastReq);
      while true
        invariant Valid() && refs <= old(refs) && Early(old(refs) - refs, old(tickets))
        invariant lastBucketFetched >= old(lastBucketFetched)
        invariant SameTimes(old(tickets), tickets) && Forgets(old(nodes), nodes, old(nodeLastReq), nodeLastReq)
        invariant refs == old(refs) ==>
                    && nodes == old(nodes) && nodeLastReq == old(nodeLastReq) && tickets == old(tickets)
                    && lastBucketFetched == old(lastBucketFetched)
                    && (nextTicketCached == old(nextTicketCached) || (nextTicketCached.None? && !old(CacheHolds())))
        decreases refs, nextTicketCached.Some?
      {
        ScanReady();
        PassedNothing(lastBucketFetched);
        next, wait := NextRegisterableTicket(now);
        if next.None? {
          return;
        }
        StoredTabled(tickets, refs);
        var ref := next.value;
        LeastIsStored(refs, ref);
        if ref.Topic() in tickets && now + wait >= tickets[ref.Topic()].nextReg {
          return;
        }
        ghost var refs0, tickets0 := refs, tickets;
        ghost var nodes0, last0 := nodes, nodeLastReq;
        RemoveTicketRef(ref);
        if ref.Topic() in tickets0 {
          ForgetsOne(old(nodes), nodes0, old(nodeLastReq), last0, ref.t.node);
        }
        EarlyGrows(old(refs), refs0, refs, ref, old(tickets), tickets0);
        TurnsCompose(old(tickets), tickets0, tickets);
      }
    }

    static lemma EarlyNone(refs: set<TicketRef>, tickets: Calendar)
      ensures Early(refs - refs, tickets) && SameTimes(tickets, tickets)
    {
    }

    /** The ticket was used: its topic waits its turn again. */
    method TicketRegistered(ref: TicketRef, now: int)
      requires Indexed() && ref in refs
      modifies this, ref.t
      ensures Indexed() && nextTicketCached == None && lastBucketFetched == old(lastBucketFetched)
      ensures old(Bounded(refs, lastBucketFetched)) ==> Valid()
      ensures refs == old(refs) - {ref} && nodes == old(nodes) - {ref.t.node} && nodeLastReq == old(nodeLastReq) - {ref.t.node}
      ensures ref.WellFormed() && tickets.Keys == old(tickets).Keys
      ensures forall topic :: topic in tickets ==>
                && tickets[topic].nextLookup == old(tickets)[topic].nextLookup
                && tickets[topic].nextReg == if topic == ref.Topic() then NextReg(old(tickets)[topic].nextReg, now)
                                          else old(tickets)[topic].nextReg
    {
      hide Exact, Filed, Owned, Counted;
      StoredTabled(tickets, refs);
      var tt := tickets[ref.Topic()];
      RegChanged(tickets, refs, ref.Topic(), NextReg(tt.nextReg, now));
      tickets := tickets[ref.Topic() := tt.(nextReg := NextReg(tt.nextReg, now))];
      RemoveTicketRef(ref);
    }

    method FindIdx(ticket: Ticket, topic: Topic) returns (idx: int)
      ensures -1 <= idx < |ticket.topics|
      ensures idx >= 0 ==> ticket.topics[idx] == topic
      ensures idx < 0 <==> topic !in ticket.topics
      ensures idx >= 0 ==> topic !in ticket.topics[..idx]
    {
      for i := 0 to |ticket.topics|
        invariant topic !in ticket.topics[..i]
      {
        if ticket.topics[i] == topic {
          return i;
        }
      }
      idx := -1;
    }

    /** Whether `addTicket` gets past its checks: it answers our last ping and the node has no ticket stored. */
    ghost predicate Wanted(ticket: Ticket, pingHash: seq<bv8>)
      reads this
    {
      Wants(ticket.node, ticket.topics, pingHash)
    }

    ghost predicate Wants(node: NodeId, topics: seq<Topic>, pingHash: seq<bv8>)
      reads this
    {
      && node in nodeLastReq && nodeLastReq[node].pingHash == pingHash
      && !nodeLastReq[node].radiusLookup && node !in nodes
      && nodeLastReq[node].topic in topics
    }

    /** Taking a lower bound of 0 for "unset", a ticket of a later minute moves the bound past stored ones. */
    ghost predicate BoundLost(localTime: int)
      reads this
    {
      lastBucketFetched == 0 && !Bounded(refs, TimeBucket(localTime))
    }

    method AddTicketRef(r: TicketRef, now: int)
      requires Filed(tickets, refs) && Exact(tickets, refs) && r.WellFormed() && r !in refs
      modifies this`tickets, this`refs, r.t`refCnt
      ensures Filed(tickets, refs) && Exact(tickets, refs)
      ensures if r.Topic() in old(tickets) then refs == old(refs) + {r} && r.t.refCnt == old(r.t.refCnt) + 1
              else refs == old(refs) && r.t.refCnt == old(r.t.refCnt)
      ensures SameTurns(old(tickets), tickets)
      ensures forall topic :: topic in tickets ==>
                && tickets[topic].nextReg == old(tickets)[topic].nextReg
                && tickets[topic].nextLookup == if topic == r.Topic() then NextLookup(old(tickets)[topic].nextLookup, now)
                                                else old(tickets)[topic].nextLookup
    {
      hide Exact, Filed, Distinct;
      if r.Topic() !in tickets {
        return;
      }
      var nextLookup := NextLookup(tickets[r.Topic()].nextLookup, now);
      RefFiled(tickets, refs, r, nextLookup);
      tickets := WithRef(tickets, r, nextLookup);
      r.t.refCnt := r.t.refCnt + 1;
      refs := refs + {r};
    }

    /** The end of `addTicket`: a ticket that is kept is filed, and its node becomes an owner. */
    method Keep(r: TicketRef, now: int, keep: bool) returns (stored: bool)
      requires Indexed()
      requires r.WellFormed() && r.t.node !in nodes && r.t.refCnt == 0
      modifies this`tickets, this`nodes, this`nextTicketCached, this`refs, r.t`refCnt
      ensures Indexed() && (old(CacheOk(tickets, refs, nextTicketCached)) ==> CacheOk(tickets, refs, nextTicketCached))
      ensures !stored ==> nextTicketCached == old(nextTicketCached)
      ensures stored <==> keep && r.Topic() in old(tickets)
      ensures !stored ==> refs == old(refs) && nodes == old(nodes) && tickets == old(tickets)
      ensures stored ==> nextTicketCached == None
      ensures stored ==> nodes == old(nodes)[r.t.node := r.t] && r.t.refCnt == 1 && r !in old(refs) && refs == old(refs) + {r}
      ensures SameTurns(old(tickets), tickets) && LookupMoved(old(tickets), tickets, r.Topic(), stored, now)
    {
      hide Exact, Filed, Owned, RefsOf, Least, Distinct, NextLookup;
      stored := false;
      if r.Topic() in tickets && keep {
        NewTicketUnstored(nodes, refs, r.t);
        OwnedWith(nodes, refs, r);
        AddTicketRef(r, now);
        stored := true;
      }
      if r.t.refCnt > 0 {
        nextTicketCached := None;
        nodes := nodes[r.t.node := r.t];
      }
    }

    /** Files the ticket for the topic it was asked for; `keep` is the random decision of the source. */
    method AddTicket(localTime: int, now: int, pingHash: seq<bv8>, ticket: Ticket, keep: bool) returns (stored: bool)
      requires Indexed() && |ticket.regTime| == |ticket.topics|
      requires forall i :: 0 <= i < |ticket.regTime| ==> localTime <= ticket.regTime[i]
      requires ticket.node !in nodes ==> ticket.refCnt == 0
      modifies this`tickets, this`nodes, this`lastBucketFetched, this`nextTicketCached, this`refs, ticket
      ensures Indexed() && (old(CacheOk(tickets, refs, nextTicketCached)) ==> CacheOk(tickets, refs, nextTicketCached))
      ensures old(Valid()) ==> (Valid() <==> !old(Wanted(ticket, pingHash) && BoundLost(localTime)))
      ensures !stored ==> nextTicketCached == old(nextTicketCached)
      ensures stored <==> old(Wanted(ticket, pingHash)) && keep && nodeLastReq[ticket.node].topic in old(tickets)
      ensures !stored ==> refs == old(refs) && nodes == old(nodes)
      ensures stored ==>
                && nodes == old(nodes)[ticket.node := ticket] && ticket.refCnt == 1
                && nextTicketCached == None
                && exists r :: r !in old(refs) && refs == old(refs) + {r} && r.t == ticket
                               && r.WellFormed() && r.Topic() == nodeLastReq[ticket.node].topic
                               && r.Topic() !in ticket.topics[..r.idx]
      ensures SameTurns(old(tickets), tickets)
      ensures ticket.node in nodeLastReq ==> LookupMoved(old(tickets), tickets, nodeLastReq[ticket.node].topic, stored, now)
      ensures !stored ==> tickets == old(tickets)
      ensures lastBucketFetched == if old(Wanted(ticket, pingHash) && (lastBucketFetched == 0 || TimeBucket(localTime) < lastBucketFetched))
                                   then TimeBucket(localTime) else old(lastBucketFetched)
      // past the first minute the lower bound is never taken for unset again
      ensures old(Valid()) && TimeBucket(localTime) != 0 && old(lastBucketFetched == 0 ==> refs == {}) ==>
                Valid() && (lastBucketFetched == 0 ==> refs == {})
    {
      hide Exact, Filed, Owned, RefsOf, Least, Distinct, LookupMoved;
      NoLookupMoved(tickets, now);
      stored := false;
      if ticket.node !in nodeLastReq || nodeLastReq[ticket.node].pingHash != pingHash {
        return;
      }
      if nodeLastReq[ticket.node].radiusLookup || ticket.node in nodes {
        return;
      }
      var topic := nodeLastReq[ticket.node].topic;
      var idx := FindIdx(ticket, topic);
      if idx == -1 {
        return;
      }
      var bucket := TimeBucket(localTime);
      if lastBucketFetched == 0 || bucket < lastBucketFetched {
        lastBucketFetched := bucket;
      }
      TimeBucketMonotone(localTime, ticket.regTime[idx]);
      stored := Keep(TicketRef(ticket, idx), now, keep);
    }

    /** Whether a new request takes the place of the last one. */
    predicate Replaces(node: NodeId, req: ReqInfo)
      reads this
    {
      if req.radiusLookup then node in nodeLastReq ==> req.time - nodeLastReq[node].time > RADIUS_TC else node !in nodes
    }

    /**
     The bookkeeping of `registerLookupDone` for a node it decides to ping. From then on a ticket of the
     node is wanted exactly if it answers this ping and is for this topic, whatever was asked for before;
     a radius lookup only makes the node forget what was asked for, and not within twenty minutes of that.
     */
    method NoteRequest(node: NodeId, req: ReqInfo)
      requires Indexed()
      modifies this`nodeLastReq
      ensures Indexed() && (old(Valid()) ==> Valid())
      ensures forall n, topics, hash :: n != node ==> (Wants(n, topics, hash) <==> old(Wants(n, topics, hash)))
      ensures !req.radiusLookup ==> forall topics, hash ::
                Wants(node, topics, hash) <==> node !in nodes && hash == req.pingHash && req.topic in topics
      ensures req.radiusLookup ==> forall topics, hash ::
                Wants(node, topics, hash) <==> old(Wants(node, topics, hash)) && req.time - old(nodeLastReq)[node].time <= RADIUS_TC
      ensures nodeLastReq == if old(Replaces(node, req)) then old(nodeLastReq)[node := req] else old(nodeLastReq)
    {
      if req.radiusLookup {
        if node !in nodeLastReq || req.time - nodeLastReq[node].time > RADIUS_TC {
          nodeLastReq := nodeLastReq[node := req];
        }
      } else if node !in nodes {
        nodeLastReq := nodeLastReq[node := req];
      }
    }

    /** By itself, registering a topic again must wait until the scan has dropped a stale cached ticket of it. */
    method AddTopic(topic: Topic)
      requires Indexed()
      modifies this`tickets
      ensures Indexed() && (old(Bounded(refs, lastBucketFetched)) ==> Bounded(refs, lastBucketFetched))
      ensures tickets == if topic in old(tickets) then old(tickets) else old(tickets)[topic := TopicTickets(map[], 0, 0)]
      ensures old(Valid()) ==>
                (Valid() <==> !(topic !in old(tickets) && nextTicketCached.Some? && nextTicketCached.value.Topic() == topic))
    {
      hide Filed, Exact, Owned, Counted, Bounded;
      StoredTabled(tickets, refs);
      if topic !in tickets {
        TopicAdded(tickets, refs, topic);
        tickets := tickets[topic := TopicTickets(map[], 0, 0)];
      }
    }

    /** Drops every ticket of a topic; the cached ticket may be left stale. */
    method RemoveRegisterTopic(topic: Topic)
      requires Valid()
      modifies this`tickets, this`nodes, this`nodeLastReq, this`refs, set r | r in refs :: r.t
      ensures Valid()
      ensures tickets == old(tickets) - {topic} && Forgets(old(nodes), nodes, old(nodeLastReq), nodeLastReq)
      ensures refs <= old(refs) && forall r :: r in old(refs) ==> r.WellFormed() && (r in refs <==> r.Topic() != topic)
    {
      hide Filed, Exact, Owned, RefsOf, Bounded, CacheOk, Forgets;
      StoredTabled(tickets, refs);
      ForgetsNothing(nodes, nodeLastReq);
      if topic !in tickets {
        return;
      }
      ghost var left := refs;
      var todo := tickets[topic].buckets.Keys;
      while todo != {}
        invariant tickets == old(tickets) && refs == old(refs) && todo <= tickets[topic].buckets.Keys
        invariant left <= refs && Owned(nodes, left) && Counted(left)
        invariant Forgets(old(nodes), nodes, old(nodeLastReq), nodeLastReq)
        invariant forall r :: r in refs ==> r.WellFormed() && (r in left <==> r.Topic() != topic || r.Bucket() in todo)
        decreases todo
      {
        ghost var some := SomeMember(todo);
        var b :| b in todo;
        todo := todo - {b};
        ListHolds(tickets, refs, topic, b);
        ghost var nodes0, last0 := nodes, nodeLastReq;
        left := DropList(tickets[topic].buckets[b], left);
        ForgetsMore(old(nodes), nodes0, nodes, old(nodeLastReq), last0, nodeLastReq);
      }
      TopicForgotten(tickets, refs, left, topic, lastBucketFetched, nextTicketCached);
      tickets, refs := tickets - {topic}, left;
    }

    /** The inner loop of `removeRegisterTopic`, over one list. */
    method DropList(list: seq<TicketRef>, ghost before: set<TicketRef>) returns (ghost left: set<TicketRef>)
      requires Distinct(list) && Owned(nodes, before) && Counted(before) && before <= refs
      requires forall k :: 0 <= k < |list| ==> list[k] in before
      modifies this`nodes, this`nodeLastReq, set r | r in refs :: r.t
      ensures Owned(nodes, left) && Counted(left) && Forgets(old(nodes), nodes, old(nodeLastReq), nodeLastReq)
      ensures left <= before && forall r :: r in before ==> (r in left <==> r !in list)
    {
      hide Filed, Exact, Owned, RefsOf, Least, Forgets;
      ForgetsNothing(nodes, nodeLastReq);
      left := before;
      for i := 0 to |list|
        invariant left <= before && forall r :: r in before ==> (r in left <==> r !in list[..i])
        invariant Owned(nodes, left) && Counted(left) && Forgets(old(nodes), nodes, old(nodeLastReq), nodeLastReq)
      {
        var ref := list[i];
        assert ref in left;
        OwnedWithout(nodes, left, ref);
        ref.t.refCnt := ref.t.refCnt - 1;
        if ref.t.refCnt == 0 {
          ForgetsOne(old(nodes), nodes, old(nodeLastReq), nodeLastReq, ref.t.node);
          nodes, nodeLastReq := nodes - {ref.t.node}, nodeLastReq - {ref.t.node};
        }
        left := left - {ref};
      }
    }
  }

  /** With a node that is dropped its last request goes, and nothing else does. */
  ghost predicate Forgets(before: map<NodeId, Ticket>, after: map<NodeId, Ticket>, last: map<NodeId, ReqInfo>, last': map<NodeId, ReqInfo>) {
    && after.Keys <= before.Keys && after == before - (before.Keys - after.Keys)
    && last' == last - (before.Keys - after.Keys)
  }

  lemma ForgetsNothing(nodes: map<NodeId, Ticket>, last: map<NodeId, ReqInfo>)
    ensures Forgets(nodes, nodes, last, last)
  {
  }

  lemma ForgetsMore(a: map<NodeId, Ticket>, b: map<NodeId, Ticket>, c: map<NodeId, Ticket>,
                    last: map<NodeId, ReqInfo>, last': map<NodeId, ReqInfo>, last'': map<NodeId, ReqInfo>)
    requires Forgets(a, b, last, last') && Forgets(b, c, last', last'')
    ensures Forgets(a, c, last, last'')
  {
    assert a.Keys - c.Keys == (a.Keys - b.Keys) + (b.Keys - c.Keys);
  }

  lemma ForgetsOne(before: map<NodeId, Ticket>, after: map<NodeId, Ticket>, last: map<NodeId, ReqInfo>, last': map<NodeId, ReqInfo>, node: NodeId)
    requires Forgets(before, after, last, last') && node in after
    ensures Forgets(before, after - {node}, last, last' - {node})
  {
    var dropped := before.Keys - after.Keys;
    assert (after - {node}).Keys == after.Keys - {node};
    assert before.Keys - (after - {node}).Keys == dropped + {node};
  }

  /**
   What a ticket of a node is wanted for, once a topic request was noted for it: whatever radius lookups
   follow, and whatever is asked of others, the request counts until a radius lookup comes more than twenty
   minutes after it; from then on no ticket of the node is wanted.
   */
  method RequestStands(s: TicketStore, node: NodeId, mine: ReqInfo, later: seq<(NodeId, ReqInfo)>)
    requires s.Indexed() && node !in s.nodes && !mine.radiusLookup
    requires forall i :: 0 <= i < |later| && later[i].0 == node ==> later[i].1.radiusLookup
    modifies s`nodeLastReq
    ensures s.Indexed()
    ensures forall topics, hash :: s.Wants(node, topics, hash) <==>
              && hash == mine.pingHash && mine.topic in topics
              && forall i :: 0 <= i < |later| && later[i].0 == node ==> later[i].1.time - mine.time <= RADIUS_TC
  {
    hide TicketStore.Indexed;
    s.NoteRequest(node, mine);
    for i := 0 to |later|
      invariant s.Indexed() && node in s.nodeLastReq
      invariant if forall k :: 0 <= k < i && later[k].0 == node ==> later[k].1.time - mine.time <= RADIUS_TC
                then s.nodeLastReq[node] == mine else s.nodeLastReq[node].radiusLookup
    {
      s.NoteRequest(later[i].0, later[i].1);
    }
  }

  // ---------------------------------------------------------------- in the loop

  /**
   A request to register or unregister a topic, as the network loop handles it: every turn begins by
   filtering, so that no cached ticket is stale when a topic is registered again.
   */
  method TopicRequest(s: TicketStore, now: int, add: bool, topic: Topic) returns (next: Option<TicketRef>)
    requires s.Valid()
    modifies s, set r | r in s.refs :: r.t
    ensures s.Valid() && s.refs <= old(s.refs)
    ensures s.tickets.Keys == if add then old(s.tickets).Keys + {topic} else old(s.tickets).Keys - {topic}
    ensures forall r :: r in s.refs && !add ==> r.WellFormed() && r.Topic() != topic
  {
    hide Filed, Exact, Owned, Counted, Least, Early, Bounded;
    var wait;
    next, wait := s.NextFilteredTicket(now);
    if add {
      s.AddTopic(topic);
    } else {
      s.RemoveRegisterTopic(topic);
    }
  }

  /** Two turns of the loop in the first minute: one asks a node for a ticket, and in the other its pong brings one. */
  method Collect(s: TicketStore, node: NodeId, asked: int, localTime: int, regTime: int) returns (ref: TicketRef)
    requires s.Valid() && asked <= localTime <= regTime && node !in s.nodes
    requires "a" in s.tickets && s.tickets["a"].nextReg == 0
    requires s.lastBucketFetched == 0 && forall r :: r in s.refs ==> r.WellFormed() && r.RegTime() >= 0 && r.Bucket() == 0 && r.Topic() == "a"
    modifies s, set r | r in s.refs :: r.t
    ensures s.Indexed() && ref.WellFormed() && ref.Topic() == "a" && ref.RegTime() == regTime
    ensures s.refs == old(s.refs) + {ref} && s.nodes == old(s.nodes)[node := ref.t] && s.nextTicketCached == None
    ensures fresh(ref.t) && "a" in s.tickets && s.tickets["a"].nextReg == 0
    ensures s.lastBucketFetched == TimeBucket(localTime)
    ensures s.refs == {ref} || TimeBucket(localTime) == 0 ==> s.Valid()
  {
    hide Filed, Exact, Owned, Counted, Least, Early, RefsOf, CacheOk;
    var next, wait := s.NextFilteredTicket(asked);
    NoneEarly(old(s.refs), s.refs, old(s.tickets));
    if next.Some? {
      LeastIsStored(s.refs, next.value);
    }
    s.NoteRequest(node, ReqInfo([], "a", false, asked));
    assert "a" in ["a"] && s.Wants(node, ["a"], []);
    next, wait := s.NextFilteredTicket(asked);
    NoneEarly(old(s.refs), s.refs, old(s.tickets));
    if next.Some? {
      LeastIsStored(s.refs, next.value);
    }
    var ticket := new Ticket(["a"], [regTime], node);
    var stored := s.AddTicket(localTime, localTime, [], ticket, true);
    ref := TicketRef(ticket, 0);
    ghost var r :| r !in old(s.refs) && s.refs == old(s.refs) + {r} && r.t == ticket && r.WellFormed() && r.Topic() == "a";
    assert r == ref;
  }

  /** Of two tickets, one before the bound and one after it, the scan finds the later one, and none once that is used. */
  method Strand(s: TicketStore, lost: TicketRef, used: TicketRef, now: int)
    requires s.Indexed() && s.refs == {lost, used} && lost != used && s.nextTicketCached == None
    requires lost.WellFormed() && used.WellFormed() && lost.Bucket() < s.lastBucketFetched <= used.Bucket()
    requires used.Topic() in s.tickets && s.tickets[used.Topic()].nextReg <= used.RegTime()
    modifies s, used.t
    ensures s.Indexed() && s.refs == {lost} && s.nextTicketCached == None && !ScanEnds(s.refs, s.lastBucketFetched)
  {
    hide Filed, Exact, Owned, Counted, RefsOf, Bounded, CacheOk;
    var next, wait := s.NextRegisterableTicket(now);
    assert next == Some(used) && next.value.RegTime() >= s.tickets[next.value.Topic()].nextReg;
    s.TicketRegistered(used, now + wait);
  }

  /**
   A ticket is lost, and the loop with it. A pong one nanosecond before the end of the first second brings
   a ticket that is due one nanosecond before the end of the first minute; the lower bound 0 still reads as
   unset. The next pong is handled at the end of the minute, ahead of the timer for that ticket, and moves
   the bound past it. Once the later ticket is used, the scan never ends: it has a ticket left, but none from
   the bound on.
   */
  method FirstMinuteTicketLost() returns (s: TicketStore, lost: TicketRef, used: TicketRef)
    ensures s.Indexed() && s.refs == {lost} && lost.WellFormed() && used.WellFormed()
    ensures lost.RegTime() == 60 * SECOND - 1 && used.RegTime() == 120 * SECOND
    ensures s.nextTicketCached == None && !ScanEnds(s.refs, s.lastBucketFetched)
  {
    hide Filed, Exact, Owned, Counted, Least, Early, RefsOf, Bounded, CacheOk;
    s := new TicketStore();
    var next, wait := s.NextFilteredTicket(0);
    s.AddTopic("a");
    lost := Collect(s, 1, 0, SECOND - 1, 60 * SECOND - 1);
    used := Collect(s, 2, SECOND, 60 * SECOND, 120 * SECOND);
    Strand(s, lost, used, 60 * SECOND);
  }

  // ---------------------------------------------------------------- a ticket below the bound

  /** What the loop does with the store: look for the next ticket, use or discard the one found, ask a node for one, take in a pong, register a topic. */
  datatype Turn =
    | Find(now: int)
    | Use(now: int)
    | Discard
    | Ask(node: NodeId, req: ReqInfo)
    | Pong(localTime: int, pingHash: seq<bv8>, node: NodeId, topics: seq<Topic>, regTime: seq<int>, keep: bool)
    | Enlist(topic: Topic)

  /** The scan comes to an end, as far as the calendar shows. */
  predicate Finds(tickets: Calendar, lowest: int) {
    || (forall topic :: topic in tickets ==> |tickets[topic].buckets| == 0)
    || exists topic, b :: topic in tickets && b in tickets[topic].buckets && lowest <= b
  }

  /** The ticket is stored, but below the bound of the scan, and it is not the one in the cache. */
  ghost predicate Below(s: TicketStore, lost: TicketRef)
    reads s, set r | r in s.refs :: r.t
  {
    && s.Indexed() && lost in s.refs && lost.WellFormed() && 0 <= lost.Bucket() < s.lastBucketFetched
    && (s.nextTicketCached.Some? ==> s.nextTicketCached.value in s.refs && s.nextTicketCached.value != lost)
  }

  /** A pong that is taken in after the minute of the ticket. */
  predicate Later(turn: Turn, lost: TicketRef)
    requires lost.idx < |lost.t.regTime|
  {
    turn.Pong? ==>
      && |turn.topics| == |turn.regTime| && TimeBucket(turn.localTime) > lost.Bucket()
      && forall k :: 0 <= k < |turn.regTime| ==> turn.localTime <= turn.regTime[k]
  }

  /** What is found from one turn to the next: something if it was looked for, and nothing once it is used or discarded. */
  ghost predicate Follows(turn: Turn, found: Option<TicketRef>, next: Option<TicketRef>) {
    match turn
    case Find(_) => next.Some?
    case Use(_) => next == None
    case Discard => next == None
    case _ => next == found
  }

  function Taken(turn: Turn, found: Option<TicketRef>): Option<TicketRef> {
    if turn.Use? || turn.Discard? then found else None
  }

  /** One turn, which neither finds nor uses nor discards the ticket below the bound. */
  method TakeTurn(s: TicketStore, lost: TicketRef, turn: Turn, found: Option<TicketRef>) returns (next: Option<TicketRef>)
    requires Below(s, lost) && (found.Some? ==> found.value in s.refs && found.value.WellFormed() && found.value != lost)
    requires turn.Find? ==> s.nextTicketCached.Some? || Finds(s.tickets, s.lastBucketFetched)
    requires Later(turn, lost)
    modifies s, set r | r in s.refs :: r.t
    ensures Below(s, lost) && (next.Some? ==> next.value in s.refs && next.value.WellFormed() && next.value != lost)
    ensures forall r :: r in s.refs && r !in old(s.refs) ==> fresh(r.t)
    ensures Follows(turn, found, next)
    ensures forall r :: r in old(s.refs) ==> (r in s.refs <==> Taken(turn, found) != Some(r))
  {
    hide TicketStore.Passed, Filed, Exact, Owned, Counted, RefsOf, Bounded, CacheOk, ScanEnds;
    next := found;
    match turn
    case Find(now) =>
      ScanEndsExactly(s.tickets, s.refs, s.lastBucketFetched);
      StoredTabled(s.tickets, s.refs);
      var wait;
      next, wait := s.NextRegisterableTicket(now);
    case Use(now) =>
      if found.Some? {
        s.TicketRegistered(found.value, now);
        next := None;
      }
    case Discard =>
      if found.Some? {
        StoredTabled(s.tickets, s.refs);
        s.RemoveTicketRef(found.value);
        next := None;
      }
    case Ask(node, req) =>
      s.NoteRequest(node, req);
    case Pong(localTime, pingHash, node, topics, regTime, keep) =>
      var ticket := new Ticket(topics, regTime, node);
      var _ := s.AddTicket(localTime, localTime, pingHash, ticket, keep);
    case Enlist(topic) =>
      s.AddTopic(topic);
  }

  /** What the turns up to `n` used or discarded, given what was found before each. */
  ghost function Gone(turns: seq<Turn>, founds: seq<Option<TicketRef>>, n: nat, used: bool): (gone: seq<TicketRef>)
    requires n <= |turns| && n <= |founds|
  {
    if n == 0 then []
    else
      var before := Gone(turns, founds, n - 1, used);
      if founds[n - 1].Some? && (if used then turns[n - 1].Use? else turns[n - 1].Discard?) then before + [founds[n - 1].value] else before
  }

  lemma {:induction false} GonePrefix(turns: seq<Turn>, founds: seq<Option<TicketRef>>, more: seq<Option<TicketRef>>, n: nat, used: bool)
    requires n <= |turns| && n <= |founds| && founds <= more
    ensures Gone(turns, founds, n, used) == Gone(turns, more, n, used)
  {
    if n > 0 {
      GonePrefix(turns, founds, more, n - 1, used);
    }
  }

  /**
   Once below the bound, and with its minute past, a ticket is never used: in any run it is neither found nor
   used nor discarded. `founds` is what was found before each turn; each turn but the last one taken is
   followed by what it brings. The run goes on to the end, or to a scan that does not end. Of the tickets
   stored at first exactly those used or discarded are gone, and so this one is not among them.
   */
  method NeverUsed(s: TicketStore, lost: TicketRef, turns: seq<Turn>) returns (taken: nat, ghost founds: seq<Option<TicketRef>>)
    requires Below(s, lost) && forall i :: 0 <= i < |turns| ==> Later(turns[i], lost)
    modifies s, set r | r in s.refs :: r.t
    ensures Below(s, lost) && taken <= |turns| && |founds| == taken + 1 && founds[0] == None && Some(lost) !in founds
    ensures forall i :: 0 <= i < taken ==> Follows(turns[i], founds[i], founds[i + 1])
    ensures forall r :: r in old(s.refs) ==>
              (r in s.refs <==> r !in Gone(turns, founds, taken, true) && r !in Gone(turns, founds, taken, false))
    ensures taken < |turns| ==> turns[taken].Find? && s.nextTicketCached == None && !ScanEnds(s.refs, s.lastBucketFetched)
  {
    hide Below, ScanEnds, Filed, Exact, Gone, Follows;
    var found: Option<TicketRef> := None;
    founds := [None];
    taken := 0;
    NoneGone(turns, founds);
    while taken < |turns|
      invariant taken <= |turns| && |founds| == taken + 1 && founds[0] == None && Some(lost) !in founds && founds[taken] == found
      invariant Below(s, lost)
      invariant found.Some? ==> found.value in s.refs && found.value.WellFormed() && found.value != lost
      invariant forall r :: r in s.refs ==> r in old(s.refs) || fresh(r.t)
      invariant forall i :: 0 <= i < taken ==> Follows(turns[i], founds[i], founds[i + 1])
      invariant forall r :: r in old(s.refs) ==>
                  (r in s.refs <==> r !in Gone(turns, founds, taken, true) && r !in Gone(turns, founds, taken, false))
    {
      if turns[taken].Find? && s.nextTicketCached.None? && !Finds(s.tickets, s.lastBucketFetched) {
        Hangs(s, lost);
        return;
      }
      ghost var before := s.refs;
      var next := TakeTurn(s, lost, turns[taken], found);
      OneMoreGone(turns, founds, next, taken);
      found := next;
      founds := founds + [found];
      taken := taken + 1;
    }
  }

  lemma NoneGone(turns: seq<Turn>, founds: seq<Option<TicketRef>>)
    ensures Gone(turns, founds, 0, true) == Gone(turns, founds, 0, false) == []
  {
  }

  lemma OneMoreGone(turns: seq<Turn>, founds: seq<Option<TicketRef>>, next: Option<TicketRef>, n: nat)
    requires n < |turns| && |founds| == n + 1
    ensures forall r ::
              (r in Gone(turns, founds + [next], n + 1, true) || r in Gone(turns, founds + [next], n + 1, false)) <==>
              (r in Gone(turns, founds, n, true) || r in Gone(turns, founds, n, false) || Taken(turns[n], founds[n]) == Some(r))
  {
    GonePrefix(turns, founds, founds + [next], n, true);
    GonePrefix(turns, founds, founds + [next], n, false);
  }

  lemma Hangs(s: TicketStore, lost: TicketRef)
    requires Below(s, lost) && !Finds(s.tickets, s.lastBucketFetched)
    ensures !ScanEnds(s.refs, s.lastBucketFetched)
  {
    hide Filed, Exact, Owned, Counted, ScanEnds;
    ScanEndsExactly(s.tickets, s.refs, s.lastBucketFetched);
  }
}
