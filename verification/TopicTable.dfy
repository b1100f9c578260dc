/**
 The discovery v5 registrar (`p2p/discv5/topic.go`): one set of advertisements, indexed
 by topic (a FIFO per topic) and by advertising node, with caps per topic, per node and in
 all, and a queue of the tabled topics by how recently they were asked for.

 A `*Node` is a `NodeId`; the clock is read once per operation (`now`, in nanoseconds);
 `idle(t)` says whether topic `t`'s wait control loop, which computes in floating point,
 is at its minimum period at that moment.
 */
module Registrar {
  import opened Collections
  import opened TopicQueue

  type NodeId = nat

  const MAX_ENTRIES := 10000
  const MAX_ENTRIES_PER_TOPIC := 50
  const SECOND := 1_000_000_000
  const FALLBACK_REGISTRATION_EXPIRY := 3600 * SECOND
  const GC_INTERVAL := 60 * SECOND
  const REG_TIME_WINDOW := 10
  const MIN_WAIT_PERIOD := 60 * SECOND
  const UINT32 := 0x1_0000_0000
  const UINT64 := 0x1_0000_0000_0000_0000

  class TopicEntry {
    const topic: Topic
    const fifoIdx: nat
    const node: NodeId
    var expire: int

    constructor (topic: Topic, fifoIdx: nat, node: NodeId, expire: int)
      ensures this.topic == topic && this.fifoIdx == fifoIdx && this.node == node && this.expire == expire
    {
      this.topic, this.fifoIdx, this.node, this.expire := topic, fifoIdx, node, expire;
    }
  }

  /** Live indices lie in `[fifoTail, fifoHead)`; the smallest one is the oldest entry. */
  datatype TopicInfo = TopicInfo(entries: map<nat, TopicEntry>, fifoHead: nat, fifoTail: nat)

  datatype NodeInfo = NodeInfo(entries: map<Topic, TopicEntry>, lastIssuedTicket: nat, lastUsedTicket: nat, noRegUntil: int)

  /** The nodes of a topic's entries. */
  function NodesOf(info: TopicInfo): set<NodeId> {
    set k | k in info.entries :: info.entries[k].node
  }

  type Topics = map<Topic, TopicInfo>
  type Nodes = map<NodeId, NodeInfo>

  // ---------------------------------------------------------------- the two indexes

  /** The topic index holds exactly the live entries, each where its own fields say. */
  ghost predicate TopicSide(topics: Topics, live: set<TopicEntry>) {
    && (forall e :: e in live ==>
          e.topic in topics && e.fifoIdx in topics[e.topic].entries && topics[e.topic].entries[e.fifoIdx] == e)
    && (forall t, k :: t in topics && k in topics[t].entries ==>
          topics[t].entries[k] in live && topics[t].entries[k].topic == t && topics[t].entries[k].fifoIdx == k)
  }

  ghost predicate NodeSide(nodes: Nodes, live: set<TopicEntry>) {
    && (forall e :: e in live ==>
          e.node in nodes && e.topic in nodes[e.node].entries && nodes[e.node].entries[e.topic] == e)
    && (forall n, t :: n in nodes && t in nodes[n].entries ==>
          nodes[n].entries[t] in live && nodes[n].entries[t].node == n && nodes[n].entries[t].topic == t)
  }

  ghost predicate InWindow(topics: Topics, e: TopicEntry) {
    e.topic in topics && topics[e.topic].fifoTail <= e.fifoIdx < topics[e.topic].fifoHead
  }

  ghost predicate Windowed(topics: Topics, live: set<TopicEntry>) {
    && (forall e :: e in live ==> InWindow(topics, e))
    && (forall t :: t in topics ==> topics[t].fifoTail <= topics[t].fifoHead)
  }

  ghost predicate TopicCap(topics: Topics) {
    forall t :: t in topics ==> |topics[t].entries| <= MAX_ENTRIES_PER_TOPIC
  }

  ghost predicate NodeCap(nodes: Nodes) {
    forall n :: n in nodes ==> |nodes[n].entries| <= 1
  }

  ghost predicate Oldest(live: set<TopicEntry>, e: TopicEntry) {
    e in live && forall f :: f in live && f.topic == e.topic ==> e.fifoIdx <= f.fifoIdx
  }

  function Unlink(info: TopicInfo, e: TopicEntry): TopicInfo {
    info.(entries := info.entries - {e.fifoIdx})
  }

  /** The topic index without `e`: an emptied topic goes too if it is idle. */
  function TopicsWithout(topics: Topics, e: TopicEntry, idle: Topic -> bool): Topics {
    if e.topic !in topics then topics else
      var left := Unlink(topics[e.topic], e);
      if |left.entries| == 0 && idle(e.topic) then topics - {e.topic} else topics[e.topic := left]
  }

  /** The topic index after `e`'s topic moved its tail past `e` and then lost `e`. */
  function TopicsEvicted(topics: Topics, e: TopicEntry, idle: Topic -> bool): Topics {
    if e.topic !in topics then topics else
      TopicsWithout(topics[e.topic := topics[e.topic].(fifoTail := e.fifoIdx + 1)], e, idle)
  }

  /** The node index without `e`: an emptied node goes too once it may register again. */
  function NodesWithout(nodes: Nodes, e: TopicEntry, now: int): Nodes {
    if e.node !in nodes then nodes else
      var left := nodes[e.node].(entries := nodes[e.node].entries - {e.topic});
      if |left.entries| == 0 && left.noRegUntil < now then nodes - {e.node} else nodes[e.node := left]
  }

  lemma TopicsWithoutCases(topics: Topics, e: TopicEntry, idle: Topic -> bool)
    requires e.topic in topics
    ensures var left := Unlink(topics[e.topic], e);
            if |left.entries| == 0 && idle(e.topic) then
              && TopicsWithout(topics, e, idle) == topics[e.topic := left] - {e.topic}
              && TopicsWithout(topics, e, idle).Keys == topics.Keys - {e.topic}
            else
              && TopicsWithout(topics, e, idle) == topics[e.topic := left]
              && TopicsWithout(topics, e, idle).Keys == topics.Keys
  {
  }

  lemma TopicSideWithout(topics: Topics, live: set<TopicEntry>, e: TopicEntry, idle: Topic -> bool)
    requires TopicSide(topics, live) && e in live
    ensures e.topic in topics
    ensures TopicSide(TopicsWithout(topics, e, idle), live - {e})
  {
  }

  lemma TopicCapWithout(topics: Topics, e: TopicEntry, idle: Topic -> bool)
    requires e.topic in topics && TopicCap(topics)
    ensures TopicCap(TopicsWithout(topics, e, idle))
  {
    DropNoLarger(topics[e.topic].entries, e.fifoIdx);
  }

  lemma WindowsWithout(topics: Topics, live: set<TopicEntry>, e: TopicEntry, idle: Topic -> bool)
    requires TopicSide(topics, live) && e in live && Windowed(topics, live - {e})
    ensures e.topic in topics && Windowed(TopicsWithout(topics, e, idle), live - {e})
  {
    forall f | f in live - {e} ensures InWindow(TopicsWithout(topics, e, idle), f) {
      assert InWindow(topics, f);
      assert topics[e.topic].entries[e.fifoIdx] == e;
      if f.topic == e.topic {
        assert topics[e.topic].entries[f.fifoIdx] == f;
      }
    }
  }

  lemma NodeSideWithout(nodes: Nodes, live: set<TopicEntry>, e: TopicEntry, now: int)
    requires NodeSide(nodes, live) && e in live
    ensures e.node in nodes
    ensures NodeSide(NodesWithout(nodes, e, now), live - {e})
  {
  }

  lemma NodeCapWithout(nodes: Nodes, e: TopicEntry, now: int)
    requires e.node in nodes && NodeCap(nodes)
    ensures NodeCap(NodesWithout(nodes, e, now))
  {
    DropNoLarger(nodes[e.node].entries, e.topic);
  }

  lemma DropNoLarger<K, V>(m: map<K, V>, k: K)
    ensures |m - {k}| <= |m|
  {
    assert (m - {k}).Keys == m.Keys - {k};
    assert |m.Keys - {k}| <= |m.Keys|;
  }

  function Counters(db: map<NodeId, (nat, nat)>, n: NodeId): (nat, nat) {
    if n in db then db[n] else (0, 0)
  }

  /** The database has the current ticket counters of every tabled node. */
  ghost predicate Recorded(nodes: Nodes, db: map<NodeId, (nat, nat)>) {
    forall n :: n in nodes ==> Counters(db, n) == (nodes[n].lastIssuedTicket, nodes[n].lastUsedTicket)
  }

  lemma RecordedWithout(nodes: Nodes, db: map<NodeId, (nat, nat)>, e: TopicEntry, now: int)
    requires e.node in nodes
    ensures Recorded(nodes, db) ==> Recorded(NodesWithout(nodes, e, now), db)
  {
  }

  /** What a node has besides its entries: the last serials issued and used, and until when no newer one is admitted. */
  function Standing(info: NodeInfo): (nat, nat, int) {
    (info.lastIssuedTicket, info.lastUsedTicket, info.noRegUntil)
  }

  /** A node whose timeout is still running at `now` keeps it, and the serial it last used. */
  ghost predicate TimeoutsStand(before: Nodes, after: Nodes, now: int) {
    forall n :: n in before && now < before[n].noRegUntil ==>
      n in after && after[n].lastUsedTicket == before[n].lastUsedTicket && after[n].noRegUntil == before[n].noRegUntil
  }

  lemma StandsAsBefore(nodes: Nodes, now: int)
    ensures TimeoutsStand(nodes, nodes, now)
  {
  }

  lemma WithoutStands(nodes: Nodes, e: TopicEntry, now: int)
    ensures TimeoutsStand(nodes, NodesWithout(nodes, e, now), now)
  {
  }

  lemma StandsOn(a: Nodes, b: Nodes, c: Nodes, now: int)
    requires TimeoutsStand(a, b, now) && TimeoutsStand(b, c, now)
    ensures TimeoutsStand(a, c, now)
  {
  }

  lemma ChangedStands(nodes: Nodes, node: NodeId, info: NodeInfo, now: int)
    requires node in nodes && now < nodes[node].noRegUntil ==>
               info.lastUsedTicket == nodes[node].lastUsedTicket && info.noRegUntil == nodes[node].noRegUntil
    ensures TimeoutsStand(nodes, nodes[node := info], now)
  {
  }

  ghost predicate Consistent(topics: Topics, nodes: Nodes, live: set<TopicEntry>, globalEntries: nat) {
    && TopicSide(topics, live) && TopicCap(topics) && NodeSide(nodes, live) && NodeCap(nodes)
    && globalEntries == |live| <= MAX_ENTRIES
  }

  lemma ConsistentWithout(topics: Topics, nodes: Nodes, live: set<TopicEntry>, globalEntries: nat,
                          e: TopicEntry, now: int, idle: Topic -> bool)
    requires Consistent(topics, nodes, live, globalEntries) && e in live
    ensures globalEntries > 0 && e.topic in topics && e.node in nodes
    ensures Consistent(TopicsWithout(topics, e, idle), NodesWithout(nodes, e, now), live - {e}, globalEntries - 1)
  {
    hide TopicSide, NodeSide, TopicCap, NodeCap, TopicsWithout, NodesWithout;
    TopicSideWithout(topics, live, e, idle);
    TopicCapWithout(topics, e, idle);
    NodeSideWithout(nodes, live, e, now);
    NodeCapWithout(nodes, e, now);
    assert |live - {e}| == |live| - 1;
  }

  lemma WindowedWithout(topics: Topics, nodes: Nodes, live: set<TopicEntry>, globalEntries: nat, e: TopicEntry, idle: Topic -> bool)
    requires Consistent(topics, nodes, live, globalEntries) && e in live && Windowed(topics, live - {e})
    ensures e.topic in topics && Windowed(TopicsWithout(topics, e, idle), live - {e})
  {
    hide TopicSide, NodeSide, TopicsWithout;
    WindowsWithout(topics, live, e, idle);
  }

  /** Everything below `k` being absent, the entry at `k` is the oldest of its topic. */
  lemma TailIsOldest(topics: Topics, nodes: Nodes, live: set<TopicEntry>, globalEntries: nat, topic: Topic, k: nat)
    requires Consistent(topics, nodes, live, globalEntries) && Windowed(topics, live)
    requires topic in topics && k in topics[topic].entries && topics[topic].fifoTail <= k
    requires forall j :: topics[topic].fifoTail <= j < k ==> j !in topics[topic].entries
    ensures var e := topics[topic].entries[k];
            var moved := topics[topic := topics[topic].(fifoTail := k + 1)];
            && e.topic == topic && e.fifoIdx == k && e in live && Oldest(live, e)
            && Consistent(moved, nodes, live, globalEntries) && Windowed(moved, live - {e})
  {
    hide NodeSide, NodeCap;
    var e := topics[topic].entries[k];
    forall f | f in live - {e} && f.topic == topic ensures k < f.fifoIdx {
      assert topics[topic].entries[f.fifoIdx] == f;
    }
  }

  lemma SomeEntryInWindow(topics: Topics, nodes: Nodes, live: set<TopicEntry>, globalEntries: nat, topic: Topic) returns (k: nat)
    requires Consistent(topics, nodes, live, globalEntries) && Windowed(topics, live)
    requires topic in topics && |topics[topic].entries| > 0
    ensures k in topics[topic].entries && topics[topic].fifoTail <= k < topics[topic].fifoHead
  {
    hide NodeSide, NodeCap;
    k :| k in topics[topic].entries;
    assert InWindow(topics, topics[topic].entries[k]);
  }

  ghost function Survivors(live: set<TopicEntry>, node: NodeId): set<TopicEntry> {
    set e | e in live && e.node != node
  }

  ghost function OfTopic(live: set<TopicEntry>, topic: Topic): set<TopicEntry> {
    set e | e in live && e.topic == topic
  }

  /** The nodes that have a registration for the topic. */
  ghost function Advertisers(live: set<TopicEntry>, topic: Topic): set<NodeId> {
    set e | e in live && e.topic == topic :: e.node
  }

  lemma Remainder(before: set<TopicEntry>, after: set<TopicEntry>, gone: set<TopicEntry>)
    requires before - gone <= after <= before && after * gone <= {}
    ensures after == before - gone
  {
    assert forall e :: e in after && e in gone ==> e in after * gone;
  }

  lemma {:induction false} InjectiveSize<K, V>(m: map<K, V>)
    requires forall a, b :: a in m && b in m && m[a] == m[b] ==> a == b
    ensures |m.Values| == |m|
  {
    if m != map[] {
      var k :| k in m;
      var rest := m - {k};
      assert rest.Keys == m.Keys - {k};
      assert rest.Values == m.Values - {m[k]} by {
        forall v | v in m.Values - {m[k]} ensures v in rest.Values {
          var j :| j in m && m[j] == v;
          assert j in rest && rest[j] == v;
        }
      }
      InjectiveSize(rest);
    }
  }

  lemma TopicCount(topics: Topics, live: set<TopicEntry>, topic: Topic)
    requires TopicSide(topics, live)
    ensures |OfTopic(live, topic)| == if topic in topics then |topics[topic].entries| else 0
  {
    if topic in topics {
      InjectiveSize(topics[topic].entries);
      assert OfTopic(live, topic) == topics[topic].entries.Values;
    } else {
      assert OfTopic(live, topic) == {};
    }
  }

  lemma NodeCleared(nodes: Nodes, live: set<TopicEntry>, node: NodeId)
    requires NodeSide(nodes, live) && node in nodes
    ensures Survivors(live, node) == live <==> nodes[node].entries == map[]
    ensures forall e :: e in nodes[node].entries.Values ==> e in live && e.node == node
    ensures forall e :: e in live && e.node == node ==> e in nodes[node].entries.Values
  {
    forall e | e in live && e.node == node ensures e in nodes[node].entries.Values {
      assert nodes[node].entries[e.topic] == e;
    }
  }

  lemma ClearedWhenEmpty(topics: Topics, nodes: Nodes, live: set<TopicEntry>, globalEntries: nat, node: NodeId)
    requires Consistent(topics, nodes, live, globalEntries) && node in nodes
    ensures Survivors(live, node) == live <==> nodes[node].entries == map[]
    ensures forall e :: e in nodes[node].entries.Values ==> e in live && e.node == node
    ensures forall e :: e in live && e.node == node ==> e in nodes[node].entries.Values
    ensures globalEntries == |live|
  {
    hide TopicSide, NodeSide, TopicCap, NodeCap;
    NodeCleared(nodes, live, node);
  }

  lemma WindowedSubset(topics: Topics, live: set<TopicEntry>, fewer: set<TopicEntry>)
    requires Windowed(topics, live) && fewer <= live
    ensures Windowed(topics, fewer)
  {
  }

  /** What `addEntry` is to evict from `live` to make room for an entry of `topic`. */
  ghost predicate EvictedAsDue(live: set<TopicEntry>, topic: Topic, leastRequested: Topic, evicted: set<TopicEntry>) {
    if |OfTopic(live, topic)| == MAX_ENTRIES_PER_TOPIC then
      exists e | e in live :: evicted == {e} && e.topic == topic && Oldest(live, e)
    else if |live| == MAX_ENTRIES then
      exists e | e in live :: evicted == {e} && e.topic == leastRequested && Oldest(live, e)
    else
      evicted == {}
  }

  lemma Evicted(topics: Topics, nodes: Nodes, live: set<TopicEntry>, globalEntries: nat,
                e: TopicEntry, now: int, idle: Topic -> bool, node: NodeId)
    requires Consistent(topics, nodes, live, globalEntries) && e in live
    ensures var after := TopicsEvicted(topics, e, idle);
            && (e.topic !in after <==> |topics[e.topic].entries| == 1 && idle(e.topic))
            && (e.topic in after ==> |after[e.topic].entries| == |topics[e.topic].entries| - 1)
            && (forall t :: t != e.topic ==> (t in after <==> t in topics))
            && (forall t :: t != e.topic && t in topics ==> after[t] == topics[t])
    ensures node in nodes && nodes[node].entries == map[] ==>
              node in NodesWithout(nodes, e, now) && NodesWithout(nodes, e, now)[node] == nodes[node]
  {
    hide TopicSide, NodeSide, TopicCap, NodeCap, TopicsEvicted;
    EntryIndexed(topics, nodes, live, e);
    EvictedFromTopic(topics, e, idle);
  }

  lemma EntryIndexed(topics: Topics, nodes: Nodes, live: set<TopicEntry>, e: TopicEntry)
    requires TopicSide(topics, live) && NodeSide(nodes, live) && e in live
    ensures e.topic in topics && e.fifoIdx in topics[e.topic].entries
    ensures e.node in nodes && e.topic in nodes[e.node].entries
  {
  }

  lemma EvictedFromTopic(topics: Topics, e: TopicEntry, idle: Topic -> bool)
    requires e.topic in topics && e.fifoIdx in topics[e.topic].entries
    ensures var after := TopicsEvicted(topics, e, idle);
            && (e.topic !in after <==> |topics[e.topic].entries| == 1 && idle(e.topic))
            && (e.topic in after ==> |after[e.topic].entries| == |topics[e.topic].entries| - 1)
            && (forall t :: t != e.topic ==> (t in after <==> t in topics))
            && (forall t :: t != e.topic && t in topics ==> after[t] == topics[t])
  {
    hide TopicsEvicted;
    var m := topics[e.topic].entries;
    assert (m - {e.fifoIdx}).Keys == m.Keys - {e.fifoIdx};
    EvictedTopics(topics, e, idle);
  }

  lemma EvictedTopics(topics: Topics, e: TopicEntry, idle: Topic -> bool)
    requires e.topic in topics
    ensures var left := topics[e.topic].entries - {e.fifoIdx};
            TopicsEvicted(topics, e, idle) == if |left| == 0 && idle(e.topic) then topics - {e.topic}
              else topics[e.topic := TopicInfo(left, topics[e.topic].fifoHead, e.fifoIdx + 1)]
  {
  }

  lemma NodeHasNoEntries(topics: Topics, nodes: Nodes, live: set<TopicEntry>, globalEntries: nat, node: NodeId)
    requires Consistent(topics, nodes, live, globalEntries)
    ensures (node in nodes ==> nodes[node].entries == map[]) <==> Survivors(live, node) == live
    ensures globalEntries == |live| && |Survivors(live, node)| <= |live|
    ensures |Survivors(live, node)| == |live| ==> Survivors(live, node) == live
  {
    hide TopicSide;
    if node in nodes {
      NodeCleared(nodes, live, node);
    } else {
      assert Survivors(live, node) == live;
    }
    var gone := live - Survivors(live, node);
    assert |Survivors(live, node)| + |gone| == |Survivors(live, node) + gone|;
    assert Survivors(live, node) + gone == live;
  }

  lemma TopicCounts(topics: Topics, nodes: Nodes, live: set<TopicEntry>, globalEntries: nat, topic: Topic)
    requires Consistent(topics, nodes, live, globalEntries)
    ensures |OfTopic(live, topic)| == if topic in topics then |topics[topic].entries| else 0
    ensures topic in topics ==> |topics[topic].entries| <= MAX_ENTRIES_PER_TOPIC
    ensures globalEntries == |live| <= MAX_ENTRIES
    ensures |live| > 0 ==> topics != map[]
  {
    hide NodeSide;
    TopicCount(topics, live, topic);
    if |live| > 0 {
      var e :| e in live;
      assert e.topic in topics;
    }
  }

  /** Priorities only ever leave the queue. */
  ghost predicate Trimmed(before: map<Topic, nat>, after: map<Topic, nat>) {
    forall t :: t in after ==> t in before && after[t] == before[t]
  }

  lemma TrimmedComposes(a: map<Topic, nat>, b: map<Topic, nat>, c: map<Topic, nat>)
    requires Trimmed(a, b) && Trimmed(b, c)
    ensures Trimmed(a, c)
  {
  }

  lemma TrimmedNot(a: map<Topic, nat>)
    ensures Trimmed(a, a)
  {
  }

  /** Nobody with a registration in `live` asked for a topic longer ago than `head` was asked for. */
  ghost predicate LeastRequested(priority: map<Topic, nat>, live: set<TopicEntry>, head: Topic) {
    head in priority && forall e :: e in live ==> e.topic in priority && priority[head] <= priority[e.topic]
  }

  lemma LeastRequestedBefore(before: map<Topic, nat>, after: map<Topic, nat>, live: set<TopicEntry>, head: Topic)
    requires Trimmed(before, after) && LeastRequested(after, live, head)
    ensures LeastRequested(before, live, head)
  {
  }

  /** A new registration of `node` for `topic` finds the whole table full, and its topic not. */
  ghost predicate TableFull(live: set<TopicEntry>, node: NodeId, topic: Topic) {
    |live| == MAX_ENTRIES && Survivors(live, node) == live && |OfTopic(live, topic)| < MAX_ENTRIES_PER_TOPIC
  }

  ghost predicate Registered(live: set<TopicEntry>, node: NodeId, topic: Topic) {
    exists e :: e in live && e.node == node && e.topic == topic
  }

  lemma RegisteredAt(topics: Topics, nodes: Nodes, live: set<TopicEntry>, globalEntries: nat, node: NodeId, topic: Topic)
    requires Consistent(topics, nodes, live, globalEntries) && node in nodes
    ensures topic in nodes[node].entries <==> Registered(live, node, topic)
    ensures topic in nodes[node].entries ==>
              var e := nodes[node].entries[topic]; e in live && e.node == node && e.topic == topic
  {
    hide TopicSide;
    if e :| e in live && e.node == node && e.topic == topic {
      assert topic in nodes[node].entries;
    }
  }

  lemma TrimmedLess(a: map<Topic, nat>, t: Topic)
    ensures Trimmed(a, a - {t})
  {
  }

  lemma HeadMattersWhenFull(live: set<TopicEntry>, topic: Topic, before: Topic, after: Topic, evicted: set<TopicEntry>)
    requires EvictedAsDue(live, topic, after, evicted)
    requires |live| == MAX_ENTRIES ==> before == after
    ensures EvictedAsDue(live, topic, before, evicted)
  {
  }

  /** `after` differs from `before` only in what it has for `node`, whose counters it keeps. */
  ghost predicate OnlyTouches(before: Nodes, after: Nodes, node: NodeId) {
    && before - {node} == after - {node}
    && (node in after ==>
          && node in before
          && after[node].lastIssuedTicket == before[node].lastIssuedTicket
          && after[node].lastUsedTicket == before[node].lastUsedTicket
          && after[node].noRegUntil == before[node].noRegUntil)
  }

  lemma DeletionTouches(before: Nodes, nodes: Nodes, e: TopicEntry, now: int)
    requires OnlyTouches(before, nodes, e.node) && e.node in before
    requires e.node !in nodes ==> before[e.node].noRegUntil < now
    ensures OnlyTouches(before, NodesWithout(nodes, e, now), e.node)
    ensures e.node !in NodesWithout(nodes, e, now) ==> before[e.node].noRegUntil < now
    ensures e.node !in nodes ==> e.node !in NodesWithout(nodes, e, now)
    ensures e.node in NodesWithout(nodes, e, now) && NodesWithout(nodes, e, now)[e.node].entries == map[] ==>
              before[e.node].noRegUntil >= now
  {
    var after := NodesWithout(nodes, e, now);
    assert after - {e.node} == nodes - {e.node};
  }

  lemma TouchesNothing(nodes: Nodes, node: NodeId)
    ensures OnlyTouches(nodes, nodes, node)
  {
  }

  lemma RemovalTouches(before: Nodes, nodes: Nodes, node: NodeId)
    requires OnlyTouches(before, nodes, node)
    ensures OnlyTouches(before, nodes - {node}, node)
    ensures node in nodes ==> node in before && nodes[node].noRegUntil == before[node].noRegUntil
  {
    assert nodes - {node} - {node} == nodes - {node};
  }

  lemma TouchedStands(before: Nodes, after: Nodes, node: NodeId, now: int)
    requires OnlyTouches(before, after, node)
    requires node in before && node !in after ==> before[node].noRegUntil < now
    ensures TimeoutsStand(before, after, now)
  {
    forall n | n in before && n != node ensures n in after && after[n] == before[n] {
      assert n in before - {node} && (before - {node})[n] == before[n];
    }
  }

  /** A node is tabled, cleared and tabled again. */
  lemma ClearedAndBack(before: Nodes, start: Nodes, cleared: Nodes, after: Nodes, node: NodeId, now: int)
    requires node in start && (if node in before then start == before else start == before[node := start[node]])
    requires OnlyTouches(start, cleared, node) && (node !in cleared ==> start[node].noRegUntil < now)
    requires node in after && (if node in cleared then after == cleared else after == cleared[node := after[node]])
    ensures TimeoutsStand(before, after, now)
    ensures node in cleared ==> Standing(after[node]) == Standing(start[node])
  {
    TouchedStands(start, cleared, node, now);
  }

  lemma SweptStands(before: Nodes, after: Nodes, live: set<TopicEntry>, done: set<NodeId>, now: int)
    requires Swept(before, after, live, done, now)
    ensures TimeoutsStand(before, after, now)
  {
  }

  /** The sweep so far: of the nodes in `done` exactly those are gone that hold no entry and may register again. */
  ghost predicate Swept(before: Nodes, after: Nodes, live: set<TopicEntry>, done: set<NodeId>, now: int) {
    && (forall n :: n in after ==>
          && n in before
          && after[n].lastIssuedTicket == before[n].lastIssuedTicket
          && after[n].lastUsedTicket == before[n].lastUsedTicket
          && after[n].noRegUntil == before[n].noRegUntil)
    && (forall n :: n in before ==>
          (n !in after <==> n in done && before[n].noRegUntil < now && Survivors(live, n) == live))
  }

  lemma SweptMore(before: Nodes, mid: Nodes, after: Nodes, liveMid: set<TopicEntry>, live: set<TopicEntry>,
                  done: set<NodeId>, node: NodeId, now: int)
    requires Swept(before, mid, liveMid, done, now) && node in mid && node !in done
    requires OnlyTouches(mid, after, node) && live <= liveMid && forall e :: e in liveMid - live ==> e.node == node
    requires node !in after <==> mid[node].noRegUntil < now && Survivors(live, node) == live
    ensures Swept(before, after, live, done + {node}, now)
  {
    assert forall n :: n != node ==> (n in mid - {node} <==> n in mid) && (n in after - {node} <==> n in after);
    forall n | n in before && n != node ensures n in after <==> n in mid {
      assert n in mid - {node} <==> n in after - {node};
    }
    forall n | n in after && n != node ensures after[n] == mid[n] {
      assert (after - {node})[n] == (mid - {node})[n];
    }
    forall n | n in before && n != node ensures (Survivors(live, n) == live) == (Survivors(liveMid, n) == liveMid) {
      forall e | e in liveMid && e.node == n ensures e in live {
        assert e !in liveMid - live;
      }
      if Survivors(liveMid, n) == liveMid {
        assert Survivors(live, n) == live;
      }
    }
  }

  lemma LiveNodesTabled(topics: Topics, nodes: Nodes, live: set<TopicEntry>, globalEntries: nat)
    requires Consistent(topics, nodes, live, globalEntries)
    ensures forall e :: e in live ==> e.node in nodes
  {
    hide TopicSide;
  }

  lemma LiveTopicsTabled(topics: Topics, nodes: Nodes, live: set<TopicEntry>, globalEntries: nat)
    requires Consistent(topics, nodes, live, globalEntries)
    ensures forall e :: e in live ==> e.topic in topics
  {
    hide NodeSide;
  }

  lemma SweptNothing(nodes: Nodes, live: set<TopicEntry>, now: int)
    ensures Swept(nodes, nodes, live, {}, now)
  {
  }

  lemma SweptKeeps(mid: Nodes, after: Nodes, node: NodeId)
    requires OnlyTouches(mid, after, node)
    ensures mid.Keys - {node} <= after.Keys
  {
    assert (mid - {node}).Keys == mid.Keys - {node};
    assert (after - {node}).Keys == after.Keys - {node};
  }

  lemma CountersChanged(topics: Topics, nodes: Nodes, live: set<TopicEntry>, globalEntries: nat, node: NodeId, info: NodeInfo,
                        db: map<NodeId, (nat, nat)>)
    requires Consistent(topics, nodes, live, globalEntries) && node in nodes && info.entries == nodes[node].entries
    ensures Consistent(topics, nodes[node := info], live, globalEntries)
    ensures Recorded(nodes, db) ==>
              Recorded(nodes[node := info], db[node := (info.lastIssuedTicket, info.lastUsedTicket)])
  {
    hide TopicSide, NodeSide;
    EmptyNodeAdded(topics, nodes, live, globalEntries, node, info);
  }

  /** A serial is admitted unless a newer one was used, and one newer than all used not before the timeout is over. */
  predicate Admits(s: (nat, nat, int), serialNo: nat, now: int) {
    serialNo >= s.1 && (serialNo > s.1 ==> now >= s.2)
  }

  /** What a node has once it has come with a serial: a newer one, if admitted, is on record, and starts the timeout. */
  function AfterUse(s: (nat, nat, int), serialNo: nat, now: int, noRegTimeout: nat): (nat, nat, int) {
    if serialNo > s.1 && Admits(s, serialNo, now) then (s.0, serialNo, now + noRegTimeout) else s
  }

  /** The signed distance, in seconds, of the clock from a ticket's registration time, in 64-bit arithmetic. */
  function RelativeTime(now: nat, issueTime: nat, waitPeriod: nat): int {
    var d := (now / SECOND - issueTime - waitPeriod) % UINT64;
    if d < UINT64 / 2 then d else d - UINT64
  }

  predicate InTime(now: nat, issueTime: nat, waitPeriod: nat) {
    -1 <= RelativeTime(now, issueTime, waitPeriod) <= REG_TIME_WINDOW + 1
  }

  /** For times that fit their types the window is one second before to eleven seconds after the due second. */
  lemma InTimeWindow(now: nat, issueTime: nat, waitPeriod: nat)
    requires now / SECOND < UINT64 / 4 && issueTime < UINT64 / 4 && waitPeriod < UINT32
    ensures InTime(now, issueTime, waitPeriod) <==>
              issueTime + waitPeriod - 1 <= now / SECOND <= issueTime + waitPeriod + REG_TIME_WINDOW + 1
  {
    var x := now / SECOND - issueTime - waitPeriod;
    if x >= 0 {
      assert x % UINT64 == x;
    } else {
      assert x % UINT64 == x + UINT64;
    }
  }

  /**
   A ticket is honoured when it is due: issued at `issued` with this wait, both told to the node in whole
   seconds, it is in time from one second before until ten seconds after.
   */
  lemma DueTicketInTime(issued: nat, wait: nat, now: nat)
    requires issued / SECOND < UINT64 / 4 && now / SECOND < UINT64 / 4 && wait / SECOND < UINT32
    requires issued + wait - SECOND <= now <= issued + wait + REG_TIME_WINDOW * SECOND
    ensures InTime(now, issued / SECOND, wait / SECOND)
  {
    InTimeWindow(now, issued / SECOND, wait / SECOND);
  }

  lemma AtMostOneKey<K, V>(m: map<K, V>, a: K, b: K)
    requires |m| <= 1 && a in m && b in m
    ensures a == b
  {
    assert |m.Keys - {a}| == |m.Keys| - 1;
    assert m.Keys - {a} == {};
  }

  lemma OneEntryPerNode(nodes: Nodes, live: set<TopicEntry>, e: TopicEntry, f: TopicEntry)
    requires NodeSide(nodes, live) && NodeCap(nodes) && e in live && f in live && e.node == f.node
    ensures e == f
  {
    AtMostOneKey(nodes[e.node].entries, e.topic, f.topic);
  }

  /** What the caps mean for the set of registrations itself. */
  lemma RegistrationsCapped(topics: Topics, nodes: Nodes, live: set<TopicEntry>, globalEntries: nat)
    requires Consistent(topics, nodes, live, globalEntries)
    ensures |live| <= MAX_ENTRIES
    ensures forall t :: |OfTopic(live, t)| <= MAX_ENTRIES_PER_TOPIC
    ensures forall e, f :: e in live && f in live && e.node == f.node ==> e == f
  {
    hide TopicSide, NodeSide, TopicCap, NodeCap;
    forall t ensures |OfTopic(live, t)| <= MAX_ENTRIES_PER_TOPIC {
      TopicCounts(topics, nodes, live, globalEntries, t);
    }
    forall e, f | e in live && f in live && e.node == f.node ensures e == f {
      OneEntryPerNode(nodes, live, e, f);
    }
  }

  lemma TopicNodes(topics: Topics, nodes: Nodes, live: set<TopicEntry>, globalEntries: nat, topic: Topic)
    requires Consistent(topics, nodes, live, globalEntries)
    ensures topic in topics ==>
              NodesOf(topics[topic]) == Advertisers(live, topic)
    ensures topic !in topics ==> Advertisers(live, topic) == {}
  {
    hide NodeSide;
    if topic in topics {
      var m := topics[topic].entries;
      forall e | e in live && e.topic == topic ensures e.node in NodesOf(topics[topic]) {
        assert m[e.fifoIdx] == e;
      }
    }
  }

  lemma EntryAdded(topics: Topics, nodes: Nodes, live: set<TopicEntry>, globalEntries: nat, e: TopicEntry)
    requires Consistent(topics, nodes, live, globalEntries) && Windowed(topics, live)
    requires e !in live && e.topic in topics && e.node in nodes && nodes[e.node].entries == map[]
    requires |topics[e.topic].entries| < MAX_ENTRIES_PER_TOPIC && globalEntries < MAX_ENTRIES
    requires e.fifoIdx == topics[e.topic].fifoHead
    ensures Consistent(WithEntry(topics, e), nodes[e.node := nodes[e.node].(entries := map[e.topic := e])], live + {e}, globalEntries + 1)
    ensures Windowed(WithEntry(topics, e), live + {e})
    ensures forall f :: f in live && f.topic == e.topic ==> f.fifoIdx < e.fifoIdx
  {
    hide TopicSide, NodeSide, TopicCap, NodeCap, Windowed, WithEntry;
    HeadIsFree(topics, live, e.topic);
    TopicSideWith(topics, live, e);
    TopicCapWith(topics, e);
    WindowedWith(topics, live, e);
    NodeSideWith(nodes, live, e);
    assert |live + {e}| == |live| + 1;
  }

  function WithEntry(topics: Topics, e: TopicEntry): Topics {
    if e.topic !in topics then topics else
      var info := topics[e.topic];
      topics[e.topic := TopicInfo(info.entries[e.fifoIdx := e], info.fifoHead + 1, info.fifoTail)]
  }

  function NodesWith(nodes: Nodes, e: TopicEntry): Nodes {
    if e.node !in nodes then nodes else nodes[e.node := nodes[e.node].(entries := map[e.topic := e])]
  }

  lemma WindowedWith(topics: Topics, live: set<TopicEntry>, e: TopicEntry)
    requires Windowed(topics, live) && e.topic in topics && e.fifoIdx == topics[e.topic].fifoHead
    ensures Windowed(WithEntry(topics, e), live + {e})
    ensures forall f :: f in live && f.topic == e.topic ==> f.fifoIdx < e.fifoIdx
  {
    forall f | f in live && f.topic == e.topic ensures f.fifoIdx < e.fifoIdx {
      assert InWindow(topics, f);
    }
    forall f | f in live ensures InWindow(WithEntry(topics, e), f) {
      assert InWindow(topics, f);
    }
  }

  lemma TopicSideWith(topics: Topics, live: set<TopicEntry>, e: TopicEntry)
    requires TopicSide(topics, live) && e !in live && e.topic in topics && e.fifoIdx !in topics[e.topic].entries
    requires e.fifoIdx == topics[e.topic].fifoHead
    ensures TopicSide(WithEntry(topics, e), live + {e})
  {
    var entries, after := topics[e.topic].entries, WithEntry(topics, e);
    assert after[e.topic].entries == entries[e.fifoIdx := e];
    forall t | t in after && t != e.topic ensures after[t] == topics[t] {
    }
  }

  lemma TopicCapWith(topics: Topics, e: TopicEntry)
    requires TopicCap(topics) && e.topic in topics && |topics[e.topic].entries| < MAX_ENTRIES_PER_TOPIC
    ensures TopicCap(WithEntry(topics, e))
  {
    var entries := topics[e.topic].entries;
    assert entries[e.fifoIdx := e].Keys == entries.Keys + {e.fifoIdx};
    assert |entries.Keys + {e.fifoIdx}| <= |entries.Keys| + 1;
  }

  lemma HeadIsFree(topics: Topics, live: set<TopicEntry>, topic: Topic)
    requires TopicSide(topics, live) && Windowed(topics, live) && topic in topics
    ensures topics[topic].fifoHead !in topics[topic].entries
  {
    forall e | e in live && e.topic == topic ensures e.fifoIdx < topics[topic].fifoHead {
      assert InWindow(topics, e);
    }
  }

  lemma NodeSideWith(nodes: Nodes, live: set<TopicEntry>, e: TopicEntry)
    requires NodeSide(nodes, live) && NodeCap(nodes)
    requires e !in live && e.node in nodes && nodes[e.node].entries == map[]
    ensures var added := nodes[e.node := nodes[e.node].(entries := map[e.topic := e])];
            NodeSide(added, live + {e}) && NodeCap(added)
  {
  }

  lemma EmptyTopicAdded(topics: Topics, nodes: Nodes, live: set<TopicEntry>, globalEntries: nat, topic: Topic)
    requires Consistent(topics, nodes, live, globalEntries) && Windowed(topics, live) && topic !in topics
    ensures var added := topics[topic := TopicInfo(map[], 0, 0)];
            Consistent(added, nodes, live, globalEntries) && Windowed(added, live)
  {
    hide NodeSide;
  }

  lemma EmptyTopicRemoved(topics: Topics, nodes: Nodes, live: set<TopicEntry>, globalEntries: nat, topic: Topic)
    requires Consistent(topics, nodes, live, globalEntries) && Windowed(topics, live)
    requires topic in topics && |topics[topic].entries| == 0
    ensures Consistent(topics - {topic}, nodes, live, globalEntries) && Windowed(topics - {topic}, live)
  {
    hide NodeSide, NodeCap;
    assert forall k :: k !in topics[topic].entries;
    assert forall e :: e in live ==> e.topic != topic;
  }

  lemma EmptyNodeAdded(topics: Topics, nodes: Nodes, live: set<TopicEntry>, globalEntries: nat, node: NodeId, info: NodeInfo)
    requires Consistent(topics, nodes, live, globalEntries)
    requires info.entries == if node in nodes then nodes[node].entries else map[]
    ensures Consistent(topics, nodes[node := info], live, globalEntries)
  {
    hide TopicSide, TopicCap, NodeSide, NodeCap;
    EmptyNodeSide(nodes, live, node, info);
    EmptyNodeCap(nodes, node, info);
  }

  lemma EmptyNodeSide(nodes: Nodes, live: set<TopicEntry>, node: NodeId, info: NodeInfo)
    requires NodeSide(nodes, live) && info.entries == if node in nodes then nodes[node].entries else map[]
    ensures NodeSide(nodes[node := info], live)
  {
  }

  lemma EmptyNodeCap(nodes: Nodes, node: NodeId, info: NodeInfo)
    requires NodeCap(nodes) && info.entries == if node in nodes then nodes[node].entries else map[]
    ensures NodeCap(nodes[node := info])
  {
  }

  lemma EmptyNodeRemoved(topics: Topics, nodes: Nodes, live: set<TopicEntry>, globalEntries: nat, node: NodeId)
    requires Consistent(topics, nodes, live, globalEntries)
    requires node in nodes && |nodes[node].entries| == 0
    ensures Consistent(topics, nodes - {node}, live, globalEntries)
  {
    hide TopicSide;
  }

  // ---------------------------------------------------------------- the table

  datatype AddOutcome =
    | Stored(added: TopicEntry, evicted: set<TopicEntry>)
    | ScanNeverEnds  // getFifoTail looks for the tail of an empty topic
    | Orphaned       // the eviction deleted the very topic being added to

  predicate IsRegistration(e: TopicEntry, node: NodeId, topic: Topic, now: int)
    reads e
  {
    e.node == node && e.topic == topic && e.expire == now + FALLBACK_REGISTRATION_EXPIRY
  }

  /** `e` is the youngest of its topic. */
  ghost predicate IsLast(live: set<TopicEntry>, e: TopicEntry) {
    e in live && forall f :: f in live && f != e && f.topic == e.topic ==> f.fifoIdx < e.fifoIdx
  }

  lemma RegisteredIsNoSurvivor(live: set<TopicEntry>, e: TopicEntry)
    requires e in live
    ensures Survivors(live, e.node) != live
  {
    assert e !in Survivors(live, e.node);
  }

  datatype UseOutcome = Refused | Prolonged(entry: TopicEntry) | Added(add: AddOutcome)

  class TopicTable {
    var topics: Topics
    var nodes: Nodes
    var globalEntries: nat
    var requestCnt: nat
    var lastGarbageCollection: int
    const requested: RequestQueue
    const hasDb: bool
    var db: map<NodeId, (nat, nat)>
    ghost var live: set<TopicEntry>

    /** The ticket counters the database would return for `n`. */
    function Fetch(n: NodeId): (nat, nat)
      reads this
    {
      if hasDb then Counters(db, n) else (0, 0)
    }

    ghost predicate Linked()
      reads this, requested
    {
      && Consistent(topics, nodes, live, globalEntries)
      && requested.Valid() && requested.index.Keys == topics.Keys
      && (forall t :: t in requested.priority ==> requested.priority[t] <= requestCnt)
      && (hasDb ==> Recorded(nodes, db))
    }

    ghost predicate Valid()
      reads this, requested
    {
      Linked() && Windowed(topics, live)
    }

    constructor (hasDb: bool, db: map<NodeId, (nat, nat)>)
      ensures Valid() && live == {} && fresh(requested) && requested.items == []
      ensures this.hasDb == hasDb && this.db == db && nodes == map[] && topics == map[] && requestCnt == 0 && lastGarbageCollection == 0
    {
      topics, nodes, globalEntries, requestCnt, lastGarbageCollection := map[], map[], 0, 0, 0;
      requested := new RequestQueue();
      this.hasDb, this.db := hasDb, db;
      live := {};
    }

    method GetOrNewTopic(topic: Topic)
      requires Valid()
      modifies this`topics, requested
      ensures Valid()
      ensures topics == if topic in old(topics) then old(topics) else old(topics)[topic := TopicInfo(map[], 0, 0)]
      ensures requested.items == if topic in old(topics) then old(requested.items) else old(requested.items) + [topic]
    {
      hide Consistent, Windowed, RequestQueue.Valid;
      if topic !in topics {
        EmptyTopicAdded(topics, nodes, live, globalEntries, topic);
        topics := topics[topic := TopicInfo(map[], 0, 0)];
        requested.Push(topic, requestCnt);
      }
    }

    method CheckDeleteTopic(topic: Topic, idle: Topic -> bool)
      requires Valid()
      modifies this`topics, requested
      ensures Valid()
      ensures Trimmed(old(requested.priority), requested.priority)
      ensures topics == if topic in old(topics) && |old(topics)[topic].entries| == 0 && idle(topic)
                        then old(topics) - {topic} else old(topics)
    {
      hide Consistent, Windowed, RequestQueue.Valid, Trimmed;
      TrimmedNot(requested.priority);
      TrimmedLess(requested.priority, topic);
      if topic in topics && |topics[topic].entries| == 0 && idle(topic) {
        EmptyTopicRemoved(topics, nodes, live, globalEntries, topic);
        topics := topics - {topic};
        requested.Remove(topic);
      }
    }

    method GetOrNewNode(node: NodeId)
      requires Valid()
      modifies this`nodes
      ensures Valid()
      ensures nodes == if node in old(nodes) then old(nodes)
                       else old(nodes)[node := NodeInfo(map[], Fetch(node).0, Fetch(node).1, 0)]
    {
      hide Consistent, Windowed, RequestQueue.Valid;
      if node !in nodes {
        EmptyNodeAdded(topics, nodes, live, globalEntries, node, NodeInfo(map[], Fetch(node).0, Fetch(node).1, 0));
        nodes := nodes[node := NodeInfo(map[], Fetch(node).0, Fetch(node).1, 0)];
      }
    }

    method CheckDeleteNode(node: NodeId, now: int)
      requires Valid()
      modifies this`nodes
      ensures Valid()
      ensures nodes == if node in old(nodes) && |old(nodes)[node].entries| == 0 && old(nodes)[node].noRegUntil < now
                       then old(nodes) - {node} else old(nodes)
    {
      hide Consistent, Windowed, RequestQueue.Valid;
      if node in nodes && |nodes[node].entries| == 0 && nodes[node].noRegUntil < now {
        EmptyNodeRemoved(topics, nodes, live, globalEntries, node);
        nodes := nodes - {node};
      }
    }

    method UnlinkFromNode(e: TopicEntry, now: int)
      requires e.node in nodes
      modifies this`nodes
      ensures nodes == NodesWithout(old(nodes), e, now)
      ensures Recorded(old(nodes), db) ==> Recorded(nodes, db)
    {
      hide Recorded;
      RecordedWithout(nodes, db, e, now);
      var left := nodes[e.node].(entries := nodes[e.node].entries - {e.topic});
      nodes := nodes[e.node := left];
      if |left.entries| == 0 && left.noRegUntil < now {
        nodes := nodes - {e.node};
      }
    }

    method UnlinkFromTopic(e: TopicEntry, idle: Topic -> bool)
      requires requested.Valid() && requested.index.Keys == topics.Keys && e.topic in topics
      modifies this`topics, requested
      ensures topics == TopicsWithout(old(topics), e, idle)
      ensures requested.Valid() && requested.index.Keys == topics.Keys
      ensures Trimmed(old(requested.priority), requested.priority)
      ensures e.topic in topics ==> requested.items == old(requested.items)
    {
      hide RequestQueue.Valid, Trimmed, TopicsWithout, Unlink;
      TrimmedNot(requested.priority);
      TopicsWithoutCases(topics, e, idle);
      var info := Unlink(topics[e.topic], e);
      topics := topics[e.topic := info];
      if |info.entries| == 0 && idle(e.topic) {
        TrimmedLess(requested.priority, e.topic);
        topics := topics - {e.topic};
        requested.Remove(e.topic);
      }
    }

    /** `deleteEntry`, of any entry: without a tabled node or topic to delete it from, it dereferences nothing. */
    method Unregister(e: TopicEntry, now: int, idle: Topic -> bool) returns (ok: bool)
      requires requested.Valid() && requested.index.Keys == topics.Keys && globalEntries > 0
      modifies this`topics, this`nodes, this`globalEntries, requested
      ensures ok <==> e.node in old(nodes) && e.topic in old(topics)
      ensures !ok ==> topics == old(topics) && globalEntries == old(globalEntries)
      ensures ok ==> topics == TopicsWithout(old(topics), e, idle) && nodes == NodesWithout(old(nodes), e, now)
      ensures ok ==> globalEntries == old(globalEntries) - 1
      ensures ok && Recorded(old(nodes), db) ==> Recorded(nodes, db)
      ensures requested.Valid() && requested.index.Keys == topics.Keys && Trimmed(old(requested.priority), requested.priority)
      ensures e.topic in topics ==> requested.items == old(requested.items)
    {
      hide Recorded, TopicsWithout, NodesWithout, RequestQueue.Valid, Trimmed;
      TrimmedNot(requested.priority);
      if e.node !in nodes {
        return false;
      }
      UnlinkFromNode(e, now);
      if e.topic !in topics {
        return false;
      }
      UnlinkFromTopic(e, idle);
      globalEntries := globalEntries - 1;
      return true;
    }

    method DeleteEntry(e: TopicEntry, now: int, idle: Topic -> bool)
      requires Linked() && e in live
      requires Windowed(topics, live - {e})
      modifies this`topics, this`nodes, this`globalEntries, this`live, requested
      ensures Valid()
      ensures Trimmed(old(requested.priority), requested.priority)
      ensures live == old(live) - {e} && globalEntries == old(globalEntries) - 1
      ensures topics == TopicsWithout(old(topics), e, idle)
      ensures nodes == NodesWithout(old(nodes), e, now)
      ensures e.topic in topics ==> requested.items == old(requested.items)
    {
      hide Consistent, TopicSide, Windowed, InWindow, Recorded, TopicsWithout, NodesWithout, RequestQueue.Valid;
      ConsistentWithout(topics, nodes, live, globalEntries, e, now, idle);
      WindowedWithout(topics, nodes, live, globalEntries, e, idle);
      var _ := Unregister(e, now, idle);
      live := live - {e};
    }

    /** `getFifoTail`, on a topic that has entries. */
    method GetFifoTail(topic: Topic) returns (tail: TopicEntry)
      requires Valid() && topic in topics && |topics[topic].entries| > 0
      modifies this`topics
      ensures tail.topic == topic && tail in live && Oldest(live, tail)
      ensures topics == old(topics)[topic := old(topics)[topic].(fifoTail := tail.fifoIdx + 1)]
      ensures Linked() && Windowed(topics, live - {tail})
    {
      hide Consistent, Windowed, Oldest, Recorded, RequestQueue.Valid;
      var info := topics[topic];
      ghost var last := SomeEntryInWindow(topics, nodes, live, globalEntries, topic);
      var k := info.fifoTail;
      while k !in info.entries
        invariant info.fifoTail <= k <= last
        invariant forall j :: info.fifoTail <= j < k ==> j !in info.entries
        decreases last - k
      {
        k := k + 1;
      }
      TailIsOldest(topics, nodes, live, globalEntries, topic, k);
      tail := info.entries[k];
      topics := topics[topic := info.(fifoTail := k + 1)];
    }

    /** Drops the oldest entry of a topic that has entries. */
    method EvictOldest(topic: Topic, now: int, idle: Topic -> bool) returns (e: TopicEntry)
      requires Valid() && topic in topics && |topics[topic].entries| > 0
      modifies this`topics, this`nodes, this`globalEntries, this`live, requested
      ensures Valid()
      ensures e in old(live) && e.topic == topic && Oldest(old(live), e) && live == old(live) - {e}
      ensures topics == TopicsEvicted(old(topics), e, idle)
      ensures nodes == NodesWithout(old(nodes), e, now)
      ensures topic in topics ==> requested.items == old(requested.items)
    {
      hide Consistent, Windowed, Oldest, Recorded, TopicsWithout, NodesWithout, RequestQueue.Valid;
      e := GetFifoTail(topic);
      DeleteEntry(e, now, idle);
    }

    /** The first loop of `addEntry`: drops the previous entries of the same node. */
    method ClearNode(node: NodeId, now: int, idle: Topic -> bool)
      requires Valid()
      modifies this`topics, this`nodes, this`globalEntries, this`live, requested
      ensures Valid() && live == Survivors(old(live), node)
      ensures Survivors(old(live), node) == old(live) && node in old(nodes) ==>
                topics == old(topics) && nodes == old(nodes) && requested.items == old(requested.items)
      ensures node in old(nodes) ==>
                OnlyTouches(old(nodes), nodes, node)
                && (node in nodes <==> Survivors(old(live), node) == old(live) || old(nodes)[node].noRegUntil >= now)
    {
      hide Consistent, Windowed, Recorded, RequestQueue.Valid, OnlyTouches, Survivors;
      GetOrNewNode(node);
      ClearEntries(node, now, idle);
    }

    /** The loop itself, over the entries of a tabled node, which goes with the last of them once its timeout is over. */
    method ClearEntries(node: NodeId, now: int, idle: Topic -> bool)
      requires Valid() && node in nodes
      modifies this`topics, this`nodes, this`globalEntries, this`live, requested
      ensures Valid() && live == Survivors(old(live), node)
      ensures Survivors(old(live), node) == old(live) ==>
                topics == old(topics) && nodes == old(nodes) && requested.items == old(requested.items)
      ensures OnlyTouches(old(nodes), nodes, node)
      ensures node in nodes <==> Survivors(old(live), node) == old(live) || old(nodes)[node].noRegUntil >= now
    {
      hide Consistent, Windowed, Recorded, TopicsWithout, NodesWithout, RequestQueue.Valid, OnlyTouches;
      ClearedWhenEmpty(topics, nodes, live, globalEntries, node);
      TouchesNothing(nodes, node);
      var todo := nodes[node].entries.Values;
      while todo != {}
        invariant Valid()
        invariant todo <= live && forall e :: e in todo ==> e.node == node
        invariant Survivors(live, node) == Survivors(old(live), node)
        invariant forall e :: e in live && e.node == node ==> e in todo
        invariant live == old(live) ==> topics == old(topics) && nodes == old(nodes) && requested.items == old(requested.items)
        invariant live <= old(live) && globalEntries == |live|
        invariant OnlyTouches(old(nodes), nodes, node) && (node !in nodes ==> old(nodes)[node].noRegUntil < now && live != old(live))
        invariant live != old(live) && node in nodes && nodes[node].entries == map[] ==> old(nodes)[node].noRegUntil >= now
        decreases todo
      {
        var e :| e in todo;
        assert e in live;
        WindowedSubset(topics, live, live - {e});
        DeletionTouches(old(nodes), nodes, e, now);
        DeleteEntry(e, now, idle);
        todo := todo - {e};
      }
      NodeHasNoEntries(topics, nodes, live, globalEntries, node);
    }

    /** The last step of `addEntry`: a new entry at the head of the topic's FIFO. */
    method Insert(node: NodeId, topic: Topic, now: int) returns (entry: TopicEntry)
      requires Valid() && topic in topics && |topics[topic].entries| < MAX_ENTRIES_PER_TOPIC
      requires node in nodes && nodes[node].entries == map[] && globalEntries < MAX_ENTRIES
      modifies this`topics, this`nodes, this`globalEntries, this`live
      ensures Valid() && fresh(entry) && live == old(live) + {entry}
      ensures entry.topic == topic && entry.node == node && entry.expire == now + FALLBACK_REGISTRATION_EXPIRY
      ensures forall f :: f in live && f != entry && f.topic == topic ==> f.fifoIdx < entry.fifoIdx
      ensures topics == WithEntry(old(topics), entry) && nodes == NodesWith(old(nodes), entry)
    {
      hide Consistent, Windowed, RequestQueue.Valid;
      var info := topics[topic];
      entry := new TopicEntry(topic, info.fifoHead, node, now + FALLBACK_REGISTRATION_EXPIRY);
      EntryAdded(topics, nodes, live, globalEntries, entry);
      topics := topics[topic := TopicInfo(info.entries[info.fifoHead := entry], info.fifoHead + 1, info.fifoTail)];
      nodes := nodes[node := nodes[node].(entries := map[topic := entry])];
      globalEntries, live := globalEntries + 1, live + {entry};
    }

    /** The guard of the global eviction in `addEntry`, in terms of the table before the call. */
    ghost predicate WillEvictGlobally(node: NodeId, topic: Topic)
      reads this
    {
      && globalEntries == MAX_ENTRIES
      && (node in nodes ==> nodes[node].entries == map[])
      && (topic in topics ==> |topics[topic].entries| < MAX_ENTRIES_PER_TOPIC)
    }

    /** How many entries the least-requested topic has. */
    ghost function HeadCount(): nat
      reads this, requested
    {
      if |requested.items| > 0 && requested.items[0] in topics then |topics[requested.items[0]].entries| else 0
    }

    ghost function Head(): Topic
      reads requested
    {
      if |requested.items| > 0 then requested.items[0] else ""
    }

    /** The popping loop of `leastRequested` never runs: the head of the queue is tabled. */
    lemma HeadTabled()
      requires Linked() && topics != map[]
      ensures |requested.items| > 0 && requested.items[0] in topics
    {
      hide Consistent, Recorded, RequestQueue.Valid;
      var t :| t in topics;
      requested.HeadIsLeastRequested(t);
    }

    lemma HeadIsLeast()
      requires Linked() && live != {}
      ensures LeastRequested(requested.priority, live, Head())
    {
      hide Consistent, Recorded, RequestQueue.Valid;
      LiveTopicsTabled(topics, nodes, live, globalEntries);
      forall e | e in live ensures e.topic in requested.priority && Head() in requested.priority
                                   && requested.priority[Head()] <= requested.priority[e.topic] {
        requested.HeadIsLeastRequested(e.topic);
      }
    }

    /** The guards of `addEntry`, in terms of the registrations alone. */
    lemma GuardsOfAddEntry(node: NodeId, topic: Topic)
      requires Linked()
      ensures WillEvictGlobally(node, topic) <==> TableFull(live, node, topic)
      ensures TableFull(live, node, topic) ==> HeadCount() == |OfTopic(live, Head())|
      ensures globalEntries == |live|
    {
      hide Consistent, Recorded, RequestQueue.Valid;
      NodeHasNoEntries(topics, nodes, live, globalEntries, node);
      TopicCounts(topics, nodes, live, globalEntries, topic);
      TopicCounts(topics, nodes, live, globalEntries, Head());
      if topics != map[] {
        HeadTabled();
      }
    }

    /**
     What a node has once its earlier registrations are cleared: it is dropped with the last of them if its
     timeout is over, and then comes back with what the database has of it.
     */
    ghost function Cleared(node: NodeId, now: int): (nat, nat, int)
      reads this
    {
      if node in nodes && (Survivors(live, node) == live || nodes[node].noRegUntil >= now) then Standing(nodes[node])
      else (Fetch(node).0, Fetch(node).1, 0)
    }

    /** `addEntry` up to the two evictions. */
    method Prepare(node: NodeId, topic: Topic, now: int, idle: Topic -> bool)
      requires Valid()
      modifies this`topics, this`nodes, this`globalEntries, this`live, requested
      ensures Valid() && live == Survivors(old(live), node) && topic in topics
      ensures node in nodes && nodes[node].entries == map[] && Standing(nodes[node]) == old(Cleared(node, now))
      ensures TimeoutsStand(old(nodes), nodes, now)
      ensures Survivors(old(live), node) == old(live) ==>
                && topics == (if topic in old(topics) then old(topics) else old(topics)[topic := TopicInfo(map[], 0, 0)])
                && requested.items == (if topic in old(topics) then old(requested.items) else old(requested.items) + [topic])
    {
      hide Consistent, Windowed, Recorded, RequestQueue.Valid;
      ghost var before := nodes;
      GetOrNewNode(node);
      ghost var start := nodes;
      ClearNode(node, now, idle);
      assert Survivors(live, node) == live;
      ghost var cleared := nodes;
      GetOrNewNode(node);
      ClearedAndBack(before, start, cleared, nodes, node, now);
      ClearedWhenEmpty(topics, nodes, live, globalEntries, node);
      GetOrNewTopic(topic);
    }

    /** The two evictions of `addEntry`; `stuck` when the tail scan of the second never ends. */
    method MakeRoom(node: NodeId, topic: Topic, now: int, idle: Topic -> bool) returns (evicted: set<TopicEntry>, stuck: bool)
      requires Valid() && topic in topics && node in nodes && nodes[node].entries == map[]
      modifies this`topics, this`nodes, this`globalEntries, this`live, requested
      ensures Valid() && live == old(live) - evicted
      ensures node in nodes && nodes[node] == old(nodes)[node] && TimeoutsStand(old(nodes), nodes, now)
      ensures stuck <==> old(|topics[topic].entries| < MAX_ENTRIES_PER_TOPIC && globalEntries == MAX_ENTRIES && HeadCount() == 0)
      ensures !stuck ==> EvictedAsDue(old(live), topic, old(Head()), evicted)
      ensures !stuck ==> globalEntries < MAX_ENTRIES && (topic in topics ==> |topics[topic].entries| < MAX_ENTRIES_PER_TOPIC)
      ensures topic !in topics <==> old(|topics[topic].entries| < MAX_ENTRIES_PER_TOPIC && globalEntries == MAX_ENTRIES
                                        && Head() == topic && HeadCount() == 1) && idle(topic)
      ensures (forall t :: !idle(t)) ==> requested.items == old(requested.items)
    {
      hide Consistent, Windowed, Recorded, Oldest, RequestQueue.Valid;
      evicted, stuck := {}, false;
      TopicCounts(topics, nodes, live, globalEntries, topic);
      if |topics[topic].entries| == MAX_ENTRIES_PER_TOPIC {
        var e := EvictFor(node, topic, topic, now, idle);
        evicted := {e};
      } else if globalEntries == MAX_ENTRIES {
        // in the source a check of its own, but never true after the first eviction
        HeadTabled();
        var head := requested.items[0];
        if |topics[head].entries| == 0 {
          stuck := true;
          return;
        }
        var e := EvictFor(node, topic, head, now, idle);
        evicted := {e};
      }
    }

    /** One eviction, of the oldest entry of `from`, to make room for a registration of `node` for `topic`. */
    method EvictFor(node: NodeId, topic: Topic, from: Topic, now: int, idle: Topic -> bool) returns (e: TopicEntry)
      requires Valid() && topic in topics && node in nodes && nodes[node].entries == map[]
      requires from in topics && |topics[from].entries| > 0
      modifies this`topics, this`nodes, this`globalEntries, this`live, requested
      ensures Valid() && e in old(live) && e.topic == from && Oldest(old(live), e) && live == old(live) - {e}
      ensures node in nodes && nodes[node] == old(nodes)[node] && globalEntries == old(globalEntries) - 1
      ensures TimeoutsStand(old(nodes), nodes, now)
      ensures topic !in topics <==> from == topic && |old(topics)[topic].entries| == 1 && idle(topic)
      ensures topic in topics ==> |topics[topic].entries| == |old(topics)[topic].entries| - if from == topic then 1 else 0
      ensures (forall t :: !idle(t)) ==> requested.items == old(requested.items)
    {
      hide Consistent, Windowed, Recorded, Oldest, TopicsEvicted, NodesWithout, RequestQueue.Valid;
      TopicCounts(topics, nodes, live, globalEntries, topic);
      e := EvictOldest(from, now, idle);
      WithoutStands(old(nodes), e, now);
      Evicted(old(topics), old(nodes), old(live), old(globalEntries), e, now, idle, node);
      TopicCounts(topics, nodes, live, globalEntries, topic);
    }

    method AddEntry(node: NodeId, topic: Topic, now: int, idle: Topic -> bool) returns (out: AddOutcome)
      requires Valid()
      modifies this`topics, this`nodes, this`globalEntries, this`live, requested
      ensures out == ScanNeverEnds <==> old(WillEvictGlobally(node, topic) && HeadCount() == 0)
      ensures out == Orphaned <==> old(WillEvictGlobally(node, topic) && HeadCount() == 1 && Head() == topic) && idle(topic)
      ensures out != Orphaned ==> Valid()
      ensures node in nodes && Standing(nodes[node]) == old(Cleared(node, now)) && TimeoutsStand(old(nodes), nodes, now)
      ensures out.Stored? ==>
                && fresh(out.added) && live == Survivors(old(live), node) - out.evicted + {out.added}
                && out.added.topic == topic && out.added.node == node
                && out.added.expire == now + FALLBACK_REGISTRATION_EXPIRY
                && EvictedAsDue(Survivors(old(live), node), topic, old(Head()), out.evicted)
                && forall f :: f in live && f != out.added && f.topic == topic ==> f.fifoIdx < out.added.fifoIdx
      ensures out == Orphaned ==>
                && topic !in topics && node in nodes && topic in nodes[node].entries
                && nodes[node].entries[topic].node == node && nodes[node].entries[topic].topic == topic
                && requested.Valid() && requested.index.Keys == topics.Keys && globalEntries > 0
      ensures (forall t :: !idle(t)) && Survivors(old(live), node) == old(live) ==>
                requested.items == if topic in old(topics) then old(requested.items) else old(requested.items) + [topic]
    {
      hide Consistent, Windowed, Recorded, EvictedAsDue, RequestQueue.Valid, Survivors, HeadCount, WillEvictGlobally, TimeoutsStand, Cleared;
      var evicted, fifoHead, stuck := ClearAndEvict(node, topic, now, idle);
      ghost var before := nodes;
      if stuck {
        return ScanNeverEnds;
      }
      if topic !in topics {
        Orphan(node, topic, fifoHead, now);
        ChangedStands(before, node, nodes[node], now);
        StandsOn(old(nodes), before, nodes, now);
        return Orphaned;
      }
      var entry := Insert(node, topic, now);
      ChangedStands(before, node, nodes[node], now);
      StandsOn(old(nodes), before, nodes, now);
      out := Stored(entry, evicted);
    }

    /** `addEntry` up to the new entry. */
    method ClearAndEvict(node: NodeId, topic: Topic, now: int, idle: Topic -> bool)
      returns (evicted: set<TopicEntry>, fifoHead: nat, stuck: bool)
      requires Valid()
      modifies this`topics, this`nodes, this`globalEntries, this`live, requested
      ensures Valid() && live == Survivors(old(live), node) - evicted
      ensures node in nodes && nodes[node].entries == map[] && Standing(nodes[node]) == old(Cleared(node, now))
      ensures TimeoutsStand(old(nodes), nodes, now)
      ensures stuck <==> old(WillEvictGlobally(node, topic) && HeadCount() == 0)
      ensures !stuck ==>
                && EvictedAsDue(Survivors(old(live), node), topic, old(Head()), evicted)
                && globalEntries < MAX_ENTRIES && (topic in topics ==> |topics[topic].entries| < MAX_ENTRIES_PER_TOPIC)
      ensures topic !in topics <==> old(WillEvictGlobally(node, topic) && HeadCount() == 1 && Head() == topic) && idle(topic)
      ensures (forall t :: !idle(t)) && Survivors(old(live), node) == old(live) ==>
                requested.items == if topic in old(topics) then old(requested.items) else old(requested.items) + [topic]
    {
      hide Consistent, Windowed, Recorded, EvictedAsDue, RequestQueue.Valid, TimeoutsStand, Cleared;
      NodeHasNoEntries(topics, nodes, live, globalEntries, node);
      TopicCounts(topics, nodes, live, globalEntries, topic);
      if topics != map[] {
        HeadTabled();
      }
      Prepare(node, topic, now, idle);
      TopicCounts(topics, nodes, live, globalEntries, topic);
      ghost var head := Head();
      fifoHead := topics[topic].fifoHead;
      ghost var before := nodes;
      evicted, stuck := MakeRoom(node, topic, now, idle);
      StandsOn(old(nodes), before, nodes, now);
      if !stuck {
        HeadMattersWhenFull(Survivors(old(live), node), topic, old(Head()), head, evicted);
      }
    }

    /** The end of `addEntry` when the topic is gone: the entry is put in a topic nobody refers to. */
    method Orphan(node: NodeId, topic: Topic, fifoIdx: nat, now: int)
      requires node in nodes && topic !in topics
      modifies this`nodes, this`globalEntries
      ensures topic !in topics && node in nodes && topic in nodes[node].entries && globalEntries > 0
      ensures nodes[node].entries[topic].node == node && nodes[node].entries[topic].topic == topic
      ensures nodes == old(nodes)[node := old(nodes)[node].(entries := nodes[node].entries)]
      ensures globalEntries == old(globalEntries) + 1 && nodes[node].entries.Keys == {topic} && fresh(nodes[node].entries[topic])
      ensures nodes[node].entries[topic].expire == now + FALLBACK_REGISTRATION_EXPIRY
    {
      var entry := new TopicEntry(topic, fifoIdx, node, now + FALLBACK_REGISTRATION_EXPIRY);
      nodes := nodes[node := nodes[node].(entries := map[topic := entry])];
      globalEntries := globalEntries + 1;
    }

    /** The inner loop of the sweep: the expired entries of one node are deleted. */
    method ExpireEntries(node: NodeId, now: int, idle: Topic -> bool)
      requires Valid() && node in nodes
      modifies this`topics, this`nodes, this`globalEntries, this`live, requested
      ensures Valid()
      ensures Trimmed(old(requested.priority), requested.priority)
      ensures live == old(live) - (set e | e in old(live) && e.node == node && e.expire <= now)
      ensures OnlyTouches(old(nodes), nodes, node)
      ensures node !in nodes ==> old(nodes)[node].noRegUntil < now && Survivors(live, node) == live
    {
      hide Consistent, Windowed, Recorded, NodesWithout, TopicsWithout, OnlyTouches, Trimmed, RequestQueue.Valid;
      ClearedWhenEmpty(topics, nodes, live, globalEntries, node);
      TouchesNothing(nodes, node);
      TrimmedNot(requested.priority);
      ghost var expired := set e | e in live && e.node == node && e.expire <= now;
      var todo := nodes[node].entries.Values;
      while todo != {}
        invariant Valid()
        invariant todo <= live && forall e :: e in todo ==> e.node == node
        invariant old(live) - expired <= live <= old(live) && live * expired <= todo
        invariant OnlyTouches(old(nodes), nodes, node)
        invariant node !in nodes ==> old(nodes)[node].noRegUntil < now
        invariant Trimmed(old(requested.priority), requested.priority)
        decreases todo
      {
        var e :| e in todo;
        todo := todo - {e};
        if e.expire <= now {
          assert e in expired;
          WindowedSubset(topics, live, live - {e});
          DeletionTouches(old(nodes), nodes, e, now);
          ghost var queue := requested.priority;
          DeleteEntry(e, now, idle);
          TrimmedComposes(old(requested.priority), queue, requested.priority);
        }
      }
      Remainder(old(live), live, expired);
      NodeHasNoEntries(topics, nodes, live, globalEntries, node);
    }

    /** One round of the sweep of `collectGarbage`. */
    method SweepNode(node: NodeId, now: int, idle: Topic -> bool)
      requires Valid() && node in nodes
      modifies this`topics, this`nodes, this`globalEntries, this`live, requested
      ensures Valid()
      ensures Trimmed(old(requested.priority), requested.priority)
      ensures live == set e | e in old(live) && !(e.node == node && e.expire <= now)
      ensures OnlyTouches(old(nodes), nodes, node)
      ensures node !in nodes <==> old(nodes)[node].noRegUntil < now && Survivors(live, node) == live
    {
      hide Consistent, Windowed, Recorded, OnlyTouches, Trimmed, RequestQueue.Valid;
      ExpireEntries(node, now, idle);
      NodeHasNoEntries(topics, nodes, live, globalEntries, node);
      label Last:
      CheckDeleteNode(node, now);
      RemovalTouches(old(nodes), old@Last(nodes), node);
    }

    method CollectGarbage(now: int, idle: Topic -> bool)
      requires Valid()
      modifies this`topics, this`nodes, this`globalEntries, this`live, this`lastGarbageCollection, requested
      ensures Valid()
      ensures live == old(Unexpired(now)) && lastGarbageCollection == old(LastSweep(now))
      ensures TimeoutsStand(old(nodes), nodes, now)
      ensures Trimmed(old(requested.priority), requested.priority)
      ensures !old(SweepDue(now)) ==>
                && live == old(live) && nodes == old(nodes) && topics == old(topics) && globalEntries == old(globalEntries)
                && requested.items == old(requested.items)
      ensures old(SweepDue(now)) ==>
                && Swept(old(nodes), nodes, live, old(nodes).Keys, now)
                && forall t :: t in topics ==> |topics[t].entries| > 0 || !idle(t)
    {
      hide Consistent, Windowed, Recorded, Swept, OnlyTouches, Trimmed, RequestQueue.Valid, TimeoutsStand;
      TrimmedNot(requested.priority);
      StandsAsBefore(nodes, now);
      if now - lastGarbageCollection < GC_INTERVAL {
        return;
      }
      lastGarbageCollection := now;
      ghost var done := {};
      LiveNodesTabled(topics, nodes, live, globalEntries);
      ghost var expired := set e | e in live && e.expire <= now;
      SweptNothing(nodes, live, now);
      var todo := nodes.Keys;
      while todo != {}
        invariant Valid() && lastGarbageCollection == now
        invariant done + todo == old(nodes).Keys && done !! todo
        invariant live == set e | e in old(live) && !(e in expired && e.node in done)
        invariant Swept(old(nodes), nodes, live, done, now)
        invariant todo <= nodes.Keys
        invariant Trimmed(old(requested.priority), requested.priority)
        decreases todo
      {
        var node :| node in todo;
        label Round:
        SweepNode(node, now, idle);
        TrimmedComposes(old(requested.priority), old@Round(requested.priority), requested.priority);
        SweptMore(old(nodes), old@Round(nodes), nodes, old@Round(live), live, done, node, now);
        SweptKeeps(old@Round(nodes), nodes, node);
        todo, done := todo - {node}, done + {node};
      }
      assert live == old(live) - expired;
      SweptStands(old(nodes), nodes, live, done, now);
      ghost var queue := requested.priority;
      SweepTopics(idle);
      TrimmedComposes(old(requested.priority), queue, requested.priority);
      assert done == old(nodes).Keys;
    }

    /** The second loop of `collectGarbage`. */
    method SweepTopics(idle: Topic -> bool)
      requires Valid()
      modifies this`topics, requested
      ensures Valid()
      ensures Trimmed(old(requested.priority), requested.priority)
      ensures forall t :: t in topics ==> |topics[t].entries| > 0 || !idle(t)
    {
      hide Consistent, Windowed, Recorded, Trimmed, RequestQueue.Valid;
      TrimmedNot(requested.priority);
      var todo := topics.Keys;
      while todo != {}
        invariant Valid()
        invariant forall t :: t in topics ==> t in todo || |topics[t].entries| > 0 || !idle(t)
        invariant Trimmed(old(requested.priority), requested.priority)
        decreases todo
      {
        var t :| t in todo;
        todo := todo - {t};
        ghost var queue := requested.priority;
        CheckDeleteTopic(t, idle);
        TrimmedComposes(old(requested.priority), queue, requested.priority);
      }
    }

    predicate SweepDue(now: int)
      reads this
    {
      now - lastGarbageCollection >= GC_INTERVAL
    }

    /** When the last sweep was, once one due at `now` is over. */
    function LastSweep(now: int): int
      reads this
    {
      if SweepDue(now) then now else lastGarbageCollection
    }

    /** What a sweep due at `now` leaves of the entries. */
    ghost function Unexpired(now: int): set<TopicEntry>
      reads this, live
    {
      if SweepDue(now) then set e | e in live && e.expire > now else live
    }

    /** What the table will have of `node` once a sweep due at `now` is over: without a registration left and with its timeout over, what the database has. */
    ghost function StandingAt(node: NodeId, now: int): (nat, nat, int)
      reads this, live
    {
      if node in nodes && !(SweepDue(now) && nodes[node].noRegUntil < now && Survivors(Unexpired(now), node) == Unexpired(now))
      then Standing(nodes[node]) else (Fetch(node).0, Fetch(node).1, 0)
    }

    ghost function UsedSerial(node: NodeId, now: int): nat
      reads this, live
    {
      StandingAt(node, now).1
    }

    ghost function IssuedSerial(node: NodeId, now: int): nat
      reads this, live
    {
      StandingAt(node, now).0
    }

    /** How `useTicket` and `getTicket` begin: a sweep if one is due, and the node is tabled, with its serials and its timeout. */
    method TableNode(node: NodeId, now: int, idle: Topic -> bool)
      requires Valid()
      modifies this`topics, this`nodes, this`globalEntries, this`live, this`lastGarbageCollection, requested
      ensures Valid() && live == old(Unexpired(now)) <= old(live) && node in nodes
      ensures Standing(nodes[node]) == old(StandingAt(node, now))
      ensures TimeoutsStand(old(nodes), nodes, now) && lastGarbageCollection == old(LastSweep(now))
      ensures now >= 0 ==> (now < nodes[node].noRegUntil <==> node in old(nodes) && now < old(nodes)[node].noRegUntil)
      ensures Trimmed(old(requested.priority), requested.priority)
      ensures !old(SweepDue(now)) ==> requested.items == old(requested.items)
    {
      hide Consistent, Windowed, Recorded, RequestQueue.Valid, Trimmed;
      CollectGarbage(now, idle);
      ghost var before := nodes;
      GetOrNewNode(node);
      ChangedStands(before, node, nodes[node], now);
      StandsOn(old(nodes), before, nodes, now);
    }

    /** The counter part of `useTicket`: is this serial acceptable now, and if so note it. */
    method AdmitSerial(node: NodeId, serialNo: nat, now: nat, noRegTimeout: nat) returns (admitted: bool)
      requires Valid() && node in nodes
      modifies this`nodes, this`db
      ensures Valid()
      ensures admitted <==> serialNo >= old(nodes)[node].lastUsedTicket
                            && (serialNo > old(nodes)[node].lastUsedTicket ==> now >= old(nodes)[node].noRegUntil)
      ensures !admitted ==> nodes == old(nodes) && db == old(db)
      ensures forall m :: m != node ==> Counters(db, m) == Counters(old(db), m)
      ensures admitted && hasDb ==> Counters(db, node).1 == serialNo
      ensures !hasDb ==> db == old(db)
      ensures node in nodes && nodes == old(nodes)[node := nodes[node]] && nodes[node].entries == old(nodes)[node].entries
      ensures Standing(nodes[node]) == AfterUse(Standing(old(nodes)[node]), serialNo, now, noRegTimeout)
    {
      hide Consistent, Windowed, RequestQueue.Valid;
      var n := nodes[node];
      if serialNo < n.lastUsedTicket {
        return false;
      }
      if serialNo > n.lastUsedTicket && now < n.noRegUntil {
        return false;
      }
      if serialNo != n.lastUsedTicket {
        var info := n.(lastUsedTicket := serialNo, noRegUntil := now + noRegTimeout);
        CountersChanged(topics, nodes, live, globalEntries, node, info, db);
        nodes := nodes[node := info];
        if hasDb {
          db := db[node := (info.lastIssuedTicket, info.lastUsedTicket)];
        }
      }
      admitted := true;
    }

    /** `useTicket` up to its verdict on the ticket. */
    method Admit(node: NodeId, serialNo: nat, issueTime: nat, waitPeriod: nat, now: nat, noRegTimeout: nat,
                 idle: Topic -> bool) returns (ok: bool)
      requires Valid()
      modifies this`topics, this`nodes, this`globalEntries, this`live, this`lastGarbageCollection, this`db, requested
      ensures Valid() && live == old(Unexpired(now)) <= old(live) && node in nodes
      ensures ok <==>
                && serialNo >= old(UsedSerial(node, now))
                && !(serialNo > old(UsedSerial(node, now)) && node in old(nodes) && now < old(nodes)[node].noRegUntil)
                && InTime(now, issueTime, waitPeriod)
      ensures Trimmed(old(requested.priority), requested.priority)
      ensures !old(SweepDue(now)) ==> requested.items == old(requested.items)
      ensures forall m :: m != node ==> Counters(db, m) == Counters(old(db), m)
      ensures hasDb ==> Counters(old(db), node).1 <= Counters(db, node).1
      ensures hasDb && serialNo < Counters(old(db), node).1 ==> !ok
      ensures hasDb && ok ==> Counters(db, node).1 == serialNo
      ensures !hasDb ==> db == old(db)
      ensures Standing(nodes[node]) == AfterUse(old(StandingAt(node, now)), serialNo, now, noRegTimeout)
      ensures TimeoutsStand(old(nodes), nodes, now) && lastGarbageCollection == old(LastSweep(now))
    {
      hide Consistent, Windowed, RequestQueue.Valid, InTime, Trimmed, Unexpired, StandingAt, TimeoutsStand;
      TableNode(node, now, idle);
      ghost var before := nodes;
      ok := AdmitSerial(node, serialNo, now, noRegTimeout);
      ChangedStands(before, node, nodes[node], now);
      StandsOn(old(nodes), before, nodes, now);
      ok := ok && InTime(now, issueTime, waitPeriod);
    }

    /** The end of `useTicket`: an active registration is prolonged, any other is added. */
    method Register(node: NodeId, topic: Topic, now: int, idle: Topic -> bool) returns (out: UseOutcome)
      requires Valid() && node in nodes
      modifies this`topics, this`nodes, this`globalEntries, this`live, requested, live
      ensures out != Refused && (out != Added(Orphaned) ==> Valid())
      ensures out.Prolonged? <==> Registered(old(live), node, topic)
      ensures out.Prolonged? ==> live == old(live) && IsRegistration(out.entry, node, topic, now) && out.entry in live
      ensures forall e :: e in old(live) && !(out.Prolonged? && e == out.entry) ==> e.expire == old(e.expire)
      ensures out.Added? && out.add.Stored? ==>
                && fresh(out.add.added) && IsRegistration(out.add.added, node, topic, now)
                && live == Survivors(old(live), node) - out.add.evicted + {out.add.added}
                && EvictedAsDue(Survivors(old(live), node), topic, old(Head()), out.add.evicted)
                && IsLast(live, out.add.added)
      ensures out == Added(ScanNeverEnds) <==>
                TableFull(old(live), node, topic) && |OfTopic(old(live), old(Head()))| == 0
      ensures out == Added(Orphaned) <==>
                TableFull(old(live), node, topic) && |OfTopic(old(live), old(Head()))| == 1 && old(Head()) == topic && idle(topic)
      ensures node in nodes && TimeoutsStand(old(nodes), nodes, now)
      ensures Standing(nodes[node]) ==
                AfterClearing(Standing(old(nodes)[node]), out.Added? && Survivors(old(live), node) != old(live), now)
    {
      hide Consistent, Windowed, RequestQueue.Valid, EvictedAsDue, TableFull, Registered, TimeoutsStand;
      OnRecord(node);
      StandsAsBefore(nodes, now);
      RegisteredAt(topics, nodes, live, globalEntries, node, topic);
      GuardsOfAddEntry(node, topic);
      if topic in nodes[node].entries {
        var e := nodes[node].entries[topic];
        assert !TableFull(live, node, topic) by { RegisteredIsNoSurvivor(live, e); }
        e.expire := now + FALLBACK_REGISTRATION_EXPIRY;
        out := Prolonged(e);
      } else {
        var add := AddEntry(node, topic, now, idle);
        out := Added(add);
      }
    }

    /**
     The whole of `useTicket`. `head` is the least-requested topic once a sweep that is due is
     over: with none due that is the head of the queue as it was, and in any case nobody with
     a registration left asked for a topic longer ago.
     */
    method UseTicket(node: NodeId, serialNo: nat, ts: seq<Topic>, idx: nat, issueTime: nat, waitPeriods: seq<nat>,
                     now: nat, noRegTimeout: nat, idle: Topic -> bool) returns (out: UseOutcome, ghost head: Topic)
      requires Valid() && idx < |ts| == |waitPeriods|
      modifies this`topics, this`nodes, this`globalEntries, this`live, this`lastGarbageCollection, this`db, requested, live
      ensures out == Refused <==>
                || serialNo < old(UsedSerial(node, now))
                || (serialNo > old(UsedSerial(node, now)) && node in old(nodes) && now < old(nodes)[node].noRegUntil)
                || !InTime(now, issueTime, waitPeriods[idx])
      ensures out == Refused ==> live == old(Unexpired(now))
      ensures out.Prolonged? <==> out != Refused && Registered(old(Unexpired(now)), node, ts[idx])
      ensures out.Prolonged? ==>
                live == old(Unexpired(now)) && IsRegistration(out.entry, node, ts[idx], now) && out.entry in live
      ensures forall e :: e in old(live) && !(out.Prolonged? && e == out.entry) ==> e.expire == old(e.expire)
      ensures out.Added? && out.add.Stored? ==>
                && fresh(out.add.added) && IsRegistration(out.add.added, node, ts[idx], now)
                && live == Survivors(old(Unexpired(now)), node) - out.add.evicted + {out.add.added}
                && EvictedAsDue(Survivors(old(Unexpired(now)), node), ts[idx], head, out.add.evicted)
                && IsLast(live, out.add.added)
      ensures out == Added(ScanNeverEnds) <==>
                && out != Refused && TableFull(old(Unexpired(now)), node, ts[idx])
                && |OfTopic(old(Unexpired(now)), head)| == 0
      ensures out == Added(Orphaned) <==>
                && out != Refused && TableFull(old(Unexpired(now)), node, ts[idx])
                && |OfTopic(old(Unexpired(now)), head)| == 1 && head == ts[idx] && idle(ts[idx])
      ensures out != Added(Orphaned) ==> Valid()
      ensures |old(Unexpired(now))| < MAX_ENTRIES ==> Valid() && (out.Added? ==> out.add.Stored?)
      ensures !old(SweepDue(now)) ==> head == old(Head())
      ensures old(Unexpired(now)) != {} ==> LeastRequested(old(requested.priority), old(Unexpired(now)), head)
      ensures hasDb ==> forall m :: Counters(old(db), m).1 <= Counters(db, m).1
      ensures hasDb && serialNo < Counters(old(db), node).1 ==> out == Refused
      ensures hasDb && out != Refused ==> Counters(db, node).1 == serialNo
      // a newer serial that is admitted is on record, and the timeout runs; an earlier one is forgotten only as stated
      ensures node in nodes && Standing(nodes[node]) ==
                AfterClearing(AfterUse(old(StandingAt(node, now)), serialNo, now, noRegTimeout),
                              out.Added? && Survivors(old(Unexpired(now)), node) != old(Unexpired(now)), now)
      ensures TimeoutsStand(old(nodes), nodes, now) && lastGarbageCollection == old(LastSweep(now))
    {
      hide Consistent, Windowed, RequestQueue.Valid, EvictedAsDue, Unexpired, StandingAt, UsedSerial, InTime, LeastRequested, Trimmed,
           Registered, Survivors, OfTopic, IsLast, WillEvictGlobally, HeadCount, SweepDue, IsRegistration, Recorded, TimeoutsStand,
           LastSweep, Admits, AfterUse, AfterClearing, TableFull, Counters, Standing;
      var ok := Admit(node, serialNo, issueTime, waitPeriods[idx], now, noRegTimeout, idle);
      ghost var before := nodes;
      NothingCleared(Standing(nodes[node]), now);
      head := Head();
      HeadWasLeast(old(requested.priority));
      NotFull(live, node, ts[idx]);
      if !ok {
        return Refused, head;
      }
      out := Register(node, ts[idx], now, idle);
      StandsOn(old(nodes), before, nodes, now);
    }

    /** What a node has after an earlier registration of it was cleared, or not: if its timeout is over, what the database has. */
    function AfterClearing(s: (nat, nat, int), cleared: bool, now: int): (nat, nat, int) {
      if cleared && s.2 < now then (if hasDb then (s.0, s.1, 0) else (0, 0, 0)) else s
    }

    /** The least-requested topic was so before the sweep. */
    lemma HeadWasLeast(before: map<Topic, nat>)
      requires Valid() && Trimmed(before, requested.priority)
      ensures live != {} ==> LeastRequested(before, live, Head())
    {
      hide Consistent, Windowed, RequestQueue.Valid, LeastRequested, Trimmed, Recorded;
      if live != {} {
        HeadIsLeast();
        LeastRequestedBefore(before, requested.priority, live, Head());
      }
    }

    static lemma NotFull(live: set<TopicEntry>, node: NodeId, topic: Topic)
      ensures |live| < MAX_ENTRIES ==> !TableFull(live, node, topic)
    {
    }

    lemma NothingCleared(s: (nat, nat, int), now: int)
      ensures AfterClearing(s, false, now) == s
    {
    }

    /** What the database has of a tabled node is what the table has. */
    lemma OnRecord(node: NodeId)
      requires Valid() && node in nodes
      ensures Fetch(node) == if hasDb then (nodes[node].lastIssuedTicket, nodes[node].lastUsedTicket) else (0, 0)
    {
      hide Consistent, Windowed, RequestQueue.Valid;
    }

    /** The nodes advertising `topic`; the topic becomes a most-requested one. */
    method GetEntries(topic: Topic, now: int, idle: Topic -> bool) returns (found: set<NodeId>)
      requires Valid()
      modifies this`topics, this`nodes, this`globalEntries, this`live, this`lastGarbageCollection, this`requestCnt, requested
      ensures Valid() && live == old(Unexpired(now)) && lastGarbageCollection == old(LastSweep(now))
      ensures found == Advertisers(live, topic)
      ensures TimeoutsStand(old(nodes), nodes, now)
      ensures topic in topics ==>
                && requestCnt == old(requestCnt) + 1
                && topic in requested.priority && requested.priority[topic] == requestCnt
                && forall t :: t in requested.priority && t != topic ==> requested.priority[t] < requestCnt
    {
      hide Consistent, Windowed, Recorded, Swept, RequestQueue.Valid, Unexpired, SweepDue, Trimmed, Advertisers, NodesOf, TimeoutsStand;
      CollectGarbage(now, idle);
      TopicNodes(topics, nodes, live, globalEntries, topic);
      if topic !in topics {
        return {};
      }
      found := NodesOf(topics[topic]);
      NoteRequested(topic);
    }

    /** The end of `getEntries`: the topic is the one asked for last. */
    method NoteRequested(topic: Topic)
      requires Valid() && topic in topics
      modifies this`requestCnt, requested
      ensures Valid() && requestCnt == old(requestCnt) + 1
      ensures topic in requested.priority && requested.priority[topic] == requestCnt
      ensures forall t :: t in requested.priority && t != topic ==> requested.priority[t] < requestCnt
    {
      hide Consistent, Windowed, Recorded, RequestQueue.Valid;
      requestCnt := requestCnt + 1;
      requested.Update(topic, requestCnt);
    }

    /**
     Issues the next ticket to `node`: its serial, and for each topic asked for the time at which it may be
     registered. `wait` is what the wait control loop of each tabled topic asks for at that moment.
     */
    method GetTicket(node: NodeId, ts: seq<Topic>, now: int, idle: Topic -> bool, wait: Topic -> nat)
      returns (serial: nat, regTime: seq<int>)
      requires Valid()
      modifies this`topics, this`nodes, this`globalEntries, this`live, this`lastGarbageCollection, this`db, requested
      ensures Valid() && live == old(Unexpired(now)) && lastGarbageCollection == old(LastSweep(now))
      ensures TimeoutsStand(old(nodes), nodes, now)
      ensures serial == (old(IssuedSerial(node, now)) + 1) % UINT32
      ensures node in nodes && Standing(nodes[node]) == (serial, old(UsedSerial(node, now)), old(StandingAt(node, now)).2)
      ensures hasDb ==> old(IssuedSerial(node, now)) == Counters(old(db), node).0
      ensures hasDb ==> db == old(db)[node := (serial, Counters(old(db), node).1)]
      ensures !hasDb ==> db == old(db)
      ensures |regTime| == |ts|
      ensures forall i :: 0 <= i < |ts| ==> regTime[i] == now + if ts[i] in topics then wait(ts[i]) else MIN_WAIT_PERIOD
    {
      hide Consistent, Windowed, RequestQueue.Valid, Unexpired, Trimmed, TimeoutsStand, StandingAt;
      TableNode(node, now, idle);
      ghost var before := nodes;
      serial := (nodes[node].lastIssuedTicket + 1) % UINT32;
      var info := nodes[node].(lastIssuedTicket := serial);
      CountersChanged(topics, nodes, live, globalEntries, node, info, db);
      nodes := nodes[node := info];
      ChangedStands(before, node, info, now);
      StandsOn(old(nodes), before, nodes, now);
      if hasDb {
        db := db[node := (info.lastIssuedTicket, info.lastUsedTicket)];
      }
      regTime := RegTimes(ts, now, wait);
    }

    /** The loop at the end of `getTicket`. */
    method RegTimes(ts: seq<Topic>, now: int, wait: Topic -> nat) returns (regTime: seq<int>)
      ensures |regTime| == |ts|
      ensures forall i :: 0 <= i < |ts| ==> regTime[i] == now + if ts[i] in topics then wait(ts[i]) else MIN_WAIT_PERIOD
    {
      regTime := [];
      for i := 0 to |ts|
        invariant |regTime| == i
        invariant forall k :: 0 <= k < i ==> regTime[k] == now + if ts[k] in topics then wait(ts[k]) else MIN_WAIT_PERIOD
      {
        var waitPeriod := if ts[i] in topics then wait(ts[i]) else MIN_WAIT_PERIOD;
        regTime := regTime + [now + waitPeriod];
      }
    }
  }

  // ---------------------------------------------------------------- one new ticket per timeout

  /** What the network asks of the table. `idle` and `wait` are what the wait control loops say at that moment. */
  datatype Call =
    | Use(node: NodeId, serialNo: nat, ts: seq<Topic>, idx: nat, issueTime: nat, waitPeriods: seq<nat>, noRegTimeout: nat,
          now: nat, idle: Topic -> bool)
    | Ticket(node: NodeId, ts: seq<Topic>, wait: Topic -> nat, now: nat, idle: Topic -> bool)
    | Query(topic: Topic, now: nat, idle: Topic -> bool)
  {
    predicate WellFormed() { Use? ==> idx < |ts| == |waitPeriods| }

    /** A ticket of `n` other than that with the serial `s`. */
    predicate OtherTicket(n: NodeId, s: nat) { Use? && node == n && serialNo != s }
  }

  predicate Failed(out: UseOutcome) {
    out == Added(ScanNeverEnds) || out == Added(Orphaned)
  }

  /** A ticket other than the one its node used last, while the timeout of that one is running. */
  predicate Waiting(call: Call, nodes: Nodes) {
    && call.Use? && call.node in nodes && call.now < nodes[call.node].noRegUntil
    && call.serialNo != nodes[call.node].lastUsedTicket
  }

  /** A newer ticket than any its node has used, and no timeout is running. */
  predicate IsNew(call: Call, s: (nat, nat, int))
    requires call.Use?
  {
    call.serialNo > s.1 && call.now >= s.2
  }

  method Take(tt: TopicTable, call: Call) returns (out: Option<UseOutcome>)
    requires tt.Valid() && call.WellFormed()
    modifies tt, tt.requested, tt.live
    ensures out.Some? <==> call.Use?
    ensures !(out.Some? && Failed(out.value)) ==> tt.Valid() && forall e :: e in tt.live ==> e in old(tt.live) || fresh(e)
    ensures TimeoutsStand(old(tt.nodes), tt.nodes, call.now)
    ensures Waiting(call, old(tt.nodes)) ==> out == Some(Refused)
    ensures call.Use? && IsNew(call, old(tt.StandingAt(call.node, call.now))) ==>
              && call.node in tt.nodes && tt.nodes[call.node].lastUsedTicket == call.serialNo
              && tt.nodes[call.node].noRegUntil == call.now + call.noRegTimeout
  {
    hide Consistent, Windowed, RequestQueue.Valid, TimeoutsStand, EvictedAsDue, LeastRequested, TableFull, Registered, InTime, OfTopic;
    match call
    case Use(node, serialNo, ts, idx, issueTime, waitPeriods, noRegTimeout, now, idle) =>
      var o, _ := tt.UseTicket(node, serialNo, ts, idx, issueTime, waitPeriods, now, noRegTimeout, idle);
      out := Some(o);
    case Ticket(node, ts, wait, now, idle) =>
      var _, _ := tt.GetTicket(node, ts, now, idle, wait);
      out := None;
    case Query(topic, now, idle) =>
      var _ := tt.GetEntries(topic, now, idle);
      out := None;
  }

  /**
   A node that has come with a newer ticket is refused every other one, newer or older, until the timeout is
   over, whatever else is asked of the table in between. `outs` are the outcomes of the calls; they end early
   only at a registration that never returns or that orphans its entry.
   */
  method OneTicketAtATime(tt: TopicTable, calls: seq<Call>) returns (outs: seq<Option<UseOutcome>>)
    requires tt.Valid() && calls != [] && calls[0].Use? && forall i :: 0 <= i < |calls| ==> calls[i].WellFormed()
    requires IsNew(calls[0], tt.StandingAt(calls[0].node, calls[0].now))
    requires forall i :: 0 < i < |calls| ==> calls[i].now < calls[0].now + calls[0].noRegTimeout
    modifies tt, tt.requested, tt.live
    ensures 0 < |outs| <= |calls| && forall i :: 0 <= i < |outs| ==> (outs[i].Some? <==> calls[i].Use?)
    ensures forall i :: 0 < i < |outs| && calls[i].OtherTicket(calls[0].node, calls[0].serialNo) ==> outs[i] == Some(Refused)
    ensures forall i :: 0 <= i < |outs| - 1 && calls[i].Use? ==> !Failed(outs[i].value)
    ensures |outs| < |calls| ==> outs[|outs| - 1].Some? && Failed(outs[|outs| - 1].value)
  {
    hide Consistent, Windowed, RequestQueue.Valid, TimeoutsStand, TopicTable.Valid, TopicTable.StandingAt;
    var out := Take(tt, calls[0]);
    outs := [out];
    ghost var node, serialNo, until := calls[0].node, calls[0].serialNo, calls[0].now + calls[0].noRegTimeout;
    while |outs| < |calls| && !(out.Some? && Failed(out.value))
      invariant 0 < |outs| <= |calls| && out == outs[|outs| - 1]
      invariant forall i :: 0 <= i < |outs| ==> (outs[i].Some? <==> calls[i].Use?)
      invariant forall i :: 0 <= i < |outs| - 1 && calls[i].Use? ==> !Failed(outs[i].value)
      invariant !(out.Some? && Failed(out.value)) ==> tt.Valid() && forall e :: e in tt.live ==> e in old(tt.live) || fresh(e)
      invariant node in tt.nodes && tt.nodes[node].lastUsedTicket == serialNo && tt.nodes[node].noRegUntil == until
      invariant forall i :: 0 < i < |outs| && calls[i].OtherTicket(node, serialNo) ==> outs[i] == Some(Refused)
    {
      ghost var before := tt.nodes;
      var i := |outs|;
      out := Take(tt, calls[i]);
      StandsAt(before, tt.nodes, calls[i].now, node);
      outs := outs + [out];
    }
  }

  lemma StandsAt(before: Nodes, after: Nodes, now: int, node: NodeId)
    requires TimeoutsStand(before, after, now) && node in before && now < before[node].noRegUntil
    ensures node in after && after[node].lastUsedTicket == before[node].lastUsedTicket && after[node].noRegUntil == before[node].noRegUntil
  {
  }

  // ---------------------------------------------------------------- how the two failures come about

  function Xs(n: nat): Topic {
    seq(n, _ => 'x')
  }

  lemma OneMore(live: set<TopicEntry>, e: TopicEntry, topic: Topic)
    requires e !in live
    ensures |OfTopic(live + {e}, topic)| == |OfTopic(live, topic)| + if e.topic == topic then 1 else 0
  {
    if e.topic == topic {
      assert OfTopic(live + {e}, topic) == OfTopic(live, topic) + {e};
    } else {
      assert OfTopic(live + {e}, topic) == OfTopic(live, topic);
    }
  }

  lemma NotOrphaned(topics: Topics, nodes: Nodes, live: set<TopicEntry>, globalEntries: nat, node: NodeId, topic: Topic)
    requires Consistent(topics, nodes, live, globalEntries) && node in nodes && topic in nodes[node].entries
    ensures topic in topics
  {
    assert nodes[node].entries[topic] in live;
  }

  /** A node that is not tabled registers for a topic that is not full, in a table that is not full, within twelve seconds of the others. */
  method AddOne(tt: TopicTable, node: NodeId, topic: Topic)
    requires tt.Valid() && |tt.live| < MAX_ENTRIES && |OfTopic(tt.live, topic)| < MAX_ENTRIES_PER_TOPIC
    requires forall e :: e in tt.live ==> e.node != node
    requires |tt.requested.items| > 0 || topic == ""
    modifies tt, tt.requested
    ensures tt.Valid() && |tt.live| == |old(tt.live)| + 1
    ensures forall e :: e in tt.live ==> e in old(tt.live) || (e.node == node && e.topic == topic)
    ensures forall t :: |OfTopic(tt.live, t)| == |OfTopic(old(tt.live), t)| + if t == topic then 1 else 0
    ensures |tt.requested.items| > 0 && tt.Head() == old(tt.Head())
  {
    hide Consistent, Windowed, Recorded, RequestQueue.Valid, OfTopic;
    assert Survivors(tt.live, node) == tt.live;
    tt.GuardsOfAddEntry(node, topic);
    if topic in tt.topics {
      tt.HeadTabled();
    }
    var out := tt.AddEntry(node, topic, 0, _ => false);
    assert tt.live == old(tt.live) + {out.added};
    forall t ensures |OfTopic(tt.live, t)| == |OfTopic(old(tt.live), t)| + if t == topic then 1 else 0 {
      OneMore(old(tt.live), out.added, t);
    }
  }

  /** A table filled by registrations alone: one for the topic `""`, asked for first, and 33 for each of 303 others. */
  method FillTable() returns (tt: TopicTable)
    ensures fresh(tt) && fresh(tt.requested) && tt.Valid()
    ensures |tt.live| == MAX_ENTRIES && forall e :: e in tt.live ==> e.node < MAX_ENTRIES
    ensures tt.Head() == "" && |OfTopic(tt.live, "")| == 1
    ensures |OfTopic(tt.live, Xs(304))| == 0
  {
    hide Consistent, Windowed, RequestQueue.Valid, Recorded, TopicTable.Valid;
    tt := new TopicTable(false, map[]);
    forall t ensures |OfTopic(tt.live, t)| == 0 {
      assert OfTopic(tt.live, t) == {};
    }
    AddOne(tt, 0, "");
    var k := 0;
    while k < 303
      invariant k <= 303 && fresh(tt) && fresh(tt.requested) && tt.Valid()
      invariant |tt.live| == 1 + 33 * k && forall e :: e in tt.live ==> e.node < |tt.live|
      invariant |tt.requested.items| > 0 && tt.Head() == "" && |OfTopic(tt.live, "")| == 1
      invariant forall j :: k < j ==> |OfTopic(tt.live, Xs(j))| == 0
    {
      var i := 0;
      while i < 33
        invariant i <= 33 && fresh(tt) && fresh(tt.requested) && tt.Valid()
        invariant |tt.live| == 1 + 33 * k + i && forall e :: e in tt.live ==> e.node < |tt.live|
        invariant |tt.requested.items| > 0 && tt.Head() == "" && |OfTopic(tt.live, "")| == 1
        invariant |OfTopic(tt.live, Xs(k + 1))| == i
        invariant forall j :: k + 1 < j ==> |OfTopic(tt.live, Xs(j))| == 0
      {
        assert forall j: nat :: |Xs(j)| == j;
        AddOne(tt, 1 + 33 * k + i, Xs(k + 1));
        i := i + 1;
      }
      k := k + 1;
    }
  }

  lemma LastOneEvicted(live: set<TopicEntry>, topic: Topic, head: Topic, evicted: set<TopicEntry>, added: TopicEntry)
    requires |live| == MAX_ENTRIES && |OfTopic(live, topic)| == 0 && |OfTopic(live, head)| == 1
    requires EvictedAsDue(live, topic, head, evicted) && added !in live && added.topic == topic
    ensures var after := live - evicted + {added};
            |after| == MAX_ENTRIES && |OfTopic(after, head)| == 0 && |OfTopic(after, topic)| == 1
  {
    var e :| e in live && evicted == {e} && e.topic == head;
    assert |live - {e}| == |live| - 1;
    assert |OfTopic(live, head) - {e}| == 0;
    assert OfTopic(live - {e} + {added}, head) == OfTopic(live, head) - {e};
    assert OfTopic(live - {e} + {added}, topic) == OfTopic(live, topic) + {added};
  }

  /** A full table whose least-requested topic has one registration left, then loses it to a new one but is not idle yet. */
  method ScanThatNeverEnds() returns (first: AddOutcome, second: AddOutcome)
    ensures first.Stored? && second == ScanNeverEnds
  {
    hide Consistent, Windowed, RequestQueue.Valid, Recorded, EvictedAsDue, OfTopic;
    var tt := FillTable();
    var late := Xs(304);
    ghost var live := tt.live;
    assert Survivors(live, MAX_ENTRIES) == live;
    tt.GuardsOfAddEntry(MAX_ENTRIES, late);
    first := tt.AddEntry(MAX_ENTRIES, late, 0, _ => false);
    LastOneEvicted(live, late, "", first.evicted, first.added);
    assert Survivors(tt.live, MAX_ENTRIES + 1) == tt.live;
    tt.GuardsOfAddEntry(MAX_ENTRIES + 1, late);
    second := tt.AddEntry(MAX_ENTRIES + 1, late, 0, _ => false);
  }

  /** The same table, when the new registration is for that very topic, idle by now: the index by node has an entry of no topic. */
  method OrphanedEntry() returns (tt: TopicTable, out: AddOutcome)
    ensures out == Orphaned && "" !in tt.topics && MAX_ENTRIES in tt.nodes && "" in tt.nodes[MAX_ENTRIES].entries
    ensures tt.nodes[MAX_ENTRIES].entries[""].node == MAX_ENTRIES && tt.nodes[MAX_ENTRIES].entries[""].topic == ""
    ensures tt.requested.Valid() && tt.requested.index.Keys == tt.topics.Keys && tt.globalEntries > 0
    ensures fresh(tt) && fresh(tt.requested) && !tt.Valid()
  {
    hide Consistent, Windowed, RequestQueue.Valid, Recorded;
    tt := FillTable();
    assert Survivors(tt.live, MAX_ENTRIES) == tt.live;
    tt.GuardsOfAddEntry(MAX_ENTRIES, "");
    out := tt.AddEntry(MAX_ENTRIES, "", 12 * SECOND, _ => true);
    if tt.Valid() {
      NotOrphaned(tt.topics, tt.nodes, tt.live, tt.globalEntries, MAX_ENTRIES, "");
    }
  }

  /**
   Deleting that entry, in a sweep once it has expired or when the node registers again, goes wrong in this
   state, and in any other until the topic is tabled again: there is no topic to delete it from.
   `Unregister` has the exact condition.
   */
  method OrphanCannotBeDeleted(now: int, idle: Topic -> bool) returns (ok: bool)
    ensures !ok
  {
    hide RequestQueue.Valid, TopicTable.Valid;
    var tt, out := OrphanedEntry();
    ok := tt.Unregister(tt.nodes[MAX_ENTRIES].entries[""], now, idle);
  }
}
