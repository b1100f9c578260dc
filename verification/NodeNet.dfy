/**
 The discovery v5 node state machine and its findnode queries (`p2p/discv5/net.go`). Everything
 here runs on one loop; nodes are interned, so a node identity stands for the `*Node`.

 A ping's hash is a number never used before; a pong echoes one, or an empty token. What packets
 do to the registrar and to the ticket store is the subject of the modules Registrar and Tickets.
 */
module NodeNet {
  import opened Collections
  import opened Table5

  const ALPHA := 3
  const MAX_FINDNODE_FAILURES := 5

  datatype State = Unknown | VerifyInit | VerifyWait | RemoteVerifyWait | Known | Contested | Unresponsive {
    predicate CanQuery() {
      Known? || Contested? || Unresponsive?
    }

    /** The states in which the last ping we sent has not been answered yet. */
    predicate Verifying() {
      VerifyInit? || VerifyWait?
    }

    /** The states that a pong timeout should end. */
    predicate AwaitsPong() {
      Verifying() || Contested?
    }

    /** Where a ping from the node takes it. */
    function AfterPing(): State {
      match this
      case Unknown => VerifyWait
      case VerifyInit => VerifyWait
      case Unresponsive => Known
      case _ => this
    }

    /** Where a pong that answers our ping takes it. */
    function AfterPong(): State {
      match this
      case Unknown => Unknown
      case VerifyInit => RemoteVerifyWait
      case RemoteVerifyWait => RemoteVerifyWait
      case _ => Known
    }

    /** Where one more unanswered query takes it, after as many as `failures`. */
    function AfterFailure(failures: nat): State {
      if Known? && failures + 1 > MAX_FINDNODE_FAILURES then Contested else this
    }

    /** Where a timeout takes it. */
    function AfterTimeout(timer: Timer, failures: nat): State {
      match timer
      case PongTimeout => if Verifying() then Unknown else if Contested? then Unresponsive else this
      case PingTimeout => if RemoteVerifyWait? then Known else this
      case NeighboursTimeout => if CanQuery() then AfterFailure(failures) else this
    }

    /** The states that only a node that answered one of our pings can be in. */
    predicate Verified() {
      RemoteVerifyWait? || CanQuery()
    }
  }

  datatype Timer = PongTimeout | PingTimeout | NeighboursTimeout
  datatype Remote = Local | Peer(id: NodeId)

  /** A findnode query of some lookup; `chan` is the reply channel of that lookup. */
  datatype Query = Query(id: nat, remote: Remote, chan: nat)

  datatype Guts = Guts(state: State, pingEcho: Option<nat>, deferred: seq<Query>, pending: Option<Query>, queryTimeouts: nat)

  /** A node named in a neighbours reply; whether it passes the address checks is the caller's to say. */
  datatype Neighbour = Neighbour(id: NodeId, acceptable: bool)

  /** Packets by what they do here; a pong carries the ping hash it answers, or an empty token. */
  datatype Packet =
    | PingPacket
    | PongPacket(echo: Option<nat>)
    | NeighboursPacket(neighbours: seq<Neighbour>)
    | TopicNodesPacket(timedOut: bool)
    | QueryPacket

  /** Where a packet takes a node. */
  function After(g: Guts, pkt: Packet): State {
    match pkt
    case PingPacket => g.state.AfterPing()
    case PongPacket(echo) => if echo == g.pingEcho then g.state.AfterPong() else g.state
    case TopicNodesPacket(timedOut) => if g.state.CanQuery() && timedOut then g.state.AfterFailure(g.queryTimeouts) else g.state
    case _ => g.state
  }

  /** The ping that a packet answers. */
  function Answered(g: Guts, pkt: Packet): set<nat> {
    if pkt.PongPacket? && pkt.echo.Some? && pkt.echo == g.pingEcho then {pkt.echo.value} else {}
  }

  /** A pong that answers no ping on record. */
  predicate Unasked(g: Guts, pkt: Packet) {
    pkt.PongPacket? && pkt.echo != g.pingEcho
  }

  /** What a pong that answers the ping on record does to it and to its timeout. */
  predicate Taken(before: Guts, after: Guts, n: NodeId, timers: set<(NodeId, Timer)>, timers': set<(NodeId, Timer)>) {
    && after.pingEcho == None
    && if before.state.Unknown? || before.state.RemoteVerifyWait? then timers' == timers else (n, PongTimeout) !in timers'
  }

  type Nodes = map<NodeId, Guts>

  const FRESH := Guts(Unknown, None, [], None, 0)

  // ---------------------------------------------------------------- invariants

  /** Every live query is deferred or pending at its node, in exactly one place, and nothing else is there. */
  ghost predicate Placed(nodes: Nodes, live: set<Query>) {
    && (forall q :: q in live ==> HasPlace(nodes, q))
    && (forall n :: n in nodes ==> PlacedAt(nodes[n], n, live))
  }

  ghost predicate HasPlace(nodes: Nodes, q: Query) {
    && q.remote.Peer? && q.remote.id in nodes
    && (q in nodes[q.remote.id].deferred || nodes[q.remote.id].pending == Some(q))
  }

  ghost predicate PlacedAt(g: Guts, n: NodeId, live: set<Query>) {
    && Distinct(g.deferred)
    && (forall q :: q in g.deferred ==> q in live && q.remote == Peer(n) && g.pending != Some(q))
    && (g.pending.Some? ==> g.pending.value in live && g.pending.value.remote == Peer(n))
  }

  /**
   What each node keeps: a query is pending only while the node can be queried, and then its timeout
   is armed; while the node is being verified or contested our ping to it is on record; while we wait for
   its ping, the end of that is timed; past verification, it has answered a ping of ours. (We never ping an identity equal to our own.)
   */
  ghost predicate NodeOk(g: Guts, n: NodeId, timers: set<(NodeId, Timer)>, self: NodeId, ponged: set<NodeId>) {
    && (g.pending.Some? ==> g.state.CanQuery() && (n, NeighboursTimeout) in timers)
    && (n != self && g.state.AwaitsPong() ==> g.pingEcho.Some?)
    && (g.state.RemoteVerifyWait? ==> (n, PingTimeout) in timers)
    && (n != self && g.state.Verified() ==> n in ponged)
  }

  ghost predicate OkBut(nodes: Nodes, timers: set<(NodeId, Timer)>, self: NodeId, ponged: set<NodeId>, except: set<NodeId>) {
    forall n :: n in nodes && n !in except ==> NodeOk(nodes[n], n, timers, self, ponged)
  }

  /**
   A ping on record has its timeout armed exactly as long as that has not fired since. A timeout that
   fires does not take the ping off the record unless it also ends the node's verification.
   */
  ghost predicate Tracked(nodes: Nodes, timers: set<(NodeId, Timer)>, self: NodeId, stale: set<NodeId>) {
    && (self, PongTimeout) !in timers
    && forall n :: n in nodes && nodes[n].pingEcho.Some? ==> n != self && ((n, PongTimeout) in timers <==> n !in stale)
  }

  lemma GutsTracked(nodes: Nodes, timers: set<(NodeId, Timer)>, self: NodeId, stale: set<NodeId>, n: NodeId, g: Guts)
    requires Tracked(nodes, timers, self, stale)
    requires g.pingEcho.None? || (n in nodes && g.pingEcho == nodes[n].pingEcho)
    ensures Tracked(nodes[n := g], timers, self, stale)
  {
  }

  lemma PingTracked(nodes: Nodes, timers: set<(NodeId, Timer)>, self: NodeId, stale: set<NodeId>, n: NodeId, g: Guts)
    requires Tracked(nodes, timers, self, stale) && n != self
    ensures Tracked(nodes[n := g], timers + {(n, PongTimeout)}, self, stale - {n})
  {
  }

  lemma FiredTracked(nodes: Nodes, timers: set<(NodeId, Timer)>, self: NodeId, stale: set<NodeId>, n: NodeId, timer: Timer)
    requires Tracked(nodes, timers, self, stale)
    ensures Tracked(nodes, timers - {(n, timer)}, self, if timer.PongTimeout? then stale + {n} else stale)
    ensures n in nodes && nodes[n].pingEcho.None? ==> Tracked(nodes, timers - {(n, timer)}, self, stale)
    ensures !timer.PongTimeout? ==> Tracked(nodes, timers + {(n, timer)}, self, stale)
  {
  }

  /** Pings are numbered; those on record differ from each other, and from all that have been answered. */
  ghost predicate Numbered(nodes: Nodes, nextPing: nat, echoed: set<nat>) {
    && (forall n :: n in nodes && nodes[n].pingEcho.Some? ==> nodes[n].pingEcho.value < nextPing && nodes[n].pingEcho.value !in echoed)
    && (forall n, m :: n in nodes && m in nodes && nodes[n].pingEcho.Some? && nodes[n].pingEcho == nodes[m].pingEcho ==> n == m)
    && (forall k :: k in echoed ==> k < nextPing)
  }

  lemma GutsNumbered(nodes: Nodes, nextPing: nat, echoed: set<nat>, n: NodeId, g: Guts)
    requires Numbered(nodes, nextPing, echoed)
    requires g.pingEcho.None? || (n in nodes && g.pingEcho == nodes[n].pingEcho)
    ensures Numbered(nodes[n := g], nextPing, echoed)
  {
  }

  lemma PingNumbered(nodes: Nodes, nextPing: nat, echoed: set<nat>, n: NodeId, g: Guts)
    requires Numbered(nodes, nextPing, echoed) && g.pingEcho == Some(nextPing)
    ensures Numbered(nodes[n := g], nextPing + 1, echoed)
  {
  }

  /** The ping on record for `n` is answered, and taken off the record. */
  lemma EchoNumbered(nodes: Nodes, nextPing: nat, echoed: set<nat>, n: NodeId, g: Guts)
    requires Numbered(nodes, nextPing, echoed) && n in nodes && g.pingEcho.None?
    ensures Numbered(nodes[n := g], nextPing, echoed + if nodes[n].pingEcho.Some? then {nodes[n].pingEcho.value} else {})
  {
  }

  /** One more failure is counted; a ping on record stays there, and then no timer is touched. */
  ghost predicate Failed(before: Guts, after: Guts, timers: set<(NodeId, Timer)>, timers': set<(NodeId, Timer)>) {
    && after.queryTimeouts == before.queryTimeouts + 1
    && (before.pingEcho.Some? ==> after.pingEcho == before.pingEcho && timers' == timers)
  }

  ghost function OnChan(live: set<Query>, chan: nat): set<Query> {
    set q | q in live && q.chan == chan
  }

  function At(counters: map<nat, nat>, chan: nat): nat {
    if chan in counters then counters[chan] else 0
  }

  /** A lookup counts exactly its live queries and unread replies, and never lets them exceed alpha. */
  ghost predicate Balanced(live: set<Query>, inbox: map<nat, nat>, outstanding: map<nat, nat>) {
    forall chan :: |OnChan(live, chan)| + At(inbox, chan) == At(outstanding, chan) <= ALPHA
  }

  /** Query identities are given out once; a query is live or answered, never both. */
  ghost predicate Identified(live: set<Query>, answered: set<nat>, submitted: set<nat>) {
    && (forall p, q :: p in live && q in live && p.id == q.id ==> p == q)
    && (forall q :: q in live ==> q.id !in answered && q.id in submitted)
    && (forall i :: i in submitted ==> i in answered || exists q :: q in live && q.id == i)
    && answered <= submitted
  }

  /** The queries that wait at a node. */
  function Queue(g: Guts): (seq<Query>, Option<Query>) { (g.deferred, g.pending) }

  /**
   How other nodes may move while `n` is dealt with: a table neighbour is contested, a new node is pinged.
   Their queries stay where they are, and so does a ping on record.
   */
  ghost predicate Moves(before: Nodes, after: Nodes, n: NodeId) {
    forall m :: m in before ==> m in after && (m == n || MovesOne(before[m], after[m]))
  }

  ghost predicate MovesOne(before: Guts, after: Guts) {
    && after == before.(state := after.state, pingEcho := after.pingEcho)
    && (before.pingEcho.Some? ==> after.pingEcho == before.pingEcho)
    && (after.state == before.state
        || (before.state.Known? && after.state.Contested?)
        || (before.state.Unknown? && after.state.VerifyInit?))
  }

  /** The queries that wait at a node once it has moved to `next`. */
  function QueueMoved(g: Guts, next: State): (seq<Query>, Option<Query>) {
    if next == g.state then Queue(g)
    else if next.Unknown? then ([], None)
    else if next.Known? then Queue(QueryStarted(g.(state := Known, queryTimeouts := 0)))
    else Queue(g)
  }

  /** The queries that wait at a node once it has handled a packet. */
  function QueueAfter(g: Guts, pkt: Packet): (seq<Query>, Option<Query>) {
    if pkt.NeighboursPacket? then
      if g.state.CanQuery() && g.pending.Some? then Queue(QueryStarted(g.(pending := None))) else Queue(g)
    else QueueMoved(g, After(g, pkt))
  }

  /** And once a timer has fired. */
  function QueueTimedOut(g: Guts, timer: Timer): (seq<Query>, Option<Query>) {
    if timer.NeighboursTimeout? then if g.state.CanQuery() then (g.deferred, None) else Queue(g)
    else QueueMoved(g, g.state.AfterTimeout(timer, g.queryTimeouts))
  }

  ghost predicate OthersStay(before: Nodes, after: Nodes, n: NodeId) {
    forall m :: m in before && m != n ==> m in after && after[m] == before[m]
  }

  lemma NoMove(nodes: Nodes)
    ensures Progress(nodes, nodes) && forall n :: Moves(nodes, nodes, n)
  {
  }

  lemma MovesCompose(a: Nodes, b: Nodes, c: Nodes, n: NodeId)
    requires Moves(a, b, n) && Moves(b, c, n)
    ensures Moves(a, c, n)
  {
  }

  /** A node that can be queried stays one: known, contested and unresponsive are never left. */
  ghost predicate Progress(before: Nodes, after: Nodes) {
    forall m :: m in before ==> m in after && (before[m].state.CanQuery() ==> after[m].state.CanQuery())
  }

  lemma MovesProgress(before: Nodes, after: Nodes, n: NodeId)
    requires Moves(before, after, n)
    requires n in before && before[n].state.CanQuery() ==> after[n].state.CanQuery()
    ensures Progress(before, after)
  {
  }

  lemma ProgressComposes(a: Nodes, b: Nodes, c: Nodes)
    requires Progress(a, b) && Progress(b, c)
    ensures Progress(a, c)
  {
  }

  lemma Pinged(before: Nodes, after: Nodes, n: NodeId)
    requires n in before && n in after && after == before[n := after[n]] && after[n].state == before[n].state
    ensures Progress(before, after) && Moves(before, after, n)
  {
  }

  lemma Interned(before: Nodes, after: Nodes, n: NodeId)
    requires after == if n in before then before else before[n := FRESH]
    ensures Progress(before, after) && Moves(before, after, n)
  {
  }

  lemma InProgress(before: Nodes, after: Nodes, n: NodeId)
    requires Progress(before, after) && n in before
    ensures n in after
  {
  }

  // ---------------------------------------------------------------- pure steps

  /** Changing what a node is, but not its queries, keeps every query in place. */
  lemma GutsChanged(nodes: Nodes, live: set<Query>, n: NodeId, g: Guts)
    requires Placed(nodes, live) && n in nodes && g.deferred == nodes[n].deferred && g.pending == nodes[n].pending
    ensures Placed(nodes[n := g], live)
  {
    forall q | q in live ensures HasPlace(nodes[n := g], q) {
      assert HasPlace(nodes, q);
    }
  }

  /** A node that is named and acceptable is known of and verified, if it was not before; nobody else is touched. */
  ghost predicate OneVerified(before: Nodes, after: Nodes, nb: Neighbour, self: NodeId) {
    && before.Keys <= after.Keys && (forall m :: m in after && m != nb.id ==> m in before && after[m] == before[m])
    && (if nb.id == self || !nb.acceptable then after == before
        else
          && nb.id in after
          && (if nb.id in before && !before[nb.id].state.Unknown? then after[nb.id] == before[nb.id] else after[nb.id].state.VerifyInit?))
  }

  /** The nodes named in a reply from `n`, and nobody else, are known of and verified, each as it was before if it was neither unknown nor new. */
  ghost predicate NamedVerified(before: Nodes, after: Nodes, n: NodeId, neighbours: seq<Neighbour>, self: NodeId) {
    && before.Keys <= after.Keys
    && (forall m :: m in after && m != n && !Named(neighbours, m, self) ==> m in before && after[m] == before[m])
    && (forall m :: m != n && Named(neighbours, m, self) ==>
          && m in after
          && (if m in before && !before[m].state.Unknown? then after[m] == before[m] else after[m].state.VerifyInit?))
  }

  ghost predicate Named(neighbours: seq<Neighbour>, m: NodeId, self: NodeId) {
    m != self && Neighbour(m, true) in neighbours
  }

  lemma NoneNamed(nodes: Nodes, n: NodeId, neighbours: seq<Neighbour>, self: NodeId)
    ensures NamedVerified(nodes, nodes, n, neighbours[..0], self)
  {
  }

  lemma NamedBesides(start: Nodes, before: Nodes, after: Nodes, n: NodeId, neighbours: seq<Neighbour>, self: NodeId)
    requires NamedVerified(start, before, n, neighbours, self) && n in before && n in after && after == before[n := after[n]]
    ensures NamedVerified(start, after, n, neighbours, self)
  {
  }

  lemma OneMoreNamed(start: Nodes, before: Nodes, after: Nodes, n: NodeId, neighbours: seq<Neighbour>, i: nat, self: NodeId)
    requires i < |neighbours| && NamedVerified(start, before, n, neighbours[..i], self) && OneVerified(before, after, neighbours[i], self)
    ensures NamedVerified(start, after, n, neighbours[..i + 1], self)
  {
    assert neighbours[..i + 1] == neighbours[..i] + [neighbours[i]];
    forall m ensures Named(neighbours[..i + 1], m, self) <==>
                       Named(neighbours[..i], m, self) || (m != self && neighbours[i] == Neighbour(m, true)) {
    }
  }

  lemma NodeInterned(nodes: Nodes, live: set<Query>, n: NodeId)
    requires Placed(nodes, live) && n !in nodes
    ensures Placed(nodes[n := FRESH], live)
  {
    forall q | q in live ensures HasPlace(nodes[n := FRESH], q) {
      assert HasPlace(nodes, q);
    }
  }

  lemma SameButQueries(g: Guts, h: Guts, n: NodeId, timers: set<(NodeId, Timer)>, self: NodeId, ponged: set<NodeId>)
    requires NodeOk(g, n, timers, self, ponged)
    requires h.state == g.state && h.pingEcho == g.pingEcho && h.pending == g.pending
    ensures NodeOk(h, n, timers, self, ponged)
  {
  }

  lemma Deferred(nodes: Nodes, live: set<Query>, n: NodeId, q: Query, timers: set<(NodeId, Timer)>, self: NodeId, ponged: set<NodeId>)
    requires Placed(nodes, live) && n in nodes && q !in live && q.remote == Peer(n) && NodeOk(nodes[n], n, timers, self, ponged)
    ensures Placed(nodes[n := Deferring(nodes[n], q)], live + {q})
    ensures NodeOk(Deferring(nodes[n], q), n, timers, self, ponged)
    ensures Deferring(nodes[n], q).state == nodes[n].state && Deferring(nodes[n], q).pingEcho == nodes[n].pingEcho
  {
    hide Placed, NodeOk;
    NewDeferred(nodes, live, n, Deferring(nodes[n], q), q);
    SameButQueries(nodes[n], Deferring(nodes[n], q), n, timers, self, ponged);
  }

  /** What entering a state does to the table: known nodes are added, unknown ones deleted. */
  ghost predicate TableEntered(before: seq<Bucket>, after: seq<Bucket>, d: Index, n: NodeId, self: NodeId, next: State) {
    && |before| == |after| == N_BUCKETS && after == before[d := after[d]]
    && match next
       case Known => exists contested :: Added(before[d], after[d], n, self, contested)
       case Unknown => Deleted(before[d], after[d], n)
       case _ => after[d] == before[d]
  }

  lemma SameTable(before: seq<Bucket>, after: seq<Bucket>, d: Index, n: NodeId, self: NodeId, next: State)
    ensures TableEntered(before, after, d, n, self, next) && !next.Known? && !next.Unknown? ==> before == after
  {
    hide Added, Deleted;
  }

  /** The table after a node is found dead: it is gone, and the latest replacement has moved up. */
  function Replaced(buckets: seq<Bucket>, d: Index, n: NodeId): seq<Bucket>
    requires |buckets| == N_BUCKETS
  {
    buckets[d := Refilled(Dropped(buckets[d].entries, n), buckets[d].replacements)]
  }

  lemma NothingEntered(buckets: seq<Bucket>, d: Index, n: NodeId, self: NodeId, next: State)
    requires |buckets| == N_BUCKETS && !next.Known? && !next.Unknown?
    ensures TableEntered(buckets, buckets, d, n, self, next)
  {
  }

  /** The node that entering `n` in its bucket puts up for revalidation. */
  function LastOfFull(b: Bucket, n: NodeId, self: NodeId): Option<NodeId> {
    if n != self && n !in b.entries && |b.entries| >= BUCKET_SIZE then Some(b.entries[|b.entries| - 1]) else None
  }

  ghost predicate IsContested(before: Nodes, after: Nodes, last: Option<NodeId>) {
    last.Some? ==> last.value in before && last.value in after
                   && (before[last.value].state.Known? ==> after[last.value].state.Contested?)
  }

  lemma KnownEntered(before: seq<Bucket>, after: seq<Bucket>, d: Index, n: NodeId, self: NodeId, last: Option<NodeId>)
    requires |before| == |after| == N_BUCKETS && after == before[d := after[d]] && Added(before[d], after[d], n, self, last)
    ensures TableEntered(before, after, d, n, self, Known) && last == LastOfFull(before[d], n, self)
  {
  }

  lemma OthersContested(start: Nodes, before: Nodes, after: Nodes, n: NodeId, last: Option<NodeId>)
    requires IsContested(before, after, last) && (last.Some? ==> last.value != n)
    requires start.Keys == before.Keys && forall m :: m in start && m != n ==> before[m] == start[m]
    ensures IsContested(start, after, last)
  {
  }

  /** A node's state once its first deferred query has moved to pending, if it can. */
  function QueryStarted(g: Guts): Guts {
    if g.deferred != [] && g.state.CanQuery() && g.pending.None?
    then g.(pending := Some(g.deferred[0]), deferred := g.deferred[1..]) else g
  }

  lemma NewIdentity(live: set<Query>, answered: set<nat>, submitted: set<nat>, q: Query)
    requires Identified(live, answered, submitted) && q.id !in submitted
    ensures q !in live && q.id !in answered
    ensures Identified(live + {q}, answered, submitted + {q.id})
    ensures Identified(live, answered + {q.id}, submitted + {q.id})
  {
    forall i | i in submitted + {q.id} ensures i in answered || exists p :: p in live + {q} && p.id == i {
      if i == q.id {
        assert q in live + {q};
      } else if i !in answered {
        var p :| p in live && p.id == i;
        assert p in live + {q};
      }
    }
  }

  lemma PendingAnswered(nodes: Nodes, live: set<Query>, n: NodeId, g: Guts)
    requires Placed(nodes, live) && n in nodes && nodes[n].pending.Some?
    requires g.deferred == nodes[n].deferred && g.pending == None
    ensures nodes[n].pending.value in live
    ensures Placed(nodes[n := g], live - {nodes[n].pending.value})
  {
    var p := nodes[n].pending.value;
    assert PlacedAt(nodes[n], n, live);
    forall q | q in live - {p} ensures HasPlace(nodes[n := g], q) {
      assert HasPlace(nodes, q);
    }
    forall m | m in nodes ensures PlacedAt(nodes[n := g][m], m, live - {p}) {
      assert PlacedAt(nodes[m], m, live);
    }
  }

  lemma DeferredAnswered(nodes: Nodes, live: set<Query>, n: NodeId, g: Guts)
    requires Placed(nodes, live) && n in nodes && nodes[n].deferred != []
    requires g.deferred == nodes[n].deferred[1..] && g.pending == nodes[n].pending
    ensures nodes[n].deferred[0] in live
    ensures Placed(nodes[n := g], live - {nodes[n].deferred[0]})
  {
    var p := nodes[n].deferred[0];
    assert PlacedAt(nodes[n], n, live);
    FirstRemoved(nodes[n].deferred);
    forall q | q in live - {p} ensures HasPlace(nodes[n := g], q) {
      assert HasPlace(nodes, q);
    }
    forall m | m in nodes ensures PlacedAt(nodes[n := g][m], m, live - {p}) {
      assert PlacedAt(nodes[m], m, live);
    }
  }

  lemma FirstDeferredHere(nodes: Nodes, live: set<Query>, n: NodeId)
    requires Placed(nodes, live) && n in nodes && nodes[n].deferred != []
    ensures nodes[n].deferred[0].remote == Peer(n)
  {
    assert PlacedAt(nodes[n], n, live);
  }

  lemma FirstRemoved(s: seq<Query>)
    requires s != [] && Distinct(s)
    ensures Distinct(s[1..]) && forall q :: q in s[1..] <==> q in s && q != s[0]
  {
    assert s == [s[0]] + s[1..];
  }

  lemma LastAdded(s: seq<Query>, q: Query)
    requires Distinct(s) && q !in s
    ensures Distinct(s + [q])
  {
  }

  /** The first deferred query becomes the pending one. */
  lemma DeferredStarted(nodes: Nodes, live: set<Query>, n: NodeId, g: Guts)
    requires Placed(nodes, live) && n in nodes && nodes[n].deferred != [] && nodes[n].pending == None
    requires g.deferred == nodes[n].deferred[1..] && g.pending == Some(nodes[n].deferred[0])
    ensures Placed(nodes[n := g], live)
  {
    assert PlacedAt(nodes[n], n, live);
    FirstRemoved(nodes[n].deferred);
    forall q | q in live ensures HasPlace(nodes[n := g], q) {
      assert HasPlace(nodes, q);
    }
  }

  lemma NewStarted(nodes: Nodes, live: set<Query>, n: NodeId, g: Guts, q: Query)
    requires Placed(nodes, live) && n in nodes && nodes[n].pending == None && q !in live && q.remote == Peer(n)
    requires g.deferred == nodes[n].deferred && g.pending == Some(q)
    ensures Placed(nodes[n := g], live + {q})
  {
    forall p | p in live ensures HasPlace(nodes[n := g], p) {
      assert HasPlace(nodes, p);
    }
    forall m | m in nodes ensures PlacedAt(nodes[n := g][m], m, live + {q}) {
      assert PlacedAt(nodes[m], m, live);
    }
  }

  /** The query is pending if its node could be queried and was free, and else the last of the deferred ones. */
  ghost predicate Joined(before: Guts, after: Guts, q: Query) {
    if before.state.CanQuery() && before.pending.None? then after == before.(pending := Some(q))
    else after.pending == before.pending && after.deferred == before.deferred + [q]
  }

  /** A query for an unknown node has it verified. */
  ghost predicate Enqueued(before: State, after: State) {
    after == if before.Unknown? then VerifyInit else before
  }

  /** The node's state with one more query waiting for it to become queryable. */
  function Deferring(g: Guts, q: Query): Guts { g.(deferred := g.deferred + [q]) }

  lemma NewDeferred(nodes: Nodes, live: set<Query>, n: NodeId, g: Guts, q: Query)
    requires Placed(nodes, live) && n in nodes && q !in live && q.remote == Peer(n)
    requires g.deferred == nodes[n].deferred + [q] && g.pending == nodes[n].pending
    ensures Placed(nodes[n := g], live + {q})
  {
    assert PlacedAt(nodes[n], n, live);
    LastAdded(nodes[n].deferred, q);
    forall p | p in live ensures HasPlace(nodes[n := g], p) {
      assert HasPlace(nodes, p);
    }
    forall m | m in nodes ensures PlacedAt(nodes[n := g][m], m, live + {q}) {
      assert PlacedAt(nodes[m], m, live);
    }
  }

  function Bump(counters: map<nat, nat>, chan: nat): map<nat, nat> {
    counters[chan := At(counters, chan) + 1]
  }

  lemma AnswerBalanced(live: set<Query>, inbox: map<nat, nat>, outstanding: map<nat, nat>, q: Query)
    requires Balanced(live, inbox, outstanding) && q in live
    ensures Balanced(live - {q}, Bump(inbox, q.chan), outstanding)
  {
    var in' := Bump(inbox, q.chan);
    forall chan: nat ensures |OnChan(live - {q}, chan)| + At(in', chan) == At(outstanding, chan) <= ALPHA {
      assert OnChan(live - {q}, chan) == OnChan(live, chan) - {q};
      assert |OnChan(live, chan)| + At(inbox, chan) == At(outstanding, chan) <= ALPHA;
    }
  }

  lemma SubmitBalanced(live: set<Query>, inbox: map<nat, nat>, outstanding: map<nat, nat>, q: Query)
    requires Balanced(live, inbox, outstanding) && q !in live && At(outstanding, q.chan) < ALPHA
    ensures Balanced(live + {q}, inbox, Bump(outstanding, q.chan))
  {
    var out := Bump(outstanding, q.chan);
    forall chan: nat ensures |OnChan(live + {q}, chan)| + At(inbox, chan) == At(out, chan) <= ALPHA {
      OnChanWith(live, q, chan);
      assert |OnChan(live, chan)| + At(inbox, chan) == At(outstanding, chan) <= ALPHA;
    }
  }

  lemma OnChanWith(live: set<Query>, q: Query, chan: nat)
    requires q !in live
    ensures |OnChan(live + {q}, chan)| == |OnChan(live, chan)| + if chan == q.chan then 1 else 0
  {
    var before := OnChan(live, chan);
    if chan == q.chan {
      assert OnChan(live + {q}, chan) == before + {q} && q !in before;
    } else {
      assert OnChan(live + {q}, chan) == before;
    }
  }

  lemma LocalBalanced(live: set<Query>, inbox: map<nat, nat>, outstanding: map<nat, nat>, chan: nat)
    requires Balanced(live, inbox, outstanding) && At(outstanding, chan) < ALPHA
    ensures Balanced(live, Bump(inbox, chan), Bump(outstanding, chan))
  {
  }

  lemma ReceiveBalanced(live: set<Query>, inbox: map<nat, nat>, outstanding: map<nat, nat>, chan: nat)
    requires Balanced(live, inbox, outstanding) && At(inbox, chan) > 0
    ensures At(outstanding, chan) > 0
    ensures Balanced(live, inbox[chan := At(inbox, chan) - 1], outstanding[chan := At(outstanding, chan) - 1])
  {
    assert |OnChan(live, chan)| + At(inbox, chan) == At(outstanding, chan);
    var in', out' := inbox[chan := At(inbox, chan) - 1], outstanding[chan := At(outstanding, chan) - 1];
    forall c: nat ensures |OnChan(live, c)| + At(in', c) == At(out', c) <= ALPHA {
      assert |OnChan(live, c)| + At(inbox, c) == At(outstanding, c) <= ALPHA;
    }
  }

  lemma AnswerIdentified(live: set<Query>, answered: set<nat>, submitted: set<nat>, q: Query)
    requires Identified(live, answered, submitted) && q in live
    ensures Identified(live - {q}, answered + {q.id}, submitted)
  {
    forall i | i in submitted ensures i in answered + {q.id} || exists p :: p in live - {q} && p.id == i {
      if i !in answered && i != q.id {
        var p :| p in live && p.id == i;
        assert p in live - {q};
      }
    }
  }

  // ---------------------------------------------------------------- the loop's state

  class Network {
    const tab: Table
    var nodes: Nodes
    var timers: set<(NodeId, Timer)>
    var inbox: map<nat, nat>        // unread replies by channel
    var outstanding: map<nat, nat>  // pendingQueries of the lookup that reads the channel
    var nextPing: nat
    ghost var live: set<Query>
    ghost var answered: set<nat>
    ghost var submitted: set<nat>
    ghost var ponged: set<NodeId>   // the nodes that answered a ping of ours
    ghost var echoed: set<nat>      // the pings of ours that were answered
    ghost var stale: set<NodeId>    // the nodes whose pong timeout has fired since we last pinged them

    ghost predicate ValidBut(except: set<NodeId>)
      reads this, tab
    {
      && tab.Valid() && tab.ids == nodes.Keys
      && Placed(nodes, live) && OkBut(nodes, timers, tab.self, ponged, except)
      && Balanced(live, inbox, outstanding) && Identified(live, answered, submitted)
      && Tracked(nodes, timers, tab.self, stale) && Numbered(nodes, nextPing, echoed)
    }

    ghost predicate Valid()
      reads this, tab
    {
      ValidBut({})
    }

    constructor (self: NodeId, distance: NodeId -> Index)
      ensures Valid() && nodes == map[] && submitted == {} && outstanding == map[] && timers == {} && fresh(tab) && tab.self == self
    {
      tab := new Table(self, distance);
      nodes, timers, inbox, outstanding, nextPing := map[], {}, map[], map[], 0;
      live, answered, submitted, ponged, echoed, stale := {}, {}, {}, {}, {}, {};
    }

    /** Sends a ping unless one is outstanding or the node claims our own identity. */
    method Ping(n: NodeId)
      requires n in nodes && ValidBut({n})
      modifies this`nodes, this`timers, this`nextPing, this`stale
      ensures ValidBut({n})
      ensures nodes == if old(nodes)[n].pingEcho.Some? || n == tab.self then old(nodes)
                       else old(nodes)[n := old(nodes)[n].(pingEcho := Some(old(nextPing)))]
      ensures timers == if old(nodes)[n].pingEcho.Some? || n == tab.self then old(timers) else old(timers) + {(n, PongTimeout)}
      ensures stale == if old(nodes)[n].pingEcho.Some? || n == tab.self then old(stale) else old(stale) - {n}
    {
      hide Placed, Tracked, Numbered, Balanced, Identified, Table.Valid;
      if nodes[n].pingEcho.Some? || n == tab.self {
        return;
      }
      var g := nodes[n].(pingEcho := Some(nextPing));
      GutsChanged(nodes, live, n, g);
      PingTracked(nodes, timers, tab.self, stale, n, g);
      PingNumbered(nodes, nextPing, echoed, n, g);
      nodes, timers, nextPing := nodes[n := g], timers + {(n, PongTimeout)}, nextPing + 1;
      stale := stale - {n};
    }

    /** Replies to the pending query of `n`, which then has none. */
    method AnswerPending(n: NodeId)
      requires n in nodes && nodes[n].pending.Some? && ValidBut({n})
      modifies this`nodes, this`inbox, this`live, this`answered
      ensures ValidBut({n})
      ensures nodes == old(nodes)[n := old(nodes)[n].(pending := None)]
      ensures old(nodes)[n].pending.value in old(live) && live == old(live) - {old(nodes)[n].pending.value}
      ensures inbox == Bump(old(inbox), old(nodes)[n].pending.value.chan)
    {
      hide Placed, Tracked, Numbered, Balanced, Identified, NodeOk, Bump, Table.Valid;
      var q := nodes[n].pending.value;
      var g := nodes[n].(pending := None);
      PendingAnswered(nodes, live, n, g);
      GutsTracked(nodes, timers, tab.self, stale, n, g);
      GutsNumbered(nodes, nextPing, echoed, n, g);
      AnswerBalanced(live, inbox, outstanding, q);
      AnswerIdentified(live, answered, submitted, q);
      nodes, inbox := nodes[n := g], Bump(inbox, q.chan);
      live, answered := live - {q}, answered + {q.id};
    }

    /** Replies to every deferred query of `n`. */
    method AnswerDeferred(n: NodeId)
      requires n in nodes && ValidBut({n})
      modifies this`nodes, this`inbox, this`live, this`answered
      ensures ValidBut({n})
      ensures nodes == old(nodes)[n := old(nodes)[n].(deferred := [])]
      ensures live <= old(live)
    {
      hide Placed, Tracked, Numbered, Balanced, Identified, NodeOk, Bump, Table.Valid;
      while nodes[n].deferred != []
        invariant n in nodes && ValidBut({n}) && live <= old(live)
        invariant nodes == old(nodes)[n := old(nodes)[n].(deferred := nodes[n].deferred)]
        decreases |nodes[n].deferred|
      {
        var q := nodes[n].deferred[0];
        var g := nodes[n].(deferred := nodes[n].deferred[1..]);
        DeferredAnswered(nodes, live, n, g);
        GutsTracked(nodes, timers, tab.self, stale, n, g);
        GutsNumbered(nodes, nextPing, echoed, n, g);
        AnswerBalanced(live, inbox, outstanding, q);
        AnswerIdentified(live, answered, submitted, q);
        nodes, inbox := nodes[n := g], Bump(inbox, q.chan);
        live, answered := live - {q}, answered + {q.id};
      }
    }

    /** Replies to every query of `n` with nothing. */
    method AbortQueries(n: NodeId)
      requires n in nodes && ValidBut({n})
      modifies this`nodes, this`inbox, this`live, this`answered
      ensures ValidBut({n}) && live <= old(live)
      ensures nodes == old(nodes)[n := old(nodes)[n].(deferred := [], pending := None)]
    {
      hide Placed, Tracked, Numbered, Balanced, Identified, NodeOk, Bump, Table.Valid;
      AnswerDeferred(n);
      if nodes[n].pending.Some? {
        AnswerPending(n);
      }
    }

    lemma TableSize()
      requires tab.Valid()
      ensures |tab.buckets| == N_BUCKETS
    {
    }

    /** Entering `unknown`: the node leaves the table and its queries are answered with nothing. */
    method EnterUnknown(n: NodeId)
      requires n in nodes && ValidBut({n})
      modifies this`nodes, this`inbox, this`live, this`answered, tab
      ensures Valid()
      ensures nodes == old(nodes)[n := FRESH] && live <= old(live)
      ensures TableEntered(old(tab.buckets), tab.buckets, tab.distance(n), n, tab.self, Unknown)
    {
      hide Placed, Tracked, Numbered, Balanced, Identified, Deleted, Table.Valid;
      TableSize();
      tab.Delete(n);
      AbortQueries(n);
      GutsChanged(nodes, live, n, FRESH);
      GutsTracked(nodes, timers, tab.self, stale, n, FRESH);
      GutsNumbered(nodes, nextPing, echoed, n, FRESH);
      nodes := nodes[n := FRESH];
    }

    /** Sets the state of `n`, and nothing else. */
    method SetGuts(n: NodeId, g: Guts)
      requires n in nodes && ValidBut({n})
      requires g.deferred == nodes[n].deferred && g.pending == nodes[n].pending
      requires g.pingEcho.None? || g.pingEcho == nodes[n].pingEcho
      modifies this`nodes
      ensures ValidBut({n}) && nodes == old(nodes)[n := g]
      ensures NodeOk(g, n, timers, tab.self, ponged) ==> Valid()
    {
      hide Placed, Tracked, Numbered, Balanced, Identified, NodeOk, Table.Valid;
      GutsChanged(nodes, live, n, g);
      GutsTracked(nodes, timers, tab.self, stale, n, g);
      GutsNumbered(nodes, nextPing, echoed, n, g);
      nodes := nodes[n := g];
    }

    /** What `transition` needs of a node for entering `next`: its answers so far allow it. */
    ghost predicate MayEnter(n: NodeId, next: State)
      requires n in nodes
      reads this, tab
    {
      next.Unknown? || NodeOk(nodes[n].(state := next, pingEcho := if next.VerifyInit? || next.Contested? then Some(0) else nodes[n].pingEcho),
                              n, if next.RemoteVerifyWait? then timers + {(n, PingTimeout)} else timers, tab.self, ponged)
    }

    /** Entering `verifyinit` or `contested`: the node is pinged. */
    method EnterPinged(n: NodeId, next: State)
      requires n in nodes && ValidBut({n}) && MayEnter(n, next) && (next.VerifyInit? || next.Contested?)
      modifies this`nodes, this`timers, this`nextPing, this`stale
      ensures Valid() && OthersStay(old(nodes), nodes, n) && nodes.Keys == old(nodes).Keys
      ensures nodes[n] == old(nodes)[n].(state := next, pingEcho := nodes[n].pingEcho)
      ensures old(nodes)[n].pingEcho.Some? ==> nodes[n].pingEcho == old(nodes)[n].pingEcho
      ensures n != tab.self ==> nodes[n].pingEcho.Some?
      ensures timers == if old(nodes)[n].pingEcho.Some? || n == tab.self then old(timers) else old(timers) + {(n, PongTimeout)}
      ensures stale == if old(nodes)[n].pingEcho.Some? || n == tab.self then old(stale) else old(stale) - {n}
    {
      hide Placed, Tracked, Numbered, Balanced, Identified, Table.Valid;
      SetGuts(n, nodes[n].(state := next));
      Ping(n);
    }

    /** Entering a state that sends nothing; `remoteverifywait` has a timer of its own. */
    method EnterSilently(n: NodeId, next: State)
      requires n in nodes && ValidBut({n}) && MayEnter(n, next)
      requires next.VerifyWait? || next.RemoteVerifyWait? || next.Unresponsive?
      modifies this`nodes, this`timers
      ensures Valid() && OthersStay(old(nodes), nodes, n) && nodes.Keys == old(nodes).Keys
      ensures nodes[n] == old(nodes)[n].(state := next)
      ensures timers == if next.RemoteVerifyWait? then old(timers) + {(n, PingTimeout)} else old(timers)
    {
      hide Placed, Tracked, Numbered, Balanced, Identified, Table.Valid;
      SetGuts(n, nodes[n].(state := next));
      if next.RemoteVerifyWait? {
        FiredTracked(nodes, timers, tab.self, stale, n, PingTimeout);
        timers := timers + {(n, PingTimeout)};
      }
    }

    /** Moves `n` to `next` and runs what entering it entails, which may in turn move others. */
    method Transition(n: NodeId, next: State)
      requires n in nodes && ValidBut({n}) && MayEnter(n, next)
      requires nodes[n].state == next ==> NodeOk(nodes[n], n, timers, tab.self, ponged)
      modifies this`nodes, this`timers, this`inbox, this`nextPing, this`stale, this`live, this`answered, tab
      ensures Valid() && nodes.Keys == old(nodes).Keys && nodes[n].state == next && Moves(old(nodes), nodes, n)
      ensures live <= old(live) && (!next.Unknown? ==> live == old(live) && inbox == old(inbox) && answered == old(answered))
      ensures !next.Known? ==> OthersStay(old(nodes), nodes, n)
      ensures old(timers) <= timers
      ensures old(nodes)[n].state == next ==> nodes == old(nodes) && timers == old(timers) && tab.buckets == old(tab.buckets)
      ensures old(nodes)[n].state != next ==>
                TableEntered(old(tab.buckets), tab.buckets, tab.distance(n), n, tab.self, next)
      ensures old(nodes)[n].state != next && next.Known? ==>
                nodes[n] == QueryStarted(old(nodes)[n].(state := Known, queryTimeouts := 0))
                && ((n, PongTimeout) in timers <==> (n, PongTimeout) in old(timers))
                && |old(tab.buckets)| == N_BUCKETS
                && IsContested(old(nodes), nodes, LastOfFull(old(tab.buckets)[tab.distance(n)], n, tab.self))
      ensures old(nodes)[n].state != next && (next.Contested? || next.VerifyInit?) && n != tab.self ==> nodes[n].pingEcho.Some?
      // entering either state sends a ping, and arms its timeout, exactly if no older ping is on record
      ensures old(nodes)[n].state != next && (next.Contested? || next.VerifyInit?) ==>
                && timers == (if old(nodes)[n].pingEcho.Some? || n == tab.self then old(timers) else old(timers) + {(n, PongTimeout)})
                && stale == (if old(nodes)[n].pingEcho.Some? || n == tab.self then old(stale) else old(stale) - {n})
      ensures next.VerifyWait? ==> timers == old(timers)
      ensures next.VerifyWait? || next.Unknown? || next.Unresponsive? ==> stale == old(stale)
      ensures old(nodes)[n].state != next && next.Unknown? ==> nodes[n] == FRESH && timers == old(timers)
      ensures old(nodes)[n].state != next && (next.VerifyWait? || next.RemoteVerifyWait? || next.Unresponsive?) ==>
                && nodes[n] == old(nodes)[n].(state := next)
                && timers == (if next.RemoteVerifyWait? then old(timers) + {(n, PingTimeout)} else old(timers))
      ensures Queue(nodes[n]) == QueueMoved(old(nodes)[n], next)
      ensures old(nodes)[n].state != next && (next.Contested? || next.VerifyInit?) ==>
                nodes[n] == old(nodes)[n].(state := next, pingEcho := nodes[n].pingEcho)
                && (old(nodes)[n].pingEcho.Some? ==> nodes[n].pingEcho == old(nodes)[n].pingEcho)
      decreases if next.Known? then 2 else 0, 1
    {
      hide Placed, Tracked, Numbered, Balanced, Identified, TableEntered, IsContested, LastOfFull, QueryStarted, Table.Valid, MayEnter, NodeOk;
      if nodes[n].state == next {
        return;
      }
      TableSize();
      if !next.Known? && !next.Unknown? {
        NothingEntered(tab.buckets, tab.distance(n), n, tab.self, next);
      }
      match next
      case Unknown =>
        EnterUnknown(n);
      case Known =>
        EnterKnown(n);
      case VerifyInit | Contested =>
        EnterPinged(n, next);
      case _ =>
        EnterSilently(n, next);
    }

    /** Entering `known`: the node may be queried and tabled; the last node of a full bucket is contested. */
    method EnterKnown(n: NodeId)
      requires n in nodes && ValidBut({n}) && MayEnter(n, Known)
      modifies this`nodes, this`timers, this`inbox, this`nextPing, this`stale, this`live, this`answered, tab
      ensures Valid() && nodes.Keys == old(nodes).Keys && nodes[n].state == Known && Moves(old(nodes), nodes, n)
      ensures live == old(live) && inbox == old(inbox) && answered == old(answered) && old(timers) <= timers
      ensures TableEntered(old(tab.buckets), tab.buckets, tab.distance(n), n, tab.self, Known)
      ensures nodes[n] == QueryStarted(old(nodes)[n].(state := Known, queryTimeouts := 0))
      ensures (n, PongTimeout) in timers <==> (n, PongTimeout) in old(timers)
      ensures |old(tab.buckets)| == N_BUCKETS && IsContested(old(nodes), nodes, LastOfFull(old(tab.buckets)[tab.distance(n)], n, tab.self))
      decreases 2, 0
    {
      hide Placed, Tracked, Numbered, Balanced, Identified, Added, OkBut, NodeOk, IsContested, TableEntered, LastOfFull, Table.Valid;
      ghost var buckets := tab.buckets;
      TableSize();
      SetKnown(n);
      StartNextQuery(n);
      var last := tab.Add(n);
      TableSize();
      KnownEntered(buckets, tab.buckets, tab.distance(n), n, tab.self, last);
      ghost var before := nodes;
      Contest(n, last);
      OthersContested(old(nodes), before, nodes, n, last);
      MovesCompose(old(nodes), before, nodes, n);
    }

    method SetKnown(n: NodeId)
      requires n in nodes && ValidBut({n}) && MayEnter(n, Known)
      modifies this`nodes
      ensures Valid() && nodes == old(nodes)[n := old(nodes)[n].(state := Known, queryTimeouts := 0)]
    {
      hide Placed, Tracked, Numbered, Balanced, Identified, Table.Valid;
      SetGuts(n, nodes[n].(state := Known, queryTimeouts := 0));
    }

    /** The last node of a full bucket is contested if it is known. */
    method Contest(n: NodeId, last: Option<NodeId>)
      requires Valid() && n in nodes && (last.Some? ==> last.value in nodes && last.value != n)
      modifies this`nodes, this`timers, this`inbox, this`nextPing, this`stale, this`live, this`answered, tab
      ensures Valid() && nodes.Keys == old(nodes).Keys && nodes[n] == old(nodes)[n] && Moves(old(nodes), nodes, n)
      ensures live == old(live) && inbox == old(inbox) && answered == old(answered) && old(timers) <= timers
      ensures tab.buckets == old(tab.buckets) && IsContested(old(nodes), nodes, last)
      ensures (n, PongTimeout) in timers <==> (n, PongTimeout) in old(timers)
      decreases 1, 2
    {
      hide Placed, Tracked, Numbered, Balanced, Identified, Table.Valid;
      if last.Some? && nodes[last.value].state.Known? {
        TableSize();
        Transition(last.value, Contested);
      }
    }

    /** Starts the first deferred query of `n` if it can be started. */
    method StartNextQuery(n: NodeId)
      requires n in nodes && Valid()
      modifies this`nodes, this`timers, this`inbox, this`nextPing, this`stale, this`live, this`answered, tab
      ensures Valid() && nodes.Keys == old(nodes).Keys && Moves(old(nodes), nodes, n)
      ensures live == old(live) && inbox == old(inbox) && answered == old(answered)
      ensures !old(nodes)[n].state.Unknown? ==>
                && nodes == old(nodes)[n := QueryStarted(old(nodes)[n])] && tab.buckets == old(tab.buckets)
                && timers == (if nodes == old(nodes) then old(timers) else old(timers) + {(n, NeighboursTimeout)})
      ensures old(timers) <= timers
      decreases 1, 1
    {
      hide Placed, Tracked, Numbered, Balanced, Identified, Table.Valid;
      if nodes[n].deferred == [] {
        return;
      }
      FirstDeferredHere(nodes, live, n);
      var q := nodes[n].deferred[0];
      var started := Start(n, q);
      if started {
        var g := nodes[n].(deferred := nodes[n].deferred[1..]);
        DeferredStarted(old(nodes), live, n, g);
        GutsTracked(nodes, timers, tab.self, stale, n, g);
        GutsNumbered(nodes, nextPing, echoed, n, g);
        assert nodes[n := g] == old(nodes)[n := g];
        nodes := nodes[n := g];
      }
    }

    /** Sends `q` to `n` if it can be queried and is not busy; an unknown node is verified first. */
    method Start(n: NodeId, q: Query) returns (started: bool)
      requires n in nodes && Valid() && q.remote == Peer(n)
      modifies this`nodes, this`timers, this`inbox, this`nextPing, this`stale, this`live, this`answered, tab
      ensures started <==> old(nodes)[n].state.CanQuery() && old(nodes)[n].pending.None?
      ensures live == old(live) && inbox == old(inbox) && answered == old(answered) && old(timers) <= timers
      ensures tab.Valid() && tab.ids == nodes.Keys && Balanced(live, inbox, outstanding) && Identified(live, answered, submitted)
      ensures Tracked(nodes, timers, tab.self, stale) && Numbered(nodes, nextPing, echoed)
      ensures OkBut(nodes, timers, tab.self, ponged, {}) && nodes.Keys == old(nodes).Keys
      ensures started ==> nodes == old(nodes)[n := old(nodes)[n].(pending := Some(q))]
      ensures !started ==> Valid() && Moves(old(nodes), nodes, n)
      ensures !started ==> nodes[n].state == if old(nodes)[n].state.Unknown? then VerifyInit else old(nodes)[n].state
      ensures !old(nodes)[n].state.Unknown? && !started ==> nodes == old(nodes) && timers == old(timers)
      ensures started ==> timers == old(timers) + {(n, NeighboursTimeout)}
      ensures !started ==> nodes[n].deferred == old(nodes)[n].deferred && nodes[n].pending == old(nodes)[n].pending
      ensures !old(nodes)[n].state.Unknown? ==> tab.buckets == old(tab.buckets)
      decreases 1, 0
    {
      hide Placed, Tracked, Numbered, Balanced, Identified, Table.Valid;
      var g := nodes[n];
      if g.state.CanQuery() && g.pending.None? {
        GutsTracked(nodes, timers, tab.self, stale, n, g.(pending := Some(q)));
        GutsNumbered(nodes, nextPing, echoed, n, g.(pending := Some(q)));
        FiredTracked(nodes[n := g.(pending := Some(q))], timers, tab.self, stale, n, NeighboursTimeout);
        timers := timers + {(n, NeighboursTimeout)};
        nodes := nodes[n := g.(pending := Some(q))];
        return true;
      }
      if g.state.Unknown? {
        Transition(n, VerifyInit);
      }
      started := false;
    }

    method Intern(n: NodeId)
      requires Valid()
      modifies this`nodes, tab`ids
      ensures Valid() && nodes == if n in old(nodes) then old(nodes) else old(nodes)[n := FRESH]
    {
      hide Placed, Tracked, Numbered, Balanced, Identified, Table.Valid;
      if n !in nodes {
        NodeInterned(nodes, live, n);
        GutsTracked(nodes, timers, tab.self, stale, n, FRESH);
        GutsNumbered(nodes, nextPing, echoed, n, FRESH);
        tab.Allow(n);
        nodes := nodes[n := FRESH];
      }
    }

    /** The loop's read case: the sender is interned, then the packet handled. */
    method Receive(n: NodeId, pkt: Packet)
      requires Valid()
      modifies this, tab
      ensures Valid() && n in nodes && Progress(old(nodes), nodes) && submitted == old(submitted) && live <= old(live)
      ensures outstanding == old(outstanding)
      // only a pong that echoes the ping on record counts as an answer
      ensures ponged == old(ponged) + if n in old(nodes) && pkt.PongPacket? && pkt.echo.Some? && pkt.echo == old(nodes)[n].pingEcho
                                      then {n} else {}
      ensures echoed == old(echoed) + if n in old(nodes) then Answered(old(nodes)[n], pkt) else {}
      ensures n in old(nodes) && Unasked(old(nodes)[n], pkt) ==> nodes == old(nodes) && timers == old(timers) && inbox == old(inbox)
      ensures n in old(nodes) && pkt.PongPacket? && pkt.echo == old(nodes)[n].pingEcho ==>
                Taken(old(nodes)[n], nodes[n], n, old(timers), timers)
      ensures var g := if n in old(nodes) then old(nodes)[n] else FRESH;
              && nodes[n].state == After(g, pkt) && Moves(old(nodes), nodes, n) && Queue(nodes[n]) == QueueAfter(g, pkt)
              && (pkt.QueryPacket? ==> nodes[n] == g && timers == old(timers))
              && (pkt.PingPacket? && g.state.Unknown? ==>
                  timers == if g.pingEcho.Some? || n == tab.self then old(timers) else old(timers) + {(n, PongTimeout)})
              && (pkt.TopicNodesPacket? && pkt.timedOut && g.state.CanQuery() ==> Failed(g, nodes[n], old(timers), timers))
    {
      hide Placed, Tracked, Numbered, Balanced, Identified, Moves, Progress, Failed, Table.Valid;
      Intern(n);
      ghost var before := nodes;
      Interned(old(nodes), before, n);
      HandlePacket(n, pkt);
      ProgressComposes(old(nodes), before, nodes);
      MovesCompose(old(nodes), before, nodes, n);
      InProgress(before, nodes, n);
    }

    /** The ping that a finished topic lookup sends to a node in whatever state it is. */
    method PingForTicket(n: NodeId)
      requires Valid() && n in nodes
      modifies this`nodes, this`timers, this`nextPing, this`stale
      ensures Valid() && Progress(old(nodes), nodes)
      ensures timers == if old(nodes)[n].pingEcho.Some? || n == tab.self then old(timers) else old(timers) + {(n, PongTimeout)}
      ensures nodes == if old(nodes)[n].pingEcho.Some? || n == tab.self then old(nodes)
                       else old(nodes)[n := old(nodes)[n].(pingEcho := Some(old(nextPing)))]
      ensures Moves(old(nodes), nodes, n)
      ensures stale == if old(nodes)[n].pingEcho.Some? || n == tab.self then old(stale) else old(stale) - {n}
    {
      hide Placed, Tracked, Numbered, Balanced, Identified, Progress, Table.Valid;
      Ping(n);
      Pinged(old(nodes), nodes, n);
    }

    /** A packet from `n`, which is interned by now. */
    method HandlePacket(n: NodeId, pkt: Packet)
      requires Valid() && n in nodes
      modifies this, tab
      ensures Valid() && Progress(old(nodes), nodes)
      ensures submitted == old(submitted) && outstanding == old(outstanding) && live <= old(live)
      ensures ponged == old(ponged) + if pkt.PongPacket? && pkt.echo.Some? && pkt.echo == old(nodes)[n].pingEcho then {n} else {}
      ensures echoed == old(echoed) + Answered(old(nodes)[n], pkt)
      ensures Unasked(old(nodes)[n], pkt) ==> nodes == old(nodes) && timers == old(timers) && inbox == old(inbox)
      ensures pkt.PongPacket? && pkt.echo == old(nodes)[n].pingEcho ==> n in nodes && Taken(old(nodes)[n], nodes[n], n, old(timers), timers)
      ensures n in nodes && nodes[n].state == After(old(nodes)[n], pkt)
      ensures Moves(old(nodes), nodes, n) && Queue(nodes[n]) == QueueAfter(old(nodes)[n], pkt)
      ensures pkt.QueryPacket? ==> nodes == old(nodes) && timers == old(timers)
      ensures pkt.PingPacket? && old(nodes)[n].state.Unknown? ==>
                timers == if old(nodes)[n].pingEcho.Some? || n == tab.self then old(timers) else old(timers) + {(n, PongTimeout)}
      ensures pkt.TopicNodesPacket? && pkt.timedOut && old(nodes)[n].state.CanQuery() ==>
                Failed(old(nodes)[n], nodes[n], old(timers), timers)
    {
      hide Placed, Tracked, Numbered, Balanced, Identified, Table.Valid, Moves, Progress;
      match pkt
      case PingPacket => HandlePing(n);
      case PongPacket(echo) => HandlePong(n, echo);
      case NeighboursPacket(neighbours) => HandleNeighbours(n, neighbours);
      case TopicNodesPacket(timedOut) => HandleTopicNodes(n, timedOut);
      case QueryPacket => NoMove(nodes);
    }

    /** A transition of `n` as part of handling an event that began with `before`. */
    method Shift(n: NodeId, next: State, ghost before: Nodes)
      requires n in nodes && ValidBut({n}) && MayEnter(n, next)
      requires nodes[n].state == next ==> NodeOk(nodes[n], n, timers, tab.self, ponged)
      requires Progress(before, nodes) && (nodes[n].state.CanQuery() ==> next.CanQuery())
      modifies this`nodes, this`timers, this`inbox, this`nextPing, this`stale, this`live, this`answered, tab
      ensures Valid() && Progress(before, nodes) && live <= old(live) && n in nodes && nodes[n].state == next
      ensures Moves(old(nodes), nodes, n) && Queue(nodes[n]) == QueueMoved(old(nodes)[n], next)
      ensures !next.Unknown? ==> live == old(live)
      ensures !next.Known? && !next.Unknown? ==> tab.buckets == old(tab.buckets)
      ensures next.VerifyWait? ==> timers == old(timers)
      ensures next.VerifyWait? || next.Unknown? || next.Unresponsive? ==> stale == old(stale)
      ensures !next.Unknown? && !next.VerifyInit? && !next.Contested? ==>
                && nodes[n].pingEcho == old(nodes)[n].pingEcho
                && ((n, PongTimeout) in timers <==> (n, PongTimeout) in old(timers))
    {
      hide Placed, Tracked, Numbered, Balanced, Identified, Moves, Progress, OkBut, NodeOk, IsContested, TableEntered, Table.Valid;
      ghost var buckets := tab.buckets;
      Transition(n, next);
      SameTable(buckets, tab.buckets, tab.distance(n), n, tab.self, next);
      MovesProgress(old(nodes), nodes, n);
      ProgressComposes(before, old(nodes), nodes);
    }

    method HandlePing(n: NodeId)
      requires Valid() && n in nodes
      modifies this`nodes, this`timers, this`inbox, this`nextPing, this`stale, this`live, this`answered, tab
      ensures Valid() && Progress(old(nodes), nodes) && live <= old(live)
      ensures n in nodes && nodes[n].state == old(nodes)[n].state.AfterPing()
      ensures Moves(old(nodes), nodes, n) && Queue(nodes[n]) == QueueMoved(old(nodes)[n], nodes[n].state)
      ensures nodes[n].pingEcho == if old(nodes)[n].state.Unknown? && old(nodes)[n].pingEcho.None? && n != tab.self
                                   then Some(old(nextPing)) else old(nodes)[n].pingEcho
      ensures old(nodes)[n].state.Unknown? ==>
                timers == if old(nodes)[n].pingEcho.Some? || n == tab.self then old(timers) else old(timers) + {(n, PongTimeout)}
    {
      hide Placed, Tracked, Numbered, Balanced, Identified, Moves, Progress, Table.Valid;
      NoMove(nodes);
      match nodes[n].state
      case Unknown =>
        Ping(n);
        Pinged(old(nodes), nodes, n);
        ghost var before := nodes;
        Shift(n, VerifyWait, old(nodes));
        MovesCompose(old(nodes), before, nodes, n);
      case VerifyInit => Shift(n, VerifyWait, old(nodes));
      case Unresponsive => Shift(n, Known, old(nodes));
      case _ =>
    }

    /** The ping on record, if there is one, is answered and taken off the record. */
    method TakeEcho(n: NodeId)
      requires Valid() && n in nodes
      modifies this`nodes, this`ponged, this`echoed
      ensures ValidBut({n}) && nodes == old(nodes)[n := old(nodes)[n].(pingEcho := None)]
      ensures ponged == old(ponged) + if old(nodes)[n].pingEcho.Some? then {n} else {}
      ensures echoed == old(echoed) + if old(nodes)[n].pingEcho.Some? then {old(nodes)[n].pingEcho.value} else {}
      ensures !nodes[n].state.Unknown? ==> MayEnter(n, nodes[n].state.AfterPong())
      ensures !nodes[n].state.AwaitsPong() ==> Valid() && NodeOk(nodes[n], n, timers, tab.self, ponged)
    {
      hide Placed, Tracked, Numbered, Balanced, Identified, Table.Valid;
      var g := nodes[n].(pingEcho := None);
      GutsChanged(nodes, live, n, g);
      GutsTracked(nodes, timers, tab.self, stale, n, g);
      EchoNumbered(nodes, nextPing, echoed, n, g);
      if nodes[n].pingEcho.Some? {
        ponged := ponged + {n};
      }
      echoed := echoed + if nodes[n].pingEcho.Some? then {nodes[n].pingEcho.value} else {};
      nodes := nodes[n := g];
    }

    /**
     A pong that does not echo the ping on record changes nothing. One that does takes that ping off the
     record; unless the node is unknown, or waits for a ping, its timeout is disarmed and the node moves on.
     */
    method HandlePong(n: NodeId, echo: Option<nat>)
      requires Valid() && n in nodes
      modifies this`nodes, this`timers, this`inbox, this`nextPing, this`stale, this`live, this`answered, this`ponged, this`echoed, tab
      ensures Valid() && Progress(old(nodes), nodes) && live <= old(live)
      ensures ponged == old(ponged) + if echo.Some? && echo == old(nodes)[n].pingEcho then {n} else {}
      ensures echoed == old(echoed) + Answered(old(nodes)[n], PongPacket(echo))
      ensures n in nodes && (echo != old(nodes)[n].pingEcho ==> nodes == old(nodes) && timers == old(timers) && inbox == old(inbox))
      ensures echo == old(nodes)[n].pingEcho ==>
                nodes[n].state == old(nodes)[n].state.AfterPong() && Taken(old(nodes)[n], nodes[n], n, old(timers), timers)
      ensures Moves(old(nodes), nodes, n) && Queue(nodes[n]) == QueueMoved(old(nodes)[n], nodes[n].state)
    {
      hide Placed, Tracked, Numbered, Balanced, Identified, Moves, Progress, Table.Valid, MayEnter, OkBut, NodeOk;
      NoMove(nodes);
      if echo != nodes[n].pingEcho {
        return;
      }
      var state := nodes[n].state;
      TakeEcho(n);
      Pinged(old(nodes), nodes, n);
      if !state.Unknown? && !state.RemoteVerifyWait? {
        KnownPong(n, old(nodes));
      }
    }

    /** `handleKnownPong`, and where the node goes from there; its answer is noted by now. */
    method KnownPong(n: NodeId, ghost before: Nodes)
      requires n in nodes && ValidBut({n}) && nodes[n].pingEcho.None? && Progress(before, nodes) && Moves(before, nodes, n)
      requires !nodes[n].state.Unknown? && !nodes[n].state.RemoteVerifyWait? && MayEnter(n, nodes[n].state.AfterPong())
      modifies this`nodes, this`timers, this`inbox, this`nextPing, this`stale, this`live, this`answered, tab
      ensures Valid() && Progress(before, nodes) && live == old(live) && Moves(before, nodes, n) && n in nodes
      ensures nodes[n].state == old(nodes)[n].state.AfterPong() && nodes[n].pingEcho == None && (n, PongTimeout) !in timers
      ensures Queue(nodes[n]) == QueueMoved(old(nodes)[n], nodes[n].state)
    {
      hide Placed, Tracked, Numbered, Balanced, Identified, Moves, Progress, Table.Valid;
      FiredTracked(nodes, timers, tab.self, stale, n, PongTimeout);
      timers := timers - {(n, PongTimeout)};
      ghost var mid := nodes;
      Shift(n, if nodes[n].state.VerifyInit? then RemoteVerifyWait else Known, before);
      MovesCompose(before, mid, nodes, n);
    }

    /**
     The reply to the pending query, if there is one: every acceptable node it names is known of afterwards,
     and verified if it was not before; the query is answered, and the next one, if any, takes its place.
     */
    method HandleNeighbours(n: NodeId, neighbours: seq<Neighbour>)
      requires Valid() && n in nodes
      modifies this`nodes, this`timers, this`inbox, this`nextPing, this`stale, this`live, this`answered, tab
      ensures Valid() && Progress(old(nodes), nodes) && live <= old(live)
      ensures n in nodes && nodes[n].state == old(nodes)[n].state
      ensures var acts := old(nodes)[n].state.CanQuery() && old(nodes)[n].pending.Some?;
              if !acts then nodes == old(nodes) && live == old(live) && timers == old(timers) && inbox == old(inbox)
              else
                && live == old(live) - {old(nodes)[n].pending.value}
                && inbox == Bump(old(inbox), old(nodes)[n].pending.value.chan)
                && nodes[n] == QueryStarted(old(nodes)[n].(pending := None))
                && ((n, NeighboursTimeout) in timers <==> nodes[n].pending.Some?)
                && NamedVerified(old(nodes), nodes, n, neighbours, tab.self)
      ensures Moves(old(nodes), nodes, n)
    {
      hide Placed, Tracked, Numbered, Balanced, Identified, Moves, Progress, Table.Valid, NamedVerified, QueryStarted, Bump;
      NoMove(nodes);
      if !nodes[n].state.CanQuery() || nodes[n].pending.None? {
        return;
      }
      NoneNamed(nodes, n, neighbours, tab.self);
      for i := 0 to |neighbours|
        invariant n in nodes && Valid() && live == old(live) && inbox == old(inbox) && Moves(old(nodes), nodes, n)
        invariant nodes[n] == old(nodes)[n]
        invariant NamedVerified(old(nodes), nodes, n, neighbours[..i], tab.self)
      {
        ghost var before := nodes;
        VerifyNeighbour(n, neighbours[i]);
        MovesCompose(old(nodes), before, nodes, n);
        OneMoreNamed(old(nodes), before, nodes, n, neighbours, i, tab.self);
      }
      assert neighbours[..|neighbours|] == neighbours;
      ghost var mid := nodes;
      AnswerAndGoOn(n);
      Pinged(mid, nodes, n);
      MovesProgress(old(nodes), mid, n);
      ProgressComposes(old(nodes), mid, nodes);
      MovesCompose(old(nodes), mid, nodes, n);
      NamedBesides(old(nodes), mid, nodes, n, neighbours, tab.self);
    }

    /** The end of `handleNeighboursPacket`. */
    method AnswerAndGoOn(n: NodeId)
      requires Valid() && n in nodes && nodes[n].state.CanQuery() && nodes[n].pending.Some?
      modifies this`nodes, this`timers, this`inbox, this`nextPing, this`stale, this`live, this`answered, tab
      ensures Valid()
      ensures nodes == old(nodes)[n := QueryStarted(old(nodes)[n].(pending := None))] && nodes[n].state == old(nodes)[n].state
      ensures live == old(live) - {old(nodes)[n].pending.value} && inbox == Bump(old(inbox), old(nodes)[n].pending.value.chan)
      ensures (n, NeighboursTimeout) in timers <==> nodes[n].pending.Some?
    {
      hide Placed, Tracked, Numbered, Balanced, Identified, Moves, Progress, Table.Valid, Bump;
      // the source disarms the timeout before it looks at the neighbours; nothing in between depends on it
      FiredTracked(nodes, timers, tab.self, stale, n, NeighboursTimeout);
      timers := timers - {(n, NeighboursTimeout)};
      AnswerPending(n);
      StartNextQuery(n);
    }

    /** One node named in a neighbours reply from `n`. */
    method VerifyNeighbour(n: NodeId, nb: Neighbour)
      requires n in nodes && Valid() && !nodes[n].state.Unknown?
      modifies this`nodes, this`timers, this`inbox, this`nextPing, this`stale, this`live, this`answered, tab
      ensures n in nodes && Valid() && nodes[n] == old(nodes)[n] && live == old(live) && inbox == old(inbox) && Moves(old(nodes), nodes, n)
      ensures OneVerified(old(nodes), nodes, nb, tab.self)
    {
      hide Placed, Tracked, Numbered, Balanced, Identified, Table.Valid;
      if nb.id == tab.self || !nb.acceptable {
        return;
      }
      Intern(nb.id);
      if nodes[nb.id].state.Unknown? {
        Transition(nb.id, VerifyInit);
      }
    }

    /** Too many unanswered queries make a known node contested. */
    method CountTimeout(n: NodeId)
      requires Valid() && n in nodes
      modifies this`nodes, this`timers, this`inbox, this`nextPing, this`stale, this`live, this`answered, tab
      ensures Valid() && Progress(old(nodes), nodes) && live == old(live) && tab.buckets == old(tab.buckets)
      ensures n in nodes && nodes[n].state == old(nodes)[n].state.AfterFailure(old(nodes)[n].queryTimeouts)
      ensures Failed(old(nodes)[n], nodes[n], old(timers), timers) && timers <= old(timers) + {(n, PongTimeout)}
      ensures Moves(old(nodes), nodes, n) && Queue(nodes[n]) == Queue(old(nodes)[n])
    {
      hide Placed, Tracked, Numbered, Balanced, Identified, Moves, Progress, Table.Valid;
      SetGuts(n, nodes[n].(queryTimeouts := nodes[n].queryTimeouts + 1));
      Pinged(old(nodes), nodes, n);
      if nodes[n].queryTimeouts > MAX_FINDNODE_FAILURES && nodes[n].state.Known? {
        ghost var before, buckets := nodes, tab.buckets;
        TableSize();
        Transition(n, Contested);
        SameTable(buckets, tab.buckets, tab.distance(n), n, tab.self, Contested);
        MovesProgress(before, nodes, n);
        ProgressComposes(old(nodes), before, nodes);
        MovesCompose(old(nodes), before, nodes, n);
      }
    }

    method HandleTopicNodes(n: NodeId, timedOut: bool)
      requires Valid() && n in nodes
      modifies this`nodes, this`timers, this`inbox, this`nextPing, this`stale, this`live, this`answered, tab
      ensures Valid() && Progress(old(nodes), nodes) && live <= old(live)
      ensures n in nodes && nodes[n].state ==
                if old(nodes)[n].state.CanQuery() && timedOut then old(nodes)[n].state.AfterFailure(old(nodes)[n].queryTimeouts)
                else old(nodes)[n].state
      ensures old(nodes)[n].state.CanQuery() && timedOut ==> Failed(old(nodes)[n], nodes[n], old(timers), timers)
      ensures !(old(nodes)[n].state.CanQuery() && timedOut) ==> nodes == old(nodes) && timers == old(timers) && inbox == old(inbox)
      ensures Moves(old(nodes), nodes, n) && Queue(nodes[n]) == Queue(old(nodes)[n])
    {
      NoMove(nodes);
      if nodes[n].state.CanQuery() && timedOut {
        CountTimeout(n);
      }
    }

    /** A timer fires; one that was disarmed meanwhile is stale and ignored. */
    method HandleTimeout(n: NodeId, timer: Timer)
      requires Valid() && n in nodes
      modifies this`nodes, this`timers, this`inbox, this`nextPing, this`stale, this`live, this`answered, tab
      ensures Valid() && Progress(old(nodes), nodes) && live <= old(live)
      ensures (n, timer) !in old(timers) || old(nodes)[n].state.Unknown? ==>
                nodes == old(nodes) && timers == old(timers) - {(n, timer)}
      ensures n in nodes && nodes[n].state ==
                if (n, timer) in old(timers) then old(nodes)[n].state.AfterTimeout(timer, old(nodes)[n].queryTimeouts)
                else old(nodes)[n].state
      ensures Moves(old(nodes), nodes, n)
      ensures Queue(nodes[n]) == if (n, timer) in old(timers) then QueueTimedOut(old(nodes)[n], timer) else Queue(old(nodes)[n])
      // in any other state a pong timeout is ignored, and the ping stays on record
      ensures (n, timer) in old(timers) && timer.PongTimeout? && !old(nodes)[n].state.AwaitsPong() ==>
                nodes == old(nodes) && timers == old(timers) - {(n, timer)}
      ensures (n, timer) in old(timers) && timer.PongTimeout? ==> stale == old(stale) + {n}
      ensures (n, timer) in old(timers) && timer.PongTimeout? && old(nodes)[n].state.Contested? ==>
                |old(tab.buckets)| == N_BUCKETS && tab.buckets == Replaced(old(tab.buckets), tab.distance(n), n)
      ensures (n, timer) in old(timers) && timer.NeighboursTimeout? && old(nodes)[n].state.CanQuery() && old(nodes)[n].pending.Some? ==>
                live == old(live) - {old(nodes)[n].pending.value}
      // with the timer of the pending query gone, none is armed for the queries that still wait
      ensures timer.NeighboursTimeout? ==> (n, timer) !in timers
    {
      hide Placed, Tracked, Numbered, Balanced, Identified, Moves, Progress, Table.Valid;
      NoMove(nodes);
      if (n, timer) !in timers {
        return;
      }
      FiredTracked(nodes, timers, tab.self, stale, n, timer);
      timers := timers - {(n, timer)};
      if timer.PongTimeout? {
        stale := stale + {n};
      }
      match timer
      case PongTimeout =>
        PongTimedOut(n);
      case PingTimeout =>
        if nodes[n].state.RemoteVerifyWait? {
          Shift(n, Known, old(nodes));
        }
      case NeighboursTimeout =>
        QueryTimedOut(n);
    }

    method PongTimedOut(n: NodeId)
      requires Valid() && n in nodes
      modifies this`nodes, this`timers, this`inbox, this`nextPing, this`stale, this`live, this`answered, tab
      ensures Valid() && Progress(old(nodes), nodes) && live <= old(live)
      ensures n in nodes && nodes[n].state == old(nodes)[n].state.AfterTimeout(PongTimeout, 0)
      ensures old(nodes)[n].state.Contested? ==>
                |old(tab.buckets)| == N_BUCKETS && tab.buckets == Replaced(old(tab.buckets), tab.distance(n), n)
      ensures !old(nodes)[n].state.Verifying() && !old(nodes)[n].state.Contested? ==> nodes == old(nodes) && timers == old(timers)
      ensures Moves(old(nodes), nodes, n) && Queue(nodes[n]) == QueueTimedOut(old(nodes)[n], PongTimeout)
      ensures stale == old(stale)
    {
      hide Placed, Tracked, Numbered, Balanced, Identified, Moves, Progress, Table.Valid;
      NoMove(nodes);
      TableSize();
      if nodes[n].state.Verifying() {
        Shift(n, Unknown, old(nodes));
      } else if nodes[n].state.Contested? {
        tab.DeleteReplace(n);
        Shift(n, Unresponsive, old(nodes));
      }
    }

    method QueryTimedOut(n: NodeId)
      requires n in nodes && ValidBut({n}) && NodeOkUnlessPending(n)
      modifies this`nodes, this`timers, this`inbox, this`nextPing, this`stale, this`live, this`answered, tab
      ensures Valid() && Progress(old(nodes), nodes) && live <= old(live)
      ensures n in nodes && nodes[n].state == old(nodes)[n].state.AfterTimeout(NeighboursTimeout, old(nodes)[n].queryTimeouts)
      ensures old(nodes)[n].state.CanQuery() && old(nodes)[n].pending.Some? ==> live == old(live) - {old(nodes)[n].pending.value}
      ensures !old(nodes)[n].state.CanQuery() ==> nodes == old(nodes) && timers == old(timers)
      ensures timers <= old(timers) + {(n, PongTimeout)}
      ensures Moves(old(nodes), nodes, n) && Queue(nodes[n]) == QueueTimedOut(old(nodes)[n], NeighboursTimeout)
    {
      hide Placed, Tracked, Numbered, Balanced, Identified, Moves, Progress, Table.Valid;
      NoMove(nodes);
      if nodes[n].state.CanQuery() {
        if nodes[n].pending.Some? {
          AnswerPending(n);
          Pinged(old(nodes), nodes, n);
        }
        ghost var before := nodes;
        CountTimeout(n);
        ProgressComposes(old(nodes), before, nodes);
        MovesCompose(old(nodes), before, nodes, n);
      }
    }

    /** What is left of a node's invariant when its query's timeout has just fired. */
    ghost predicate NodeOkUnlessPending(n: NodeId)
      requires n in nodes
      reads this, tab
    {
      && (nodes[n].pending.Some? ==> nodes[n].state.CanQuery())
      && NodeOk(nodes[n].(pending := None), n, timers, tab.self, ponged)
    }

    /** A lookup below its limit of alpha submits a query. */
    method SubmitQuery(q: Query)
      requires Valid() && q.id !in submitted && At(outstanding, q.chan) < ALPHA
      requires q.remote.Peer? ==> q.remote.id in nodes
      modifies this`nodes, this`timers, this`inbox, this`outstanding, this`nextPing, this`stale,
               this`live, this`answered, this`submitted, tab
      ensures Valid() && Progress(old(nodes), nodes)
      ensures submitted == old(submitted) + {q.id} && outstanding == Bump(old(outstanding), q.chan)
      ensures q.id in answered <==> q.remote.Local?
      ensures q in live <==> q.remote.Peer?
      ensures q.remote.Peer? ==> Joined(old(nodes)[q.remote.id], nodes[q.remote.id], q) && Moves(old(nodes), nodes, q.remote.id)
      ensures q.remote.Peer? ==> Enqueued(old(nodes)[q.remote.id].state, nodes[q.remote.id].state)
      ensures q.remote.Local? ==> nodes == old(nodes)
    {
      hide Placed, Tracked, Numbered, Balanced, Identified, NodeOk, Table.Valid, Bump, Deferring;
      NewIdentity(live, answered, submitted, q);
      match q.remote {
      case Local =>
        LocalBalanced(live, inbox, outstanding, q.chan);
        inbox, answered := Bump(inbox, q.chan), answered + {q.id};
      case Peer(n) =>
        SubmitBalanced(live, inbox, outstanding, q);
        Enqueue(n, q);
        live := live + {q};
      }
      submitted, outstanding := submitted + {q.id}, Bump(outstanding, q.chan);
    }

    /** A query goes to its node: it starts, or joins the deferred ones. */
    method Enqueue(n: NodeId, q: Query)
      requires n in nodes && Valid() && q.remote == Peer(n) && q !in live
      modifies this`nodes, this`timers, this`inbox, this`nextPing, this`stale, this`live, this`answered, tab
      ensures live == old(live) && inbox == old(inbox) && answered == old(answered)
      ensures tab.Valid() && tab.ids == nodes.Keys && Placed(nodes, live + {q}) && Tracked(nodes, timers, tab.self, stale)
      ensures Numbered(nodes, nextPing, echoed)
      ensures OkBut(nodes, timers, tab.self, ponged, {}) && Progress(old(nodes), nodes)
      ensures Joined(old(nodes)[n], nodes[n], q) && Moves(old(nodes), nodes, n) && Enqueued(old(nodes)[n].state, nodes[n].state)
    {
      hide Placed, Tracked, Numbered, Balanced, Identified, NodeOk, Table.Valid;
      ghost var before := nodes;
      var started := Start(n, q);
      if started {
        NewStarted(before, live, n, nodes[n], q);
      } else {
        Deferred(nodes, live, n, q, timers, tab.self, ponged);
        GutsTracked(nodes, timers, tab.self, stale, n, Deferring(nodes[n], q));
        GutsNumbered(nodes, nextPing, echoed, n, Deferring(nodes[n], q));
        nodes := nodes[n := Deferring(nodes[n], q)];
      }
    }

    /** A lookup takes a reply off its channel. */
    method ReceiveReply(chan: nat)
      requires Valid() && At(inbox, chan) > 0
      modifies this`inbox, this`outstanding
      ensures Valid() && At(inbox, chan) == old(At(inbox, chan)) - 1 && At(outstanding, chan) == old(At(outstanding, chan)) - 1
    {
      hide Placed, Tracked, Numbered, Identified, OkBut, Balanced, Table.Valid;
      ReceiveBalanced(live, inbox, outstanding, chan);
      inbox, outstanding := inbox[chan := At(inbox, chan) - 1], outstanding[chan := At(outstanding, chan) - 1];
    }

    /** A seed node of a refresh is verified if unknown, and tabled so that lookups have a start. */
    method AddSeed(n: NodeId)
      requires Valid()
      modifies this`nodes, this`timers, this`inbox, this`nextPing, this`stale, this`live, this`answered, tab
      ensures Valid() && Progress(old(nodes), nodes) && live == old(live) && n in nodes && !nodes[n].state.Unknown?
      ensures Moves(old(nodes), nodes, n) && (n in old(nodes) ==> MovesOne(old(nodes)[n], nodes[n]))
      ensures var g := if n in old(nodes) then old(nodes)[n] else FRESH;
              g.state.Unknown? ==>
                && nodes[n].state.VerifyInit?
                && timers == if g.pingEcho.Some? || n == tab.self then old(timers) else old(timers) + {(n, PongTimeout)}
      ensures TableEntered(old(tab.buckets), tab.buckets, tab.distance(n), n, tab.self, Known)
    {
      hide Placed, Tracked, Numbered, Balanced, Identified, Added, Moves, MovesOne, Progress, Table.Valid;
      TableSize();
      VerifySeed(n);
      var _ := tab.Add(n);
      TableSize();
    }

    /** The first half of that: an unknown node is known of afterwards, and being verified. */
    method VerifySeed(n: NodeId)
      requires Valid()
      modifies this`nodes, this`timers, this`inbox, this`nextPing, this`stale, this`live, this`answered, tab
      ensures Valid() && Progress(old(nodes), nodes) && live == old(live) && n in nodes && !nodes[n].state.Unknown?
      ensures Moves(old(nodes), nodes, n) && (n in old(nodes) ==> MovesOne(old(nodes)[n], nodes[n])) && tab.buckets == old(tab.buckets)
      ensures var g := if n in old(nodes) then old(nodes)[n] else FRESH;
              g.state.Unknown? ==>
                && nodes[n].state.VerifyInit?
                && timers == if g.pingEcho.Some? || n == tab.self then old(timers) else old(timers) + {(n, PongTimeout)}
    {
      hide Placed, Tracked, Numbered, Balanced, Identified, Moves, Progress, Table.Valid;
      TableSize();
      NoMove(nodes);
      Intern(n);
      ghost var before, buckets := nodes, tab.buckets;
      Interned(old(nodes), before, n);
      if nodes[n].state.Unknown? {
        Transition(n, VerifyInit);
        SameTable(buckets, tab.buckets, tab.distance(n), n, tab.self, VerifyInit);
      }
      NoMove(before);
      MovesProgress(before, nodes, n);
      ProgressComposes(old(nodes), before, nodes);
      MovesCompose(old(nodes), before, nodes, n);
    }

    /**
     When a node that is being verified or contested will be given up: its pong timeout is armed exactly
     if it is not our own identity and no timeout has fired since the ping that is on record for it.
     Entering one of these states sends no new ping while an older one is on record.
     */
    lemma AwaitedPongIsTimed(n: NodeId)
      requires Valid() && n in nodes && nodes[n].state.AwaitsPong()
      ensures (n, PongTimeout) in timers <==> n != tab.self && n !in stale
    {
      hide Placed, Balanced, Identified, Table.Valid;
    }
  }

  /**
   A node pinged for a ticket while still unknown keeps the ping on record when its timeout fires, so
   a later verification sends no ping and arms no timeout: it waits for a packet that may never come.
   */
  method VerificationWithoutTimeout(self: NodeId, n: NodeId, distance: NodeId -> Index, pinged: bool) returns (net: Network)
    requires n != self
    ensures fresh(net) && net.Valid() && n in net.nodes && net.timers == {}
    ensures net.nodes[n].state == if pinged then VerifyWait else VerifyInit
  {
    hide Placed, Tracked, Numbered, Balanced, Identified, Table.Valid, OkBut, Moves, Progress, Failed, TableEntered;
    net := new Network(self, distance);
    net.Receive(n, QueryPacket);
    net.PingForTicket(n);
    net.HandleTimeout(n, PongTimeout);
    if pinged {
      net.Receive(n, PingPacket);
    } else {
      net.AddSeed(n);
    }
  }

  /** A node that has pinged us and answered our ping is known. */
  method Acquainted(self: NodeId, n: NodeId, distance: NodeId -> Index) returns (net: Network)
    requires n != self
    ensures fresh(net) && fresh(net.tab) && net.Valid() && net.tab.self == self && n in net.nodes && net.nodes[n].state.Known?
    ensures net.nodes[n].pingEcho.None? && Queue(net.nodes[n]) == ([], None) && (n, PongTimeout) !in net.timers
    ensures net.submitted == {} && net.outstanding == map[]
  {
    hide Placed, Tracked, Numbered, Balanced, Identified, Table.Valid, OkBut, Moves, Progress, TableEntered, IsContested, LastOfFull,
      Replaced, NamedVerified;
    net := new Network(self, distance);
    net.Receive(n, PingPacket);
    net.Receive(n, PongPacket(net.nodes[n].pingEcho));
  }

  /**
   A verified node that is pinged for a ticket and does not answer keeps that ping on record, so it is
   later contested without a ping or a timeout, and stays in the table although it is gone.
   */
  method ContestWithoutTimeout(self: NodeId, n: NodeId, distance: NodeId -> Index) returns (net: Network)
    requires n != self
    ensures fresh(net) && net.Valid() && n in net.nodes && net.nodes[n].state == Contested
    ensures (n, PongTimeout) !in net.timers
  {
    hide Placed, Tracked, Numbered, Balanced, Identified, Table.Valid, OkBut, Moves, Progress, TableEntered,
      IsContested, LastOfFull, Replaced, NamedVerified;
    net := Acquainted(self, n, distance);
    net.PingForTicket(n);
    net.HandleTimeout(n, PongTimeout);
    while net.nodes[n].state.Known?
      invariant fresh(net) && fresh(net.tab) && net.Valid() && n in net.nodes && (net.nodes[n].state.Known? || net.nodes[n].state.Contested?)
      invariant net.nodes[n].pingEcho.Some? && (n, PongTimeout) !in net.timers
      decreases net.nodes[n].state.Known?, MAX_FINDNODE_FAILURES + 1 - net.nodes[n].queryTimeouts
    {
      net.Receive(n, TopicNodesPacket(true));
    }
  }

  // ---------------------------------------------------------------- whole runs

  /** What the loop is woken by. */
  datatype Event =
    | Packet(n: NodeId, pkt: Packet)
    | Expiry(n: NodeId, timer: Timer)
    | Submission(remote: Remote, chan: nat)
    | Reply(chan: nat)
    | Seed(n: NodeId)
    | TicketPing(n: NodeId)

  /** What decides whether an event can happen. */
  datatype Snapshot = Snapshot(nodes: Nodes, timers: set<(NodeId, Timer)>, outstanding: map<nat, nat>, inbox: map<nat, nat>)

  function Seen(net: Network): Snapshot
    reads net
  {
    Snapshot(net.nodes, net.timers, net.outstanding, net.inbox)
  }

  /** Whether an event can happen: the nodes it names are interned, and a lookup keeps to its limit of alpha. */
  predicate Enabled(s: Snapshot, e: Event) {
    match e
    case Packet(_, _) => true
    case Expiry(n, _) => n in s.nodes
    case Submission(remote, chan) => At(s.outstanding, chan) < ALPHA && (remote.Peer? ==> remote.id in s.nodes)
    case Reply(chan) => At(s.inbox, chan) > 0
    case Seed(_) => true
    case TicketPing(n) => n in s.nodes
  }

  // ---------------------------------------------------------------- queries that nobody sends

  /** The node could be queried and is free, and yet queries wait there. */
  predicate Stalled(g: Guts) {
    g.state.CanQuery() && g.pending.None? && g.deferred != []
  }

  /** The timeout of a query, which does not start the next one. */
  predicate Stalls(s: Snapshot, e: Event, m: NodeId) {
    && e == Expiry(m, NeighboursTimeout) && (m, NeighboursTimeout) in s.timers
    && m in s.nodes && s.nodes[m].state.CanQuery() && s.nodes[m].deferred != []
  }

  /** A new query, which is sent before those that wait, or an answer that makes the node known again. */
  predicate Restarts(s: Snapshot, e: Event, m: NodeId) {
    && m in s.nodes
    && match e
       case Submission(remote, _) => remote == Peer(m) && Enabled(s, e)
       case Packet(n, PingPacket) => n == m && s.nodes[m].state.Unresponsive?
       case Packet(n, PongPacket(echo)) => n == m && echo == s.nodes[m].pingEcho && !s.nodes[m].state.Known?
       case _ => false
  }

  ghost predicate StallsExactly(s: Snapshot, e: Event, after: Nodes) {
    forall m :: m in s.nodes ==>
      m in after && (Stalled(after[m]) <==> Stalls(s, e, m) || (Stalled(s.nodes[m]) && !Restarts(s, e, m)))
  }

  /** A pending query needs a node that can be queried. */
  ghost predicate PendingOk(nodes: Nodes) {
    forall m :: m in nodes && nodes[m].pending.Some? ==> nodes[m].state.CanQuery()
  }

  lemma StalledByPacket(s: Snapshot, n: NodeId, pkt: Packet, after: Nodes)
    requires PendingOk(s.nodes) && Moves(s.nodes, after, n)
    requires n in s.nodes ==> n in after && after[n].state == After(s.nodes[n], pkt) && Queue(after[n]) == QueueAfter(s.nodes[n], pkt)
    ensures StallsExactly(s, Packet(n, pkt), after)
  {
  }

  lemma StalledByExpiry(s: Snapshot, n: NodeId, timer: Timer, after: Nodes)
    requires PendingOk(s.nodes) && Moves(s.nodes, after, n) && n in s.nodes && n in after
    requires after[n].state == if (n, timer) in s.timers then s.nodes[n].state.AfterTimeout(timer, s.nodes[n].queryTimeouts) else s.nodes[n].state
    requires Queue(after[n]) == if (n, timer) in s.timers then QueueTimedOut(s.nodes[n], timer) else Queue(s.nodes[n])
    ensures StallsExactly(s, Expiry(n, timer), after)
  {
  }

  lemma StalledBySubmission(s: Snapshot, n: NodeId, chan: nat, q: Query, after: Nodes)
    requires PendingOk(s.nodes) && Moves(s.nodes, after, n) && n in s.nodes && n in after && Enabled(s, Submission(Peer(n), chan))
    requires Joined(s.nodes[n], after[n], q) && Enqueued(s.nodes[n].state, after[n].state)
    ensures StallsExactly(s, Submission(Peer(n), chan), after)
  {
  }

  lemma StalledAsBefore(s: Snapshot, e: Event, n: NodeId, after: Nodes)
    requires Moves(s.nodes, after, n) && (n in s.nodes ==> n in after && MovesOne(s.nodes[n], after[n]))
    requires e.Reply? || e.Seed? || e.TicketPing? || (e.Submission? && e.remote.Local?)
    ensures StallsExactly(s, e, after)
  {
  }

  /** The ping that an event answers. */
  function AnsweredBy(nodes: Nodes, e: Event): set<nat> {
    if e.Packet? && e.n in nodes then Answered(nodes[e.n], e.pkt) else {}
  }

  /** One event, whatever it is; a query that is submitted gets the number `id`. Only an echoing pong counts as an answer. */
  method Step(net: Network, e: Event, id: nat)
    requires net.Valid() && Enabled(Seen(net), e) && id !in net.submitted
    modifies net, net.tab
    ensures net.Valid() && Progress(old(net.nodes), net.nodes)
    ensures net.submitted == old(net.submitted) + if e.Submission? then {id} else {}
    ensures forall n :: n in net.ponged && n !in old(net.ponged) ==>
              Echoes(old(net.nodes), e, n)
    ensures net.echoed == old(net.echoed) + AnsweredBy(old(net.nodes), e)
    ensures e.Packet? && e.n in old(net.nodes) && Unasked(old(net.nodes)[e.n], e.pkt) ==> Seen(net) == old(Seen(net))
    // queries are left waiting at a free node by their predecessor's timeout, and until one of two things happens
    ensures StallsExactly(old(Seen(net)), e, net.nodes)
  {
    hide Placed, Tracked, Numbered, Balanced, Identified, OkBut, Table.Valid, Progress, Failed, Joined, TableEntered, StallsExactly, Moves,
      MovesOne, Enqueued, QueueAfter, QueueTimedOut, PendingOk, After, NamedVerified;
    ghost var s := Seen(net);
    PendingQueryable(net);
    match e
    case Packet(n, pkt) =>
      net.Receive(n, pkt);
      StalledByPacket(s, n, pkt, net.nodes);
    case Expiry(n, timer) =>
      net.HandleTimeout(n, timer);
      StalledByExpiry(s, n, timer, net.nodes);
    case Submission(remote, chan) =>
      NoMove(net.nodes);
      SubmitOne(net, s, Query(id, remote, chan));
    case Reply(chan) =>
      NoMove(net.nodes);
      StandStill(net.nodes);
      net.ReceiveReply(chan);
      StalledAsBefore(s, e, 0, net.nodes);
    case Seed(n) =>
      net.AddSeed(n);
      StalledAsBefore(s, e, n, net.nodes);
    case TicketPing(n) =>
      net.PingForTicket(n);
      PingedOnly(s.nodes, net.nodes, n);
      StalledAsBefore(s, e, n, net.nodes);
  }

  method SubmitOne(net: Network, ghost s: Snapshot, q: Query)
    requires net.Valid() && s == Seen(net) && Enabled(s, Submission(q.remote, q.chan)) && q.id !in net.submitted && PendingOk(net.nodes)
    modifies net, net.tab
    ensures net.Valid() && Progress(old(net.nodes), net.nodes) && net.submitted == old(net.submitted) + {q.id} && net.ponged == old(net.ponged)
    ensures net.echoed == old(net.echoed)
    ensures StallsExactly(s, Submission(q.remote, q.chan), net.nodes)
  {
    hide Placed, Tracked, Numbered, Balanced, Identified, OkBut, Table.Valid, Progress, Joined, StallsExactly, Moves, MovesOne, Enqueued, PendingOk;
    NoMove(net.nodes);
    StandStill(net.nodes);
    net.SubmitQuery(q);
    if q.remote.Peer? {
      InProgress(s.nodes, net.nodes, q.remote.id);
      StalledBySubmission(s, q.remote.id, q.chan, q, net.nodes);
    } else {
      StalledAsBefore(s, Submission(q.remote, q.chan), 0, net.nodes);
    }
  }

  lemma StandStill(nodes: Nodes)
    ensures forall n :: n in nodes ==> MovesOne(nodes[n], nodes[n])
  {
  }

  lemma PingedOnly(before: Nodes, after: Nodes, n: NodeId)
    requires n in before && n in after && after[n] == before[n].(pingEcho := after[n].pingEcho)
    requires before[n].pingEcho.Some? ==> after[n] == before[n]
    ensures MovesOne(before[n], after[n])
  {
  }

  lemma PendingQueryable(net: Network)
    requires net.Valid()
    ensures PendingOk(net.nodes)
  {
    hide Placed, Tracked, Numbered, Balanced, Identified, Table.Valid;
    forall m | m in net.nodes && net.nodes[m].pending.Some? ensures net.nodes[m].state.CanQuery() {
      assert NodeOk(net.nodes[m], m, net.timers, net.tab.self, net.ponged);
    }
  }

  /** The event is a pong from `n` that echoes the ping on record for it. */
  ghost predicate Echoes(nodes: Nodes, e: Event, n: NodeId) {
    n in nodes && nodes[n].pingEcho.Some? && e == Packet(n, PongPacket(nodes[n].pingEcho))
  }

  /** The queries submitted by a run, by their events. */
  ghost function Submitted(events: seq<Event>, trace: seq<Snapshot>, first: nat, n: nat): set<nat>
    requires n <= |events| && n <= |trace|
  {
    set i: nat | i < n && events[i].Submission? && Enabled(trace[i], events[i]) :: first + i
  }

  lemma OneMoreSubmitted(events: seq<Event>, trace: seq<Snapshot>, later: seq<Snapshot>, first: nat, n: nat)
    requires n < |events| && n < |trace| && trace <= later
    ensures Submitted(events, later, first, n + 1) ==
              Submitted(events, trace, first, n) + if events[n].Submission? && Enabled(trace[n], events[n]) then {first + n} else {}
  {
    assert forall i :: 0 <= i < |trace| ==> later[i] == trace[i];
  }

  ghost predicate AnsweredIn(events: seq<Event>, trace: seq<Snapshot>, n: NodeId) {
    exists i :: 0 <= i < |events| && i < |trace| && Echoes(trace[i].nodes, events[i], n)
  }

  /** A ping is answered once: whatever answered it in one event does nothing at all in a later one. */
  ghost predicate AnsweredOnce(events: seq<Event>, trace: seq<Snapshot>, n: nat) {
    forall i, j :: 0 <= i < j < n && j + 1 < |trace| && n <= |events| && Answering(trace[i], events[i]) && events[j] == events[i] ==>
      trace[j + 1] == trace[j]
  }

  /** The event is a pong that answers a ping on record. */
  predicate Answering(s: Snapshot, e: Event) {
    AnsweredBy(s.nodes, e) != {}
  }

  /** What was answered by one of the first `n` events stays so, and its node stays known of. */
  ghost predicate EchoesKept(events: seq<Event>, trace: seq<Snapshot>, n: nat, echoed: set<nat>) {
    && n < |trace| && n <= |events|
    && forall i :: 0 <= i < n && Answering(trace[i], events[i]) ==>
         AnsweredBy(trace[i].nodes, events[i]) <= echoed && events[i].n in trace[n].nodes
  }

  lemma NoneAnswered(events: seq<Event>, trace: seq<Snapshot>, echoed: set<nat>)
    requires |trace| == 1
    ensures AnsweredOnce(events, trace, 0) && EchoesKept(events, trace, 0, echoed)
  {
  }

  lemma StillKnownOf(before: Nodes, after: Nodes)
    requires Progress(before, after)
    ensures forall n :: n in before ==> n in after
  {
  }

  lemma NothingAnswered(s: Snapshot, e: Event)
    requires !Enabled(s, e)
    ensures AnsweredBy(s.nodes, e) == {}
  {
  }

  lemma OnRecordUnanswered(net: Network)
    requires net.Valid()
    ensures forall n :: n in net.nodes && net.nodes[n].pingEcho.Some? ==> net.nodes[n].pingEcho.value !in net.echoed
  {
    hide Placed, Tracked, Balanced, Identified, OkBut, Table.Valid;
  }

  lemma OneMoreAnswered(events: seq<Event>, trace: seq<Snapshot>, later: seq<Snapshot>, i: nat, echoed: set<nat>, echoed': set<nat>)
    requires i < |events| && |trace| == i + 1 && |later| == i + 2 && trace <= later
    requires AnsweredOnce(events, trace, i) && EchoesKept(events, trace, i, echoed)
    requires forall n :: n in trace[i].nodes ==> n in later[i + 1].nodes
    requires forall n :: n in trace[i].nodes && trace[i].nodes[n].pingEcho.Some? ==> trace[i].nodes[n].pingEcho.value !in echoed
    requires echoed + AnsweredBy(trace[i].nodes, events[i]) <= echoed'
    requires var e := events[i]; e.Packet? && e.n in trace[i].nodes && Unasked(trace[i].nodes[e.n], e.pkt) ==> later[i + 1] == trace[i]
    ensures AnsweredOnce(events, later, i + 1) && EchoesKept(events, later, i + 1, echoed')
  {
  }

  lemma StillAnswered(events: seq<Event>, trace: seq<Snapshot>, later: seq<Snapshot>, i: nat)
    requires i < |events| && i < |trace| && trace <= later
    ensures forall n :: AnsweredIn(events[..i], trace, n) || Echoes(trace[i].nodes, events[i], n) ==> AnsweredIn(events[..i + 1], later, n)
  {
    hide Echoes;
    forall n | AnsweredIn(events[..i], trace, n) ensures AnsweredIn(events[..i + 1], later, n) {
      var k :| 0 <= k < i && k < |trace| && Echoes(trace[k].nodes, events[..i][k], n);
      assert Echoes(later[k].nodes, events[..i + 1][k], n);
    }
    forall n | Echoes(trace[i].nodes, events[i], n) ensures AnsweredIn(events[..i + 1], later, n) {
      assert Echoes(later[i].nodes, events[..i + 1][i], n);
    }
  }

  /**
   Any run of the loop, from any state, with events that cannot happen left out; `trace` is what there was
   before each event, and in the end. No node that could be queried ever stops being one; nobody counts as
   having answered without a pong that echoed the ping then on record; and the queries submitted are those
   of the events, each answered or live, which is part of `Valid`.
   */
  method Run(net: Network, events: seq<Event>, first: nat) returns (ghost trace: seq<Snapshot>)
    requires net.Valid() && forall id :: id in net.submitted ==> id < first
    modifies net, net.tab
    ensures net.Valid() && Progress(old(net.nodes), net.nodes)
    ensures |trace| == |events| + 1 && trace[0] == old(Seen(net)) && trace[|events|] == Seen(net)
    ensures forall i :: 0 <= i < |events| && !Enabled(trace[i], events[i]) ==> trace[i + 1] == trace[i]
    ensures forall i :: 0 <= i < |events| && Enabled(trace[i], events[i]) ==> StallsExactly(trace[i], events[i], trace[i + 1].nodes)
    ensures forall n :: n in net.ponged && n !in old(net.ponged) ==> AnsweredIn(events, trace, n)
    ensures net.submitted == old(net.submitted) + Submitted(events, trace, first, |events|)
    ensures AnsweredOnce(events, trace, |events|)
  {
    hide Placed, Tracked, Numbered, Balanced, Identified, OkBut, Table.Valid, Progress, AnsweredIn, Echoes, Enabled, Submitted, StallsExactly,
      AnsweredOnce, EchoesKept, AnsweredBy;
    NoMove(net.nodes);
    NoneAnswered(events, [Seen(net)], net.echoed);
    trace := [Seen(net)];
    assert Submitted(events, trace, first, 0) == {} by { NoneSubmitted(events, trace, first); }
    for i := 0 to |events|
      invariant net.Valid() && Progress(old(net.nodes), net.nodes)
      invariant |trace| == i + 1 && trace[0] == old(Seen(net)) && trace[i] == Seen(net)
      invariant forall k :: 0 <= k < i && !Enabled(trace[k], events[k]) ==> trace[k + 1] == trace[k]
      invariant forall k :: 0 <= k < i && Enabled(trace[k], events[k]) ==> StallsExactly(trace[k], events[k], trace[k + 1].nodes)
      invariant forall id :: id in net.submitted ==> id < first + i
      invariant net.submitted == old(net.submitted) + Submitted(events, trace, first, i)
      invariant forall n :: n in net.ponged && n !in old(net.ponged) ==> AnsweredIn(events[..i], trace, n)
      invariant AnsweredOnce(events, trace, i) && EchoesKept(events, trace, i, net.echoed)
    {
      ghost var echoed := net.echoed;
      OnRecordUnanswered(net);
      if Enabled(Seen(net), events[i]) {
        ghost var before := net.nodes;
        Step(net, events[i], first + i);
        ProgressComposes(old(net.nodes), before, net.nodes);
        StillKnownOf(before, net.nodes);
      } else {
        NothingAnswered(Seen(net), events[i]);
      }
      OneMoreAnswered(events, trace, trace + [Seen(net)], i, echoed, net.echoed);
      StillAnswered(events, trace, trace + [Seen(net)], i);
      OneMoreSubmitted(events, trace, trace + [Seen(net)], first, i);
      trace := trace + [Seen(net)];
    }
    assert events[..|events|] == events;
  }

  lemma NoneSubmitted(events: seq<Event>, trace: seq<Snapshot>, first: nat)
    ensures Submitted(events, trace, first, 0) == {}
  {
  }

  /** A query of `m` timed out in event `j`, and nothing has restarted the others since. */
  ghost predicate StalledFrom(events: seq<Event>, trace: seq<Snapshot>, m: NodeId, j: nat, n: nat) {
    && j < n <= |events| && n < |trace| && Stalls(trace[j], events[j], m)
    && forall k :: j < k < n ==> !Restarts(trace[k], events[k], m)
  }

  lemma StalledFromStep(events: seq<Event>, trace: seq<Snapshot>, m: NodeId, j: nat, n: nat)
    requires n < |events| && n + 1 < |trace|
    ensures StalledFrom(events, trace, m, j, n + 1) <==>
              if j == n then Stalls(trace[n], events[n], m)
              else StalledFrom(events, trace, m, j, n) && !Restarts(trace[n], events[n], m)
  {
  }

  /** Over a run: queries wait at a free node exactly if a query there timed out and nothing has restarted the others since. */
  lemma {:induction false} StalledSince(events: seq<Event>, trace: seq<Snapshot>, m: NodeId, n: nat)
    requires n <= |events| && |trace| == |events| + 1
    requires forall i :: 0 <= i < |events| && !Enabled(trace[i], events[i]) ==> trace[i + 1] == trace[i]
    requires forall i :: 0 <= i < |events| && Enabled(trace[i], events[i]) ==> StallsExactly(trace[i], events[i], trace[i + 1].nodes)
    requires m in trace[0].nodes && !Stalled(trace[0].nodes[m])
    ensures m in trace[n].nodes && (Stalled(trace[n].nodes[m]) <==> exists j: nat :: StalledFrom(events, trace, m, j, n))
  {
    hide Stalls, Restarts, Stalled, StalledFrom;
    if n == 0 {
      NotBefore(events, trace, m);
    } else {
      var i := n - 1;
      StalledSince(events, trace, m, i);
      OnlyIfEnabled(trace[i], events[i], m);
      if Enabled(trace[i], events[i]) {
        assert StallsExactly(trace[i], events[i], trace[n].nodes);
      }
      forall j: nat ensures StalledFrom(events, trace, m, j, n) <==>
                              if j == i then Stalls(trace[i], events[i], m)
                              else StalledFrom(events, trace, m, j, i) && !Restarts(trace[i], events[i], m) {
        StalledFromStep(events, trace, m, j, i);
      }
      StalledFromEnds(events, trace, m, i);
      if Stalls(trace[i], events[i], m) {
        assert StalledFrom(events, trace, m, i, n);
      } else if j: nat :| StalledFrom(events, trace, m, j, i) && !Restarts(trace[i], events[i], m) {
        assert StalledFrom(events, trace, m, j, n);
      }
    }
  }

  lemma NotBefore(events: seq<Event>, trace: seq<Snapshot>, m: NodeId)
    ensures forall j: nat :: !StalledFrom(events, trace, m, j, 0)
  {
  }

  lemma StalledFromEnds(events: seq<Event>, trace: seq<Snapshot>, m: NodeId, n: nat)
    ensures forall j: nat :: StalledFrom(events, trace, m, j, n) ==> j < n
  {
  }

  lemma OnlyIfEnabled(s: Snapshot, e: Event, m: NodeId)
    ensures Stalls(s, e, m) || Restarts(s, e, m) ==> Enabled(s, e)
  {
  }

  /** A seed is verified from both sides, by its ping and its pong in this order, or by its pong and then no ping in time. */
  method VerifiedEitherWay(self: NodeId, n: NodeId, distance: NodeId -> Index, pinged: bool) returns (net: Network)
    requires n != self
    ensures fresh(net) && net.Valid() && n in net.nodes && net.nodes[n].state == Known && n in net.ponged
  {
    hide Placed, Tracked, Numbered, Balanced, Identified, Table.Valid, OkBut, Moves, Progress, TableEntered, NamedVerified,
      IsContested, LastOfFull, Replaced;
    net := new Network(self, distance);
    net.AddSeed(n);
    if pinged {
      net.Receive(n, PingPacket);
      AwaitedOnRecord(net, n);
      net.Receive(n, PongPacket(net.nodes[n].pingEcho));
    } else {
      AwaitedOnRecord(net, n);
      net.Receive(n, PongPacket(net.nodes[n].pingEcho));
      AwaitedOnRecord(net, n);
      net.HandleTimeout(n, PingTimeout);
    }
  }

  lemma AwaitedOnRecord(net: Network, n: NodeId)
    requires net.Valid() && n in net.nodes && n != net.tab.self
    ensures net.nodes[n].state.AwaitsPong() ==> net.nodes[n].pingEcho.Some?
    ensures net.nodes[n].state.RemoteVerifyWait? ==> (n, PingTimeout) in net.timers
  {
    hide Placed, Tracked, Numbered, Balanced, Identified, Table.Valid;
    assert NodeOk(net.nodes[n], n, net.timers, net.tab.self, net.ponged);
  }

  /** Two queries for one node, of which the first times out: the second waits with nothing to send it. */
  method QueryLeftWaiting(self: NodeId, n: NodeId, distance: NodeId -> Index) returns (net: Network)
    requires n != self
    ensures fresh(net) && net.Valid() && n in net.nodes && Stalled(net.nodes[n]) && (n, NeighboursTimeout) !in net.timers
    ensures net.nodes[n].deferred == [Query(1, Peer(n), 0)] && Query(1, Peer(n), 0) in net.live
  {
    hide Placed, Tracked, Numbered, Balanced, Identified, Table.Valid, OkBut, Moves, Progress, TableEntered, NamedVerified,
      IsContested, LastOfFull, Replaced;
    net := Acquainted(self, n, distance);
    ghost var before := net.nodes;
    net.SubmitQuery(Query(0, Peer(n), 0));
    InProgress(before, net.nodes, n);
    before := net.nodes;
    net.SubmitQuery(Query(1, Peer(n), 0));
    InProgress(before, net.nodes, n);
    PendingTimed(net, n);
    net.HandleTimeout(n, NeighboursTimeout);
  }

  lemma PendingTimed(net: Network, n: NodeId)
    requires net.Valid() && n in net.nodes && net.nodes[n].pending.Some?
    ensures (n, NeighboursTimeout) in net.timers
  {
    hide Placed, Tracked, Numbered, Balanced, Identified, Table.Valid;
    assert NodeOk(net.nodes[n], n, net.timers, net.tab.self, net.ponged);
  }
}
