/**
 The dial scheduler (`p2p/dial.go`). Each time the server asks for new tasks it picks static nodes to
 connect to, dynamic candidates up to a limit, and a discovery lookup when it runs out of candidates.
 The ghost fields record what the scheduler cannot see: the node each outstanding dial is for, and
 when each ID was last dialed.
 */
module Dial {
  import opened Collections
  import opened DialHistory

  const SECOND: Time := 1_000_000_000
  const DIAL_HISTORY_EXPIRATION := 30 * SECOND
  const FALLBACK_INTERVAL := 20 * SECOND

  datatype Flag = Dyn | Static | Inbound | Trusted
  datatype Node = Node(id: NodeId, ip: nat)
  datatype Conn = Conn(id: NodeId, flags: set<Flag>)
  type Peers = map<NodeId, Conn>

  datatype Task = Dial(flag: Flag, dest: Node) | Discover | WaitExpire(duration: int)

  // ---------------------------------------------------------------- outstanding tasks

  /** What the scheduler believes to be outstanding. */
  datatype Ledger = Ledger(dialing: map<NodeId, Flag>, dest: map<NodeId, Node>, lookup: bool, waiting: Option<int>)

  function Due(t: Task, l: Ledger): nat {
    match t
    case Dial(f, n) => if n.id in l.dialing && l.dialing[n.id] == f && n.id in l.dest && l.dest[n.id] == n then 1 else 0
    case Discover => if l.lookup then 1 else 0
    case WaitExpire(d) => if l.waiting == Some(d) then 1 else 0
  }

  /** The tasks outstanding are exactly those in the ledger, each once. */
  ghost predicate Exact(tasks: multiset<Task>, l: Ledger) {
    && l.dialing.Keys == l.dest.Keys
    && (forall id :: id in l.dest ==> l.dest[id].id == id && (l.dialing[id] == Dyn || l.dialing[id] == Static))
    && (forall t :: tasks[t] == Due(t, l))
  }

  lemma OneTaskPerId(tasks: multiset<Task>, l: Ledger, t: Task, u: Task)
    requires Exact(tasks, l) && t in tasks && u in tasks
    requires (t.Dial? && u.Dial? && t.dest.id == u.dest.id) || (!t.Dial? && !u.Dial? && t.Discover? == u.Discover?)
    ensures t == u && tasks[t] == 1
  {
    assert tasks[t] == Due(t, l) && tasks[u] == Due(u, l);
  }

  /** A dial of this ID is running or queued. */
  ghost predicate Underway(tasks: multiset<Task>, id: NodeId) {
    exists t :: t in tasks && t.Dial? && t.dest.id == id
  }

  lemma DialIsOutstanding(tasks: multiset<Task>, l: Ledger, id: NodeId)
    requires Exact(tasks, l)
    ensures id in l.dialing <==> Underway(tasks, id)
  {
    if id in l.dialing {
      var t := Dial(l.dialing[id], l.dest[id]);
      assert tasks[t] == Due(t, l);
    }
  }

  lemma ExactWithDial(tasks: multiset<Task>, l: Ledger, flag: Flag, n: Node)
    requires Exact(tasks, l) && n.id !in l.dialing && (flag == Dyn || flag == Static)
    ensures Exact(tasks + multiset{Dial(flag, n)}, l.(dialing := l.dialing[n.id := flag], dest := l.dest[n.id := n]))
  {
    var l' := l.(dialing := l.dialing[n.id := flag], dest := l.dest[n.id := n]);
    forall t ensures (tasks + multiset{Dial(flag, n)})[t] == Due(t, l') {
      assert tasks[t] == Due(t, l);
    }
  }

  lemma ExactWithLookup(tasks: multiset<Task>, l: Ledger)
    requires Exact(tasks, l) && !l.lookup
    ensures Exact(tasks + multiset{Discover}, l.(lookup := true))
  {
    forall t ensures (tasks + multiset{Discover})[t] == Due(t, l.(lookup := true)) {
      assert tasks[t] == Due(t, l);
    }
  }

  lemma ExactWithWait(l: Ledger, d: int)
    requires Exact(multiset{}, l)
    ensures Exact(multiset{WaitExpire(d)}, l.(waiting := Some(d)))
  {
    forall t ensures multiset{WaitExpire(d)}[t] == Due(t, l.(waiting := Some(d))) {
      var none: multiset<Task> := multiset{};
      assert none[t] == Due(t, l);
    }
  }

  function Settled(l: Ledger, t: Task): Ledger {
    match t
    case Dial(_, n) => l.(dialing := l.dialing - {n.id}, dest := l.dest - {n.id})
    case Discover => l.(lookup := false)
    case WaitExpire(_) => l.(waiting := None)
  }

  lemma ExactWithout(tasks: multiset<Task>, l: Ledger, t: Task)
    requires Exact(tasks, l) && t in tasks
    ensures Exact(tasks - multiset{t}, Settled(l, t))
  {
    forall u ensures (tasks - multiset{t})[u] == Due(u, Settled(l, t)) {
      assert tasks[u] == Due(u, l);
      assert tasks[t] == Due(t, l);
    }
  }

  // ---------------------------------------------------------------- resting IDs

  ghost predicate Rests(e: PastDial, last: map<NodeId, Time>, clock: Time) {
    e.id in last && e.exp == last[e.id] + DIAL_HISTORY_EXPIRATION && e.exp >= clock
  }

  /** The history is exactly the last dials that had not expired at `clock`; nothing in it is being dialed. */
  ghost predicate Resting(m: multiset<PastDial>, last: map<NodeId, Time>, dialing: map<NodeId, Flag>, clock: Time) {
    && (forall e: PastDial :: m[e] == if Rests(e, last, clock) then 1 else 0)
    && (forall id :: id in dialing && id in last ==> last[id] + DIAL_HISTORY_EXPIRATION < clock)
  }

  lemma RestingLists(m: multiset<PastDial>, last: map<NodeId, Time>, dialing: map<NodeId, Flag>, clock: Time, id: NodeId)
    requires Resting(m, last, dialing, clock)
    ensures Lists(m, id) <==> id in last && last[id] + DIAL_HISTORY_EXPIRATION >= clock
  {
    if id in last && last[id] + DIAL_HISTORY_EXPIRATION >= clock {
      var e := PastDial(id, last[id] + DIAL_HISTORY_EXPIRATION);
      assert m[e] == 1;
    }
  }

  lemma RestingExpired(m: multiset<PastDial>, m': multiset<PastDial>, last: map<NodeId, Time>, dialing: map<NodeId, Flag>,
                       clock: Time, now: Time)
    requires Resting(m, last, dialing, clock) && now >= clock
    requires forall e: PastDial :: m'[e] == if e.exp < now then 0 else m[e]
    ensures Resting(m', last, dialing, now)
  {
  }

  lemma RestingWithDial(m: multiset<PastDial>, last: map<NodeId, Time>, dialing: map<NodeId, Flag>, clock: Time,
                        id: NodeId, flag: Flag)
    requires Resting(m, last, dialing, clock) && !Lists(m, id)
    ensures Resting(m, last, dialing[id := flag], clock)
    ensures id in last ==> last[id] + DIAL_HISTORY_EXPIRATION < clock
  {
    RestingLists(m, last, dialing, clock, id);
  }

  lemma RestingDone(m: multiset<PastDial>, last: map<NodeId, Time>, dialing: map<NodeId, Flag>, clock: Time,
                    id: NodeId, now: Time)
    requires Resting(m, last, dialing, clock) && id in dialing && now >= clock
    ensures Resting(m + multiset{PastDial(id, now + DIAL_HISTORY_EXPIRATION)}, last[id := now], dialing - {id}, clock)
  {
    var e := PastDial(id, now + DIAL_HISTORY_EXPIRATION);
    forall f: PastDial ensures (m + multiset{e})[f] == if Rests(f, last[id := now], clock) then 1 else 0 {
      assert m[f] == if Rests(f, last, clock) then 1 else 0;
    }
  }

  lemma RestingForgotten(m: multiset<PastDial>, m': multiset<PastDial>, last: map<NodeId, Time>, dialing: map<NodeId, Flag>,
                         clock: Time, id: NodeId)
    requires Resting(m, last, dialing, clock)
    requires if Lists(m, id) then exists e :: e in m && e.id == id && m' == m - multiset{e} else m' == m
    ensures Resting(m', last - {id}, dialing, clock)
    ensures !Lists(m', id)
  {
    RestingLists(m, last, dialing, clock, id);
    if Lists(m, id) {
      var e :| e in m && e.id == id && m' == m - multiset{e};
      assert Rests(e, last, clock);
      forall f: PastDial ensures m'[f] == if Rests(f, last - {id}, clock) then 1 else 0 {
        assert m[f] == if Rests(f, last, clock) then 1 else 0;
      }
    } else {
      forall f: PastDial ensures m'[f] == if Rests(f, last - {id}, clock) then 1 else 0 {
        assert m[f] == if Rests(f, last, clock) then 1 else 0;
      }
    }
  }

  // ---------------------------------------------------------------- dynamic connections

  function DynPeers(peers: Peers): set<NodeId> {
    set id | id in peers && Dyn in peers[id].flags
  }

  function DynDials(dialing: map<NodeId, Flag>): set<NodeId> {
    set id | id in dialing && dialing[id] == Dyn
  }

  /** The IDs that are connected or being dialed dynamically are at most `max`. */
  ghost predicate DynWithin(peers: Peers, dialing: map<NodeId, Flag>, max: nat) {
    |DynPeers(peers) + DynDials(dialing)| <= max
  }

  lemma UnionSize(a: set<NodeId>, b: set<NodeId>)
    ensures |a + b| <= |a| + |b|
  {
    assert |a + b| + |a * b| == |a| + |b|;
  }

  lemma DynDialsWith(dialing: map<NodeId, Flag>, id: NodeId, flag: Flag)
    requires id !in dialing
    ensures DynDials(dialing[id := flag]) == if flag == Dyn then DynDials(dialing) + {id} else DynDials(dialing)
    ensures |DynDials(dialing[id := flag])| == |DynDials(dialing)| + if flag == Dyn then 1 else 0
  {
    assert DynDials(dialing[id := flag]) == if flag == Dyn then DynDials(dialing) + {id} else DynDials(dialing);
  }

  method CountDynPeers(peers: Peers) returns (n: nat)
    ensures n == |DynPeers(peers)|
  {
    n := 0;
    var todo := peers.Keys;
    ghost var seen: set<NodeId> := {};
    while todo != {}
      invariant todo <= peers.Keys && seen == set id | id in DynPeers(peers) && id !in todo
      invariant n == |seen|
      decreases |todo|
    {
      var id :| id in todo;
      todo := todo - {id};
      if Dyn in peers[id].flags {
        n := n + 1;
        seen := seen + {id};
      }
    }
    assert seen == DynPeers(peers);
  }

  method CountDynDials(dialing: map<NodeId, Flag>) returns (n: nat)
    ensures n == |DynDials(dialing)|
  {
    n := 0;
    var todo := dialing.Keys;
    ghost var seen: set<NodeId> := {};
    while todo != {}
      invariant todo <= dialing.Keys && seen == set id | id in DynDials(dialing) && id !in todo
      invariant n == |seen|
      decreases |todo|
    {
      var id :| id in todo;
      todo := todo - {id};
      if dialing[id] == Dyn {
        n := n + 1;
        seen := seen + {id};
      }
    }
    assert seen == DynDials(dialing);
  }

  // ---------------------------------------------------------------- the scheduler

  datatype Verdict = Fine | AlreadyDialing | AlreadyConnected | IsSelf | NotWhitelisted | RecentlyDialed

  /** How many random nodes are tried: no more than the table reports, and half of the dials still needed. */
  function AtMost(n: nat, need: int): (k: nat)
    ensures k <= n && k <= Half(need)
  {
    if n < Half(need) then n else Half(need)
  }

  /** `need / 2`, which Go rounds toward zero. */
  function Half(need: int): (h: nat)
    ensures need >= 0 ==> 2 * h <= need <= 2 * h + 1
    ensures need < 0 ==> h == 0
  {
    if need > 0 then need / 2 else 0
  }

  /** Whether a bootnode was moved from the front of the list to its end. */
  predicate Rotated(before: seq<Node>, after: seq<Node>) {
    before != [] && after == before[1..] + [before[0]]
  }

  /** A static node that is left is connected, being dialed, or was dialed too recently. */
  ghost predicate Served(id: NodeId, statics: map<NodeId, Node>, dialing: map<NodeId, Flag>, peers: Peers,
                         m: multiset<PastDial>)
  {
    id in statics ==> id in dialing || id in peers || Lists(m, id)
  }

  ghost predicate AllServed(statics: map<NodeId, Node>, dialing: map<NodeId, Flag>, peers: Peers, m: multiset<PastDial>) {
    forall id :: id in statics ==> Served(id, statics, dialing, peers, m)
  }

  /** All but those in `left` are. */
  ghost predicate ServedBut(statics: map<NodeId, Node>, left: set<NodeId>, dialing: map<NodeId, Flag>, peers: Peers, m: multiset<PastDial>) {
    forall id :: id in statics && id !in left ==> Served(id, statics, dialing, peers, m)
  }

  lemma ServedOne(statics: map<NodeId, Node>, statics': map<NodeId, Node>, left: set<NodeId>, id: NodeId, dialing: map<NodeId, Flag>,
                  dialing': map<NodeId, Flag>, peers: Peers, m: multiset<PastDial>)
    requires ServedBut(statics, left, dialing, peers, m) && Served(id, statics', dialing', peers, m)
    requires statics'.Keys <= statics.Keys && dialing.Keys <= dialing'.Keys
    ensures ServedBut(statics', left - {id}, dialing', peers, m)
  {
    hide Lists;
    forall i | i in statics' && i !in left && i != id ensures Served(i, statics', dialing', peers, m) {
      assert Served(i, statics, dialing, peers, m) && (i in dialing.Keys ==> i in dialing'.Keys);
    }
  }

  lemma AllAreServed(statics: map<NodeId, Node>, dialing: map<NodeId, Flag>, peers: Peers, m: multiset<PastDial>)
    ensures ServedBut(statics, statics.Keys, dialing, peers, m)
    ensures ServedBut(statics, {}, dialing, peers, m) ==> AllServed(statics, dialing, peers, m)
  {
    hide Served;
  }

  lemma StillServed(statics: map<NodeId, Node>, dialing: map<NodeId, Flag>, dialing': map<NodeId, Flag>, peers: Peers,
                    m: multiset<PastDial>)
    requires AllServed(statics, dialing, peers, m) && dialing.Keys <= dialing'.Keys
    ensures AllServed(statics, dialing', peers, m)
  {
    hide Lists;
    forall id | id in statics ensures Served(id, statics, dialing', peers, m) {
      assert Served(id, statics, dialing, peers, m);
    }
  }

  /**
   Of the static nodes looked at, which are all but those in `left`, exactly those have left the list that
   can never be dialed and are neither being dialed nor connected all the same.
   */
  ghost predicate Pruned(before: map<NodeId, Node>, after: map<NodeId, Node>, left: set<NodeId>, dialing: map<NodeId, Flag>,
                         peers: Peers, self: Option<NodeId>, allowed: Node -> bool)
  {
    && after.Keys <= before.Keys
    && (forall id :: id in after ==> after[id] == before[id])
    && forall id :: id in before ==>
         (id !in after <==> id !in left && id !in dialing && id !in peers && (self == Some(id) || !allowed(before[id])))
  }

  lemma PrunedOne(before: map<NodeId, Node>, mid: map<NodeId, Node>, after: map<NodeId, Node>, left: set<NodeId>, id: NodeId,
                  dialing: map<NodeId, Flag>, peers: Peers, self: Option<NodeId>, allowed: Node -> bool)
    requires Pruned(before, mid, left, dialing, peers, self, allowed) && id in left && id in mid
    requires after == mid || after == mid - {id}
    requires id !in after <==> id !in dialing && id !in peers && (self == Some(id) || !allowed(mid[id]))
    ensures Pruned(before, after, left - {id}, dialing, peers, self, allowed)
  {
  }

  /** The static nodes dialed so far are still listed, and not among those left. */
  ghost predicate StaticsDialed(made: seq<Task>, statics: map<NodeId, Node>, left: set<NodeId>) {
    forall t :: t in made ==> t.Dial? && t.flag == Static && t.dest.id in statics && statics[t.dest.id] == t.dest && t.dest.id !in left
  }

  lemma StaticDialed(made: seq<Task>, after: seq<Task>, statics: map<NodeId, Node>, statics': map<NodeId, Node>, left: set<NodeId>, id: NodeId)
    requires StaticsDialed(made, statics, left) && id in left && id in statics && statics[id].id == id
    requires statics' == statics || statics' == statics - {id}
    requires after == made || (after == made + [Dial(Static, statics[id])] && statics' == statics)
    ensures StaticsDialed(after, statics', left - {id})
  {
  }

  lemma StaticsAreDials(made: seq<Task>, statics: map<NodeId, Node>)
    requires StaticsDialed(made, statics, {})
    ensures DialsFrom(made, statics, {}) && AllDials(made)
  {
  }

  ghost predicate AllDials(made: seq<Task>) {
    forall t :: t in made ==> t.Dial?
  }

  /** Every dial is one of a static node, or a dynamic one of a node on offer. */
  ghost predicate DialsFrom(made: seq<Task>, statics: map<NodeId, Node>, offered: set<Node>) {
    forall t :: t in made && t.Dial? ==>
      if t.flag == Dyn then t.dest in offered
      else t.flag == Static && t.dest.id in statics && statics[t.dest.id] == t.dest
  }

  lemma DialsAndPicked(made: seq<Task>, after: seq<Task>, statics: map<NodeId, Node>, offered: set<Node>)
    requires DialsFrom(made, statics, {}) && AllDials(made) && Picked(made, after, offered)
    ensures DialsFrom(after, statics, offered) && AllDials(after)
  {
    forall t | t in after && t !in made ensures t.Dial? {
      var k :| 0 <= k < |after| && after[k] == t;
      assert k >= |made|;
    }
    forall t | t in after && t !in made && t.Dial? ensures t.flag == Dyn && t.dest in offered {
      var k :| 0 <= k < |after| && after[k] == t;
      assert k >= |made|;
    }
  }

  /** A candidate that was tried is being dialed, or there was a reason not to. */
  ghost predicate Tried(n: Node, dialing: map<NodeId, Flag>, peers: Peers, m: multiset<PastDial>, self: Option<NodeId>,
                        allowed: Node -> bool)
  {
    n.id in dialing || n.id in peers || self == Some(n.id) || !allowed(n) || Lists(m, n.id)
  }

  /** Candidates leave the buffer in order, each of them tried. */
  ghost predicate Consumed(before: seq<Node>, after: seq<Node>, dialing: map<NodeId, Flag>, peers: Peers,
                           m: multiset<PastDial>, self: Option<NodeId>, allowed: Node -> bool)
  {
    && |after| <= |before| && after == before[|before| - |after|..]
    && forall k :: 0 <= k < |before| - |after| ==> Tried(before[k], dialing, peers, m, self, allowed)
  }

  /** Each of these candidates was tried. */
  ghost predicate AllTried(nodes: seq<Node>, dialing: map<NodeId, Flag>, peers: Peers, m: multiset<PastDial>,
                           self: Option<NodeId>, allowed: Node -> bool)
  {
    forall k :: 0 <= k < |nodes| ==> Tried(nodes[k], dialing, peers, m, self, allowed)
  }

  /** The dials added are dynamic ones to nodes among the candidates. */
  ghost predicate Picked(before: seq<Task>, after: seq<Task>, from: set<Node>) {
    && before <= after
    && forall k :: |before| <= k < |after| ==> after[k].Dial? && after[k].flag == Dyn && after[k].dest in from
  }

  function Among(nodes: seq<Node>): set<Node> {
    set n | n in nodes
  }

  lemma NonePicked(made: seq<Task>, from: set<Node>)
    ensures Picked(made, made, from)
  {
  }

  lemma PickedAmongMore(made: seq<Task>, after: seq<Task>, from: set<Node>, more: set<Node>)
    requires Picked(made, after, from) && from <= more
    ensures Picked(made, after, more)
  {
  }

  lemma PickedOn(a: seq<Task>, b: seq<Task>, c: seq<Task>, from: set<Node>, more: set<Node>)
    requires Picked(a, b, from) && Picked(b, c, more)
    ensures Picked(a, c, from + more)
  {
    assert forall k :: |a| <= k < |b| ==> c[k] == b[k];
  }

  /** Either no dynamic dial was added, or the double count still leaves room. */
  lemma DynStillWithin(peers: Peers, before: map<NodeId, Flag>, after: map<NodeId, Flag>, max: nat)
    requires DynWithin(peers, before, max)
    requires DynDials(after) == DynDials(before) || |DynPeers(peers)| + |DynDials(after)| <= max
    ensures DynWithin(peers, after, max)
  {
    UnionSize(DynPeers(peers), DynDials(after));
  }

  ghost predicate Keyed(statics: map<NodeId, Node>) {
    forall id :: id in statics ==> statics[id].id == id
  }

  class DialState {
    const maxDynDials: nat
    const self: Option<NodeId>       // the local node, if discovery is on
    const allowed: Node -> bool      // the whitelist
    const hist: History
    var lookupRunning: bool
    var dialing: map<NodeId, Flag>
    var lookupBuf: seq<Node>
    var statics: map<NodeId, Node>
    var start: Option<Time>
    var bootNodes: seq<Node>
    ghost var dest: map<NodeId, Node>
    ghost var waiting: Option<int>
    ghost var last: map<NodeId, Time>  // when each ID was last dialed, unless it was removed as static since
    ghost var clock: Time

    ghost function Books(): Ledger
      reads `dialing, `dest, `lookupRunning, `waiting
    {
      Ledger(dialing, dest, lookupRunning, waiting)
    }

    /** `tasks` is everything handed to the server and not yet reported done. */
    ghost predicate Valid(tasks: multiset<Task>)
      reads this, hist
    {
      Sound(tasks) && Keyed(statics)
    }

    ghost predicate Sound(tasks: multiset<Task>)
      reads `dialing, `dest, `lookupRunning, `waiting, `last, `clock, hist
    {
      hist.Valid() && Exact(tasks, Books()) && Resting(multiset(hist.h), last, dialing, clock)
    }

    constructor (maxDynDials: nat, self: Option<NodeId>, allowed: Node -> bool, bootNodes: seq<Node>)
      ensures Valid(multiset{}) && fresh(hist)
      ensures this.maxDynDials == maxDynDials && this.self == self && this.allowed == allowed && this.bootNodes == bootNodes
      ensures statics == map[] && dialing == map[] && last == map[] && lookupBuf == [] && !lookupRunning && start == None
    {
      this.maxDynDials, this.self, this.allowed, this.bootNodes := maxDynDials, self, allowed, bootNodes;
      hist := new History();
      lookupRunning, dialing, lookupBuf, statics, start := false, map[], [], map[], None;
      dest, waiting, last, clock := map[], None, map[], 0;
    }

    /** `addStatic`: a node that is static already is overwritten. */
    method AddStatic(n: Node, ghost tasks: multiset<Task>)
      requires Valid(tasks)
      modifies this`statics
      ensures Valid(tasks) && statics == old(statics)[n.id := n]
    {
      statics := statics[n.id := n];
    }

    /** `removeStatic`: the ID may also be dialed again at once. */
    method RemoveStatic(id: NodeId, ghost tasks: multiset<Task>)
      requires Valid(tasks)
      modifies this`statics, this`last, hist
      ensures Valid(tasks) && statics == old(statics) - {id} && last == old(last) - {id}
      ensures !Lists(multiset(hist.h), id)
    {
      hide Exact, Resting;
      statics := statics - {id};
      ghost var m := multiset(hist.h);
      var _ := hist.Remove(id);
      RestingForgotten(m, multiset(hist.h), last, dialing, clock, id);
      last := last - {id};
    }

    /** What a task for this node may count on when it is made. */
    ghost predicate MayDial(n: Node, peers: Peers)
      reads `last, `clock
    {
      && n.id !in peers && self != Some(n.id) && allowed(n)
      && (n.id in last ==> last[n.id] + DIAL_HISTORY_EXPIRATION < clock)
    }

    /**
     Fine exactly if no dial of the node is outstanding and it may be dialed at all; otherwise one reason is
     given. That the node was dialed lately is the last one looked at.
     */
    method CheckDial(n: Node, peers: Peers, ghost tasks: multiset<Task>) returns (v: Verdict)
      requires Sound(tasks)
      ensures v == Fine <==> !Underway(tasks, n.id) && MayDial(n, peers)
      ensures v == AlreadyDialing <==> Underway(tasks, n.id)
      ensures Underway(tasks, n.id) <==> n.id in dialing
      ensures v == AlreadyConnected <==> !Underway(tasks, n.id) && n.id in peers
      ensures v == IsSelf <==> !Underway(tasks, n.id) && n.id !in peers && self == Some(n.id)
      ensures v == NotWhitelisted <==> !Underway(tasks, n.id) && n.id !in peers && self != Some(n.id) && !allowed(n)
      ensures v == RecentlyDialed <==>
                && n.id in last && last[n.id] + DIAL_HISTORY_EXPIRATION >= clock
                && !Underway(tasks, n.id) && n.id !in peers && self != Some(n.id) && allowed(n)
      ensures v == RecentlyDialed ==> Lists(multiset(hist.h), n.id)
      ensures v == Fine ==> !Lists(multiset(hist.h), n.id)
    {
      hide Exact, Lists, Underway, Resting;
      DialIsOutstanding(tasks, Books(), n.id);
      RestingLists(multiset(hist.h), last, dialing, clock, n.id);
      if n.id in dialing {
        return AlreadyDialing;
      }
      if n.id in peers {
        return AlreadyConnected;
      }
      if self == Some(n.id) {
        return IsSelf;
      }
      if !allowed(n) {
        return NotWhitelisted;
      }
      var recent := hist.Contains(n.id);
      return if recent then RecentlyDialed else Fine;
    }

    /** The state between the steps of `newTasks`, when `made` has been made so far. */
    ghost predicate Making(made: seq<Task>, peers: Peers, tasks: multiset<Task>)
      reads `dialing, `dest, `lookupRunning, `waiting, `last, `clock, hist
    {
      && Sound(tasks + multiset(made))
      && forall t :: t in made && t.Dial? ==> MayDial(t.dest, peers)
    }

    lemma MakingSound(made: seq<Task>, peers: Peers, tasks: multiset<Task>)
      requires Making(made, peers, tasks)
      ensures Sound(tasks + multiset(made))
    {
    }

    /** `addDial` */
    method AddDial(flag: Flag, n: Node, made: seq<Task>, peers: Peers, ghost tasks: multiset<Task>)
      returns (ok: bool, r: seq<Task>)
      requires Making(made, peers, tasks) && (flag == Dyn || flag == Static)
      modifies this`dialing, this`dest
      ensures Making(r, peers, tasks)
      ensures ok <==> n.id !in old(dialing) && MayDial(n, peers)
      ensures r == if ok then made + [Dial(flag, n)] else made
      ensures dialing == if ok then old(dialing)[n.id := flag] else old(dialing)
      ensures Tried(n, dialing, peers, multiset(hist.h), self, allowed)
    {
      hide Exact, Resting, Lists;
      var v := CheckDial(n, peers, tasks + multiset(made));
      if v != Fine {
        return false, made;
      }
      ExactWithDial(tasks + multiset(made), Books(), flag, n);
      RestingWithDial(multiset(hist.h), last, dialing, clock, n.id, flag);
      dialing, dest := dialing[n.id := flag], dest[n.id := n];
      r := made + [Dial(flag, n)];
      assert tasks + multiset(r) == tasks + multiset(made) + multiset{Dial(flag, n)};
      return true, r;
    }

    /** One static node: dialed if it may be, dropped if it never can be. */
    method StaticDial(id: NodeId, made: seq<Task>, peers: Peers, ghost tasks: multiset<Task>) returns (r: seq<Task>)
      requires Making(made, peers, tasks) && id in statics && statics[id].id == id
      modifies this`dialing, this`dest, this`statics
      ensures Making(r, peers, tasks) && Served(id, statics, dialing, peers, multiset(hist.h))
      ensures statics == old(statics) || statics == old(statics) - {id}
      ensures id !in statics <==> id !in old(dialing) && id !in peers && (self == Some(id) || !allowed(old(statics)[id]))
      ensures old(dialing.Keys) <= dialing.Keys <= old(dialing.Keys) + {id} && DynDials(dialing) == DynDials(old(dialing))
      ensures r == if id !in old(dialing) && old(MayDial(statics[id], peers)) then made + [Dial(Static, old(statics)[id])] else made
      ensures r == made || statics == old(statics)
    {
      hide Making, Lists, DynDials, Underway;
      var n := statics[id];
      assert Sound(tasks + multiset(made)) by { MakingSound(made, peers, tasks); }
      var v := CheckDial(n, peers, tasks + multiset(made));
      r := made;
      if v == IsSelf || v == NotWhitelisted {
        statics := statics - {id};
      } else if v == Fine {
        DynDialsWith(dialing, id, Static);
        var _, made' := AddDial(Static, n, made, peers, tasks);
        r := made';
      }
    }

    method StaticDials(peers: Peers, ghost tasks: multiset<Task>) returns (made: seq<Task>)
      requires Valid(tasks)
      modifies this`dialing, this`dest, this`statics
      ensures Making(made, peers, tasks) && Keyed(statics)
      ensures AllServed(statics, dialing, peers, multiset(hist.h))
      ensures Pruned(old(statics), statics, {}, old(dialing), peers, self, allowed) && DialsFrom(made, statics, {}) && AllDials(made)
      ensures DynDials(dialing) == DynDials(old(dialing)) && old(dialing.Keys) <= dialing.Keys
    {
      hide Making, Exact, Resting, Lists, DynDials, MayDial, Pruned, StaticsDialed, DialsFrom, Served, ServedBut, AllServed;
      NonePruned(statics, dialing, peers);
      AllAreServed(statics, dialing, peers, multiset(hist.h));
      made := [];
      assert tasks + multiset(made) == tasks;
      assert Making(made, peers, tasks) by { NothingMade(peers, tasks); }
      var todo := statics.Keys;
      while todo != {}
        invariant todo <= statics.Keys && Pruned(old(statics), statics, todo, old(dialing), peers, self, allowed)
        invariant StaticsDialed(made, statics, todo) && old(dialing.Keys) <= dialing.Keys
        invariant forall id :: id in todo ==> (id in dialing <==> id in old(dialing))
        invariant forall id :: id in statics ==> statics[id].id == id
        invariant Making(made, peers, tasks)
        invariant ServedBut(statics, todo, dialing, peers, multiset(hist.h))
        invariant DynDials(dialing) == DynDials(old(dialing))
        decreases |todo|
      {
        var id :| id in todo;
        ghost var statics0, made0, todo0, dialing0 := statics, made, todo, dialing;
        todo := todo - {id};
        made := StaticDial(id, made, peers, tasks);
        PrunedOne(old(statics), statics0, statics, todo0, id, old(dialing), peers, self, allowed);
        StaticDialed(made0, made, statics0, statics, todo0, id);
        ServedOne(statics0, statics, todo0, id, dialing0, dialing, peers, multiset(hist.h));
      }
      AllAreServed(statics, dialing, peers, multiset(hist.h));
      StaticsAreDials(made, statics);
    }

    lemma NonePruned(statics: map<NodeId, Node>, dialing: map<NodeId, Flag>, peers: Peers)
      ensures Pruned(statics, statics, statics.Keys, dialing, peers, self, allowed) && StaticsDialed([], statics, statics.Keys)
    {
    }

    lemma NothingMade(peers: Peers, tasks: multiset<Task>)
      requires Sound(tasks)
      ensures Making([], peers, tasks)
    {
      hide Exact, Resting;
      assert tasks + multiset([]) == tasks;
    }

    /** How many dynamic dials are wanted: double counting an ID that is connected and being dialed. */
    ghost function Needed(peers: Peers): int
      reads `dialing
    {
      maxDynDials - |DynPeers(peers)| - |DynDials(dialing)|
    }

    /** One dynamic candidate. */
    method DynDial(n: Node, need: int, made: seq<Task>, peers: Peers, ghost tasks: multiset<Task>)
      returns (need': int, r: seq<Task>)
      requires Making(made, peers, tasks) && need == Needed(peers)
      modifies this`dialing, this`dest
      ensures Making(r, peers, tasks) && need' == Needed(peers)
      ensures need' == need - (if n.id !in old(dialing) && old(MayDial(n, peers)) then 1 else 0)
      ensures (need' == need ==> dialing == old(dialing)) && old(dialing.Keys) <= dialing.Keys
      ensures Picked(made, r, {n})
      ensures Tried(n, dialing, peers, multiset(hist.h), self, allowed)
    {
      hide Exact, Resting, Lists, MayDial, DynDials, DynPeers;
      var ok, r0 := AddDial(Dyn, n, made, peers, tasks);
      r := r0;
      need' := need;
      if ok {
        DynDialsWith(old(dialing), n.id, Dyn);
        need' := need - 1;
      }
    }

    /** Random nodes of the table: as many of them as the limit says, each tried once. */
    method Candidates(nodes: seq<Node>, limit: nat, need: int, made: seq<Task>, peers: Peers, ghost tasks: multiset<Task>)
      returns (need': int, r: seq<Task>)
      requires Making(made, peers, tasks) && need == Needed(peers) && limit <= |nodes| && limit <= need
      modifies this`dialing, this`dest
      ensures Making(r, peers, tasks) && need' == Needed(peers) && need - limit <= need' <= need
      ensures need' == need ==> dialing == old(dialing)
      ensures old(dialing.Keys) <= dialing.Keys
      ensures AllTried(nodes[..limit], dialing, peers, multiset(hist.h), self, allowed)
      ensures Picked(made, r, Among(nodes[..limit]))
    {
      hide Making, DynDials, DynPeers, Needed, Lists, Picked;
      need', r := need, made;
      NonePicked(made, Among(nodes[..limit]));
      for i := 0 to limit
        invariant Making(r, peers, tasks) && need' == Needed(peers) && need - i <= need' <= need
        invariant need' == need ==> dialing == old(dialing)
        invariant old(dialing.Keys) <= dialing.Keys
        invariant AllTried(nodes[..i], dialing, peers, multiset(hist.h), self, allowed)
        invariant Picked(made, r, Among(nodes[..limit]))
      {
        assert nodes[..limit][i] == nodes[i];
        ghost var sofar := r;
        need', r := DynDial(nodes[i], need', r, peers, tasks);
        PickedOn(made, sofar, r, Among(nodes[..limit]), {nodes[i]});
        assert Among(nodes[..limit]) + {nodes[i]} == Among(nodes[..limit]);
      }
    }

    /**
     Dials for nodes that a lookup returned, as long as they are needed; the nodes tried leave the buffer.
     */
    method LookupDials(need: int, made: seq<Task>, peers: Peers, ghost tasks: multiset<Task>)
      returns (need': int, r: seq<Task>)
      requires Making(made, peers, tasks) && need == Needed(peers)
      modifies this`dialing, this`dest, this`lookupBuf
      ensures Making(r, peers, tasks) && need' == Needed(peers)
      ensures need' <= need && (need' < need ==> need' >= 0) && (need' == need ==> dialing == old(dialing))
      ensures old(dialing.Keys) <= dialing.Keys
      ensures Picked(made, r, Among(old(lookupBuf)))
      ensures Consumed(old(lookupBuf), lookupBuf, dialing, peers, multiset(hist.h), self, allowed)
      ensures lookupBuf == [] || need' <= 0
    {
      hide Making, DynDials, DynPeers, Needed, Picked;
      need', r := need, made;
      NonePicked(made, Among(lookupBuf));
      var i := 0;
      while i < |lookupBuf| && need' > 0
        invariant i <= |lookupBuf| && lookupBuf == old(lookupBuf)
        invariant Making(r, peers, tasks) && need' == Needed(peers)
        invariant need' <= need && (need' < need ==> need' >= 0) && (need' == need ==> dialing == old(dialing))
        invariant old(dialing.Keys) <= dialing.Keys
        invariant Picked(made, r, Among(lookupBuf))
        invariant forall k :: 0 <= k < i ==> Tried(lookupBuf[k], dialing, peers, multiset(hist.h), self, allowed)
      {
        ghost var sofar := r;
        need', r := DynDial(lookupBuf[i], need', r, peers, tasks);
        PickedOn(made, sofar, r, Among(lookupBuf), {lookupBuf[i]});
        assert Among(lookupBuf) + {lookupBuf[i]} == Among(lookupBuf);
        i := i + 1;
      }
      lookupBuf := lookupBuf[i..];
    }

    /** The dial history is expired on every invocation, which is what moves the clock. */
    method Forget(now: Time, ghost tasks: multiset<Task>)
      requires Valid(tasks) && now >= clock
      modifies this`clock, hist
      ensures Valid(tasks) && clock == now
    {
      hide Exact, Resting;
      ghost var m := multiset(hist.h);
      hist.Expire(now);
      RestingExpired(m, multiset(hist.h), last, dialing, clock, now);
      clock := now;
    }

    method Launch(made: seq<Task>, peers: Peers, ghost tasks: multiset<Task>) returns (r: seq<Task>)
      requires Making(made, peers, tasks) && !lookupRunning
      modifies this`lookupRunning
      ensures Making(r, peers, tasks) && lookupRunning && r == made + [Discover]
    {
      hide Exact, Resting, MayDial;
      ExactWithLookup(tasks + multiset(made), Books());
      lookupRunning := true;
      r := made + [Discover];
      assert tasks + multiset(r) == tasks + multiset(made) + multiset{Discover};
    }

    /** The timer that keeps the server's loop ticking until the first dial in the history expires. */
    method Wait(now: Time, peers: Peers, ghost tasks: multiset<Task>) returns (r: seq<Task>)
      requires Making([], peers, tasks) && tasks == multiset{} && |hist.h| > 0
      modifies this`waiting
      ensures Making(r, peers, tasks) && |r| == 1 && r[0].WaitExpire?
      ensures forall e :: e in hist.h ==> now + r[0].duration <= e.exp
      ensures exists e :: e in hist.h && now + r[0].duration == e.exp
    {
      hide Exact, Resting, MayDial;
      assert tasks + multiset([]) == multiset{};
      var e := hist.Min();
      ExactWithWait(Books(), e.exp - now);
      waiting := Some(e.exp - now);
      r := [WaitExpire(e.exp - now)];
      assert tasks + multiset(r) == multiset{WaitExpire(e.exp - now)};
    }

    lemma NeededBound(peers: Peers)
      ensures Needed(peers) <= maxDynDials
    {
    }

    /** Whether a bootnode is due: there are no peers whatsoever, and the waiting is over. */
    ghost predicate BootDue(waited: bool, need: int, peers: Peers)
      reads `bootNodes
    {
      |peers| == 0 && bootNodes != [] && need > 0 && waited
    }

    /** The bootnodes that are tried: the first, if one is due. */
    ghost function Boots(waited: bool, need: int, peers: Peers): seq<Node>
      reads `bootNodes
    {
      if BootDue(waited, need, peers) then [bootNodes[0]] else []
    }

    /** How many dials are still needed after the bootnode: one less exactly if one is due that may be dialed. */
    ghost function LeftNeeded(waited: bool, need: int, peers: Peers): int
      reads `bootNodes, `dialing, `last, `clock
    {
      if BootDue(waited, need, peers) && bootNodes[0].id !in dialing && MayDial(bootNodes[0], peers) then need - 1 else need
    }

    /** A bootnode, if there are no peers whatsoever. */
    method BootDial(waited: bool, need0: int, made0: seq<Task>, peers: Peers, ghost tasks: multiset<Task>)
      returns (need: int, made: seq<Task>)
      requires Making(made0, peers, tasks) && need0 == Needed(peers)
      modifies this`dialing, this`dest, this`bootNodes
      ensures Making(made, peers, tasks) && need == Needed(peers)
      ensures need <= need0 && (need < need0 ==> need >= 0) && (need == need0 ==> dialing == old(dialing))
      ensures old(dialing.Keys) <= dialing.Keys
      ensures need == old(LeftNeeded(waited, need0, peers))
      ensures if old(BootDue(waited, need0, peers)) then Rotated(old(bootNodes), bootNodes) else bootNodes == old(bootNodes)
      ensures AllTried(old(Boots(waited, need0, peers)), dialing, peers, multiset(hist.h), self, allowed)
      ensures Picked(made0, made, Among(old(Boots(waited, need0, peers))))
    {
      hide Making, Needed, MayDial, Lists;
      need, made := need0, made0;
      if |peers| == 0 && |bootNodes| > 0 && need > 0 && waited {
        var bootnode := bootNodes[0];
        bootNodes := bootNodes[1..] + [bootnode];
        need, made := DynDial(bootnode, need, made, peers, tasks);
      }
    }

    /**
     The dynamic dials: a bootnode if there are no peers at all; random nodes of the table, as many as the table
     reports but no more than half of the dials still needed; then nodes of the last lookup. Each of them is
     tried, and nothing else is dialed.
     */
    method DynDialsFor(waited: bool, need0: int, made0: seq<Task>, peers: Peers, random: seq<Node>, n: nat,
                       ghost tasks: multiset<Task>)
      returns (need: int, made: seq<Task>)
      requires Making(made0, peers, tasks) && need0 == Needed(peers) && |random| == Half(maxDynDials)
      modifies this`dialing, this`dest, this`lookupBuf, this`bootNodes
      ensures Making(made, peers, tasks) && need == Needed(peers)
      ensures need <= need0 && (need < need0 ==> need >= 0) && (need == need0 ==> dialing == old(dialing))
      ensures old(dialing.Keys) <= dialing.Keys
      ensures lookupBuf == [] || need <= 0
      ensures Consumed(old(lookupBuf), lookupBuf, dialing, peers, multiset(hist.h), self, allowed)
      ensures if old(BootDue(waited, need0, peers)) then Rotated(old(bootNodes), bootNodes) else bootNodes == old(bootNodes)
      ensures var boots := old(Boots(waited, need0, peers));
              var randoms := random[..AtMost(n, old(LeftNeeded(waited, need0, peers)))];
              && AllTried(boots + randoms, dialing, peers, multiset(hist.h), self, allowed)
              && Picked(made0, made, Among(boots) + Among(randoms) + Among(old(lookupBuf)))
    {
      hide Making, Needed, Rotated, Lists, Picked, MayDial;
      ghost var boots := Boots(waited, need0, peers);
      need, made := BootDial(waited, need0, made0, peers, tasks);
      ghost var made1 := made;
      var randomCandidates := Half(need);
      NeededBound(peers);
      ghost var randoms := random[..AtMost(n, need)];
      if randomCandidates > 0 {
        need, made := Candidates(random, AtMost(n, need), need, made, peers, tasks);
      } else {
        NonePicked(made, Among(randoms));
      }
      ghost var made2 := made;
      need, made := LookupDials(need, made, peers, tasks);
      PickedOn(made0, made1, made2, Among(boots), Among(randoms));
      PickedOn(made0, made2, made, Among(boots) + Among(randoms), Among(old(lookupBuf)));
    }

    /** When the dialer began, which is when it was first asked for tasks. */
    function Began(now: Time): Time
      reads `start
    {
      if start.Some? then start.value else now
    }

    /** Whether the time has come to fall back on a bootnode. */
    predicate Waited(now: Time)
      reads `start
    {
      now - Began(now) > FALLBACK_INTERVAL
    }

    /** Bootnodes that are due and, of the random nodes, as many as are certain to be tried: a dial of a bootnode makes one less needed. */
    ghost predicate OfferedAllTried(boots: seq<Node>, random: seq<Node>, n: nat, need: int, peers: Peers)
      requires |random| == Half(maxDynDials) && need <= maxDynDials
      reads `dialing, hist
    {
      AllTried(boots + random[..AtMost(n, need - |boots|)], dialing, peers, multiset(hist.h), self, allowed)
    }

    /** The candidates for dynamic dials. */
    ghost function Offered(boots: seq<Node>, random: seq<Node>, n: nat, need: int, lookup: seq<Node>): set<Node>
      requires |random| == Half(maxDynDials) && need <= maxDynDials
    {
      Among(boots) + Among(random[..AtMost(n, need)]) + Among(lookup)
    }

    /** However many random nodes are tried, they are among those on offer, and those certain to be tried are among them. */
    lemma TriedAndOffered(random: seq<Node>, n: nat, need: int, left: int, boots: seq<Node>, peers: Peers)
      requires |random| == Half(maxDynDials) && need - |boots| <= left <= need <= maxDynDials
      requires AllTried(boots + random[..AtMost(n, left)], dialing, peers, multiset(hist.h), self, allowed)
      ensures Among(random[..AtMost(n, left)]) <= Among(random[..AtMost(n, need)])
      ensures OfferedAllTried(boots, random, n, need, peers)
    {
      hide Tried;
      var all, some := boots + random[..AtMost(n, left)], boots + random[..AtMost(n, need - |boots|)];
      assert some <= all;
    }

    /** The dynamic dials after those of static nodes, and whom they are from. */
    method DynDialsAfter(waited: bool, need0: int, made0: seq<Task>, peers: Peers, random: seq<Node>, n: nat, ghost tasks: multiset<Task>)
      returns (need: int, made: seq<Task>)
      requires Making(made0, peers, tasks) && need0 == Needed(peers) && |random| == Half(maxDynDials) && need0 <= maxDynDials
      requires DialsFrom(made0, statics, {}) && AllDials(made0)
      modifies this`dialing, this`dest, this`lookupBuf, this`bootNodes
      ensures Making(made, peers, tasks) && need == Needed(peers)
      ensures need <= need0 && (need < need0 ==> need >= 0) && (need == need0 ==> dialing == old(dialing))
      ensures old(dialing.Keys) <= dialing.Keys
      ensures lookupBuf == [] || need <= 0
      ensures Consumed(old(lookupBuf), lookupBuf, dialing, peers, multiset(hist.h), self, allowed)
      ensures if old(BootDue(waited, need0, peers)) then Rotated(old(bootNodes), bootNodes) else bootNodes == old(bootNodes)
      ensures OfferedAllTried(old(Boots(waited, need0, peers)), random, n, need0, peers)
      ensures DialsFrom(made, statics, Offered(old(Boots(waited, need0, peers)), random, n, need0, old(lookupBuf))) && AllDials(made)
    {
      hide Making, Needed, MayDial, Tried, DialsFrom, Picked, Consumed, Rotated;
      ghost var boots, left, offers := Boots(waited, need0, peers), LeftNeeded(waited, need0, peers), lookupBuf;
      need, made := DynDialsFor(waited, need0, made0, peers, random, n, tasks);
      TriedAndOffered(random, n, need0, left, boots, peers);
      PickedAmongMore(made0, made, Among(boots) + Among(random[..AtMost(n, left)]) + Among(offers),
                      Offered(boots, random, n, need0, offers));
      DialsAndPicked(made0, made, statics, Offered(boots, random, n, need0, offers));
    }

    /** The dials that `newTasks` makes, and how many more it would make if it had candidates. */
    method Dials(peers: Peers, now: Time, random: seq<Node>, n: nat, ghost tasks: multiset<Task>)
      returns (need: int, made: seq<Task>)
      requires Valid(tasks) && now >= clock && |random| == Half(maxDynDials)
      modifies this`dialing, this`dest, this`statics, this`lookupBuf, this`start, this`bootNodes, this`clock, hist
      ensures Making(made, peers, tasks) && Keyed(statics) && clock == now
      ensures DynWithin(peers, old(dialing), maxDynDials) ==> DynWithin(peers, dialing, maxDynDials)
      ensures AllServed(statics, dialing, peers, multiset(hist.h)) && Pruned(old(statics), statics, {}, old(dialing), peers, self, allowed)
      ensures need == Needed(peers) && (need > 0 ==> lookupBuf == [])
      ensures Consumed(old(lookupBuf), lookupBuf, dialing, peers, multiset(hist.h), self, allowed)
      ensures start == Some(old(Began(now))) && OfferedAllTried(old(Boots(Waited(now), Needed(peers), peers)), random, n, old(Needed(peers)), peers)
      ensures AllDials(made)
              && DialsFrom(made, statics, Offered(old(Boots(Waited(now), Needed(peers), peers)), random, n, old(Needed(peers)), old(lookupBuf)))
      ensures if old(BootDue(Waited(now), Needed(peers), peers)) then Rotated(old(bootNodes), bootNodes) else bootNodes == old(bootNodes)
    {
      hide Making, Exact, Resting, Lists, DynDials, DynPeers, AllServed, MayDial, Rotated, DynWithin, Pruned, Consumed, Keyed,
        DialsFrom, OfferedAllTried, Offered;
      if start == None {
        start := Some(now);
      }
      var dynPeers := CountDynPeers(peers);
      var dynDials := CountDynDials(dialing);
      need := maxDynDials - dynPeers - dynDials;
      ghost var before := dialing;
      Forget(now, tasks);
      made := StaticDials(peers, tasks);
      ghost var dialed := dialing;
      need, made := DynDialsAfter(now - start.value > FALLBACK_INTERVAL, need, made, peers, random, n, tasks);
      StillServed(statics, dialed, dialing, peers, multiset(hist.h));
      if DynWithin(peers, before, maxDynDials) {
        DynStillWithin(peers, before, dialing, maxDynDials);
      }
    }

    /** `newTasks`; `random` and `n` are what the table puts in the buffer for random nodes, and how many it reports. */
    method NewTasks(nRunning: nat, peers: Peers, now: Time, random: seq<Node>, n: nat, ghost tasks: multiset<Task>)
      returns (made: seq<Task>)
      requires Valid(tasks) && nRunning == |tasks| && now >= clock && |random| == Half(maxDynDials)
      modifies this`dialing, this`dest, this`statics, this`lookupBuf, this`lookupRunning, this`waiting, this`start,
               this`bootNodes, this`clock, hist
      ensures Valid(tasks + multiset(made)) && clock == now
      ensures forall t :: t in made && t.Dial? ==> MayDial(t.dest, peers)
      ensures DynWithin(peers, old(dialing), maxDynDials) ==> DynWithin(peers, dialing, maxDynDials)
      ensures AllServed(statics, dialing, peers, multiset(hist.h)) && Pruned(old(statics), statics, {}, old(dialing), peers, self, allowed)
      ensures Needed(peers) > 0 ==> lookupBuf == []
      ensures lookupRunning <==> old(lookupRunning) || Needed(peers) > 0
      ensures Discover in made <==> lookupRunning && !old(lookupRunning)
      ensures nRunning == 0 && |hist.h| > 0 ==> made != []
      ensures (exists t :: t in made && t.WaitExpire?) ==> nRunning == 0 && |hist.h| > 0 && |made| == 1
      ensures Consumed(old(lookupBuf), lookupBuf, dialing, peers, multiset(hist.h), self, allowed)
      ensures start == Some(old(Began(now))) && OfferedAllTried(old(Boots(Waited(now), Needed(peers), peers)), random, n, old(Needed(peers)), peers)
      ensures DialsFrom(made, statics, Offered(old(Boots(Waited(now), Needed(peers), peers)), random, n, old(Needed(peers)), old(lookupBuf)))
      ensures if old(BootDue(Waited(now), Needed(peers), peers)) then Rotated(old(bootNodes), bootNodes) else bootNodes == old(bootNodes)
    {
      hide Making, Sound, AllServed, MayDial, Rotated, DynWithin, Pruned, Consumed, Keyed, Needed, OfferedAllTried, Offered, Boots, BootDue;
      var need, made0 := Dials(peers, now, random, n, tasks);
      made := made0;
      if |lookupBuf| < need && !lookupRunning {
        made := Launch(made, peers, tasks);
      }
      if nRunning == 0 && |made| == 0 && |hist.h| > 0 {
        made := Wait(now, peers, tasks);
      }
      MadeSound(made, peers, tasks);
    }

    lemma MadeSound(made: seq<Task>, peers: Peers, tasks: multiset<Task>)
      requires Making(made, peers, tasks)
      ensures Sound(tasks + multiset(made))
      ensures forall t :: t in made && t.Dial? ==> MayDial(t.dest, peers)
    {
    }

    /** `taskDone`; `results` is what the lookup has found, if it was one. */
    method TaskDone(t: Task, results: seq<Node>, now: Time, ghost tasks: multiset<Task>)
      requires Valid(tasks) && t in tasks && now >= clock
      modifies this`dialing, this`dest, this`lookupRunning, this`lookupBuf, this`waiting, this`last, hist
      ensures Valid(tasks - multiset{t})
      ensures dialing == if t.Dial? then old(dialing) - {t.dest.id} else old(dialing)
      ensures lookupBuf == if t.Discover? then old(lookupBuf) + results else old(lookupBuf)
      ensures lookupRunning <==> old(lookupRunning) && !t.Discover?
      ensures last == if t.Dial? then old(last)[t.dest.id := now] else old(last)
    {
      hide Exact, Resting;
      ExactWithout(tasks, Books(), t);
      match t {
        case Dial(_, n) => {
          assert n.id in dialing by { Outstanding(tasks, t); }
          ghost var m := multiset(hist.h);
          hist.Add(n.id, now + DIAL_HISTORY_EXPIRATION);
          RestingDone(m, last, dialing, clock, n.id, now);
          dialing, dest, last := dialing - {n.id}, dest - {n.id}, last[n.id := now];
        }
        case Discover => {
          lookupRunning := false;
          lookupBuf := lookupBuf + results;
        }
        case WaitExpire(_) => {
          waiting := None;
        }
      }
    }

    lemma Outstanding(tasks: multiset<Task>, t: Task)
      requires Exact(tasks, Books()) && t in tasks && t.Dial?
      ensures t.dest.id in dialing && dialing[t.dest.id] == t.flag
    {
      assert tasks[t] == Due(t, Books());
    }
  }
}
