/**
 The server's main loop (`p2p/server.go`): it runs the scheduler's tasks, at most sixteen at a time,
 and admits connections. Each event of the loop is a method; the state between events is `Valid`.
 */
module Server {
  import opened Collections
  import opened DialHistory
  import opened Dial
  import opened MatchProtocols

  const MAX_ACTIVE_DIAL_TASKS := 16
  const DEFAULT_DIAL_RATIO := 3

  datatype Refusal = Accepted | TooManyPeers | AlreadyConnected | IsSelf | UselessPeer

  function InboundPeers(peers: Peers): set<NodeId> {
    set id | id in peers && Flag.Inbound in peers[id].flags
  }

  function UntrustedInbound(peers: Peers): set<NodeId> {
    set id | id in peers && Flag.Inbound in peers[id].flags && Trusted !in peers[id].flags
  }

  function Ordinary(peers: Peers): set<NodeId> {
    set id | id in peers && Trusted !in peers[id].flags && Static !in peers[id].flags
  }

  /** The peers stay within the limits, and the count of inbound peers is exact. */
  ghost predicate Admitted(peers: Peers, inboundCount: int, maxPeers: nat, maxInbound: nat) {
    && inboundCount == |InboundPeers(peers)|
    && |UntrustedInbound(peers)| <= maxInbound
    && |Ordinary(peers)| <= maxPeers
    && forall id :: id in peers ==> peers[id].id == id
  }

  lemma OrdinaryArePeers(peers: Peers)
    ensures |Ordinary(peers)| <= |peers| && |UntrustedInbound(peers)| <= |InboundPeers(peers)|
  {
    SubsetSize(Ordinary(peers), peers.Keys);
    SubsetSize(UntrustedInbound(peers), InboundPeers(peers));
  }

  lemma Grown(before: set<NodeId>, after: set<NodeId>, id: NodeId, more: bool)
    requires id !in before && forall x :: x in after <==> x in before || (more && x == id)
    ensures |after| == |before| + if more then 1 else 0
  {
    if more {
      assert after == before + {id};
    } else {
      assert after == before;
    }
  }

  lemma SetsWith(peers: Peers, c: Conn)
    requires c.id !in peers
    ensures |InboundPeers(peers[c.id := c])| == |InboundPeers(peers)| + if Flag.Inbound in c.flags then 1 else 0
    ensures |UntrustedInbound(peers[c.id := c])| ==
              |UntrustedInbound(peers)| + if Flag.Inbound in c.flags && Trusted !in c.flags then 1 else 0
    ensures |Ordinary(peers[c.id := c])| == |Ordinary(peers)| + if Trusted !in c.flags && Static !in c.flags then 1 else 0
  {
    var after := peers[c.id := c];
    Grown(InboundPeers(peers), InboundPeers(after), c.id, Flag.Inbound in c.flags);
    Grown(UntrustedInbound(peers), UntrustedInbound(after), c.id, Flag.Inbound in c.flags && Trusted !in c.flags);
    Grown(Ordinary(peers), Ordinary(after), c.id, Trusted !in c.flags && Static !in c.flags);
  }

  lemma PeerAdded(peers: Peers, inboundCount: int, maxPeers: nat, maxInbound: nat, c: Conn)
    requires Admitted(peers, inboundCount, maxPeers, maxInbound) && c.id !in peers
    requires Trusted in c.flags || Static in c.flags || |peers| < maxPeers
    requires Trusted in c.flags || Flag.Inbound !in c.flags || inboundCount < maxInbound
    ensures Admitted(peers[c.id := c], inboundCount + if Flag.Inbound in c.flags then 1 else 0, maxPeers, maxInbound)
  {
    hide InboundPeers, UntrustedInbound, Ordinary;
    OrdinaryArePeers(peers);
    SetsWith(peers, c);
  }

  lemma PeerDropped(peers: Peers, inboundCount: int, maxPeers: nat, maxInbound: nat, id: NodeId)
    requires Admitted(peers, inboundCount, maxPeers, maxInbound) && id in peers
    ensures Admitted(peers - {id}, inboundCount - if Flag.Inbound in peers[id].flags then 1 else 0, maxPeers, maxInbound)
  {
    hide InboundPeers, UntrustedInbound, Ordinary;
    SetsWithout(peers, id);
    SubsetSize(UntrustedInbound(peers - {id}), UntrustedInbound(peers));
    SubsetSize(Ordinary(peers - {id}), Ordinary(peers));
  }

  lemma SetsWithout(peers: Peers, id: NodeId)
    requires id in peers
    ensures InboundPeers(peers - {id}) == InboundPeers(peers) - {id}
    ensures id in InboundPeers(peers) <==> Flag.Inbound in peers[id].flags
    ensures UntrustedInbound(peers - {id}) <= UntrustedInbound(peers) && Ordinary(peers - {id}) <= Ordinary(peers)
  {
  }

  /** A dynamic connection comes from a dynamic dial that is still in progress, so it adds no new ID. */
  lemma DynPeerAdded(peers: Peers, dialing: map<NodeId, Flag>, max: nat, c: Conn)
    requires DynWithin(peers, dialing, max)
    requires Dyn in c.flags ==> c.id in dialing && dialing[c.id] == Dyn
    requires c.id !in peers
    ensures DynWithin(peers[c.id := c], dialing, max)
  {
    assert DynPeers(peers[c.id := c]) + DynDials(dialing) == DynPeers(peers) + DynDials(dialing);
  }

  lemma DynWithinShrinks(peers: Peers, peers': Peers, dialing: map<NodeId, Flag>, dialing': map<NodeId, Flag>, max: nat)
    requires DynWithin(peers, dialing, max)
    requires DynPeers(peers') <= DynPeers(peers) && DynDials(dialing') <= DynDials(dialing)
    ensures DynWithin(peers', dialing', max)
  {
    SubsetSize(DynPeers(peers') + DynDials(dialing'), DynPeers(peers) + DynDials(dialing));
  }

  function Share(n: nat, r: nat): (q: nat)
    requires r > 0
    ensures q <= n && q * r <= n < (q + 1) * r
  {
    var q := n / r;
    assert q * r <= n;
    assert q <= q * r;
    q
  }

  /** `maxDialedConns` */
  function DialedConns(maxPeers: nat, dialRatio: nat, noDial: bool, noDiscovery: bool): (n: nat)
    ensures n <= maxPeers && (noDiscovery || noDial ==> n == 0)
    // otherwise one in `dialRatio`, or in three if none is given
    ensures !noDiscovery && !noDial && dialRatio > 0 ==> n * dialRatio <= maxPeers < (n + 1) * dialRatio
    ensures !noDiscovery && !noDial && dialRatio == 0 ==> n * 3 <= maxPeers < (n + 1) * 3
  {
    if noDiscovery || noDial then 0 else Share(maxPeers, if dialRatio == 0 then DEFAULT_DIAL_RATIO else dialRatio)
  }

  /** Where a connection can come from: the listener, or a dial that is running. */
  ghost predicate Origin(c: Conn, running: seq<Task>) {
    || c.flags - {Trusted} == {Flag.Inbound}
    || exists t :: t in running && t.Dial? && t.dest.id == c.id && c.flags - {Trusted} == {t.flag}
  }

  lemma OriginOfDyn(c: Conn, running: seq<Task>, queued: seq<Task>, l: Ledger)
    requires Exact(multiset(running) + multiset(queued), l) && Origin(c, running)
    ensures Dyn in c.flags ==> c.id in l.dialing && l.dialing[c.id] == Dyn
  {
    if Dyn in c.flags {
      assert Dyn in c.flags - {Trusted};
      var t :| t in running && t.Dial? && t.dest.id == c.id && c.flags - {Trusted} == {t.flag};
      assert Dyn in {t.flag};
      var all := multiset(running) + multiset(queued);
      assert t in multiset(running);
      assert all[t] == Due(t, l);
    }
  }

  lemma TwoPlaces(all: seq<Task>, i: nat, j: nat)
    requires i < j < |all| && all[i] == all[j]
    ensures multiset(all)[all[i]] >= 2
  {
    assert all == all[..j] + [all[j]] + all[j + 1..];
    assert all[i] in all[..j];
    assert multiset(all) == multiset(all[..j]) + multiset{all[j]} + multiset(all[j + 1..]);
  }

  /** No two tasks, running or queued, dial one ID; at most one is a lookup, and at most one a timer. */
  lemma TasksAreDistinct(running: seq<Task>, queued: seq<Task>, l: Ledger, i: nat, j: nat)
    requires Exact(multiset(running) + multiset(queued), l)
    requires i < j < |running + queued|
    ensures var t, u := (running + queued)[i], (running + queued)[j];
            && (t.Dial? && u.Dial? ==> t.dest.id != u.dest.id)
            && !(t.Discover? && u.Discover?) && !(t.WaitExpire? && u.WaitExpire?)
  {
    hide Exact;
    var all := running + queued;
    assert multiset(all) == multiset(running) + multiset(queued);
    var t, u := all[i], all[j];
    assert t in multiset(all) && u in multiset(all);
    if (t.Dial? && u.Dial? && t.dest.id == u.dest.id) || (!t.Dial? && !u.Dial? && t.Discover? == u.Discover?) {
      OneTaskPerId(multiset(all), l, t, u);
      TwoPlaces(all, i, j);
      assert false;
    }
  }

  lemma Taken(running: seq<Task>, i: nat)
    requires i < |running|
    ensures multiset(running[..i] + running[i + 1..]) == multiset(running) - multiset{running[i]}
  {
    assert running == running[..i] + [running[i]] + running[i + 1..];
  }

  lemma LessOne(running: multiset<Task>, running': multiset<Task>, queued: multiset<Task>, t: Task)
    requires t in running && running' == running - multiset{t}
    ensures running' + queued == running + queued - multiset{t}
  {
  }

  lemma MovedFrom(running: seq<Task>, running': seq<Task>, rest: seq<Task>, ts: seq<Task>)
    requires running' + rest == running + ts
    ensures multiset(running') + multiset(rest) == multiset(running) + multiset(ts)
  {
    assert multiset(running' + rest) == multiset(running') + multiset(rest);
    assert multiset(running + ts) == multiset(running) + multiset(ts);
  }

  /** Every dial that was not there before is for an ID that is not connected, and was last dialed over 30 s ago. */
  ghost predicate NewDialsRested(before: multiset<Task>, after: multiset<Task>, last: map<NodeId, Time>, peers: Peers, now: Time) {
    forall t :: after[t] > before[t] && t.Dial? ==>
      t.dest.id !in peers && (t.dest.id in last ==> last[t.dest.id] + DIAL_HISTORY_EXPIRATION < now)
  }

  lemma NothingNew(tasks: multiset<Task>, last: map<NodeId, Time>, peers: Peers, now: Time)
    ensures NewDialsRested(tasks, tasks, last, peers, now)
  {
  }

  class Server {
    const maxPeers: nat
    const dialRatio: nat
    const noDial: bool
    const noDiscovery: bool
    const self: NodeId
    const protocols: seq<Protocol>
    const trusted: set<NodeId>
    const dialer: DialState
    var peers: Peers
    var inboundCount: int
    var running: seq<Task>
    var queued: seq<Task>

    function MaxDialedConns(): (n: nat)
      ensures n <= maxPeers
    {
      DialedConns(maxPeers, dialRatio, noDial, noDiscovery)
    }

    function MaxInboundConns(): nat { maxPeers - MaxDialedConns() }

    ghost function Tasks(): multiset<Task>
      reads this
    {
      multiset(running) + multiset(queued)
    }

    ghost predicate Valid()
      reads this, dialer, dialer.hist
    {
      && dialer.Valid(Tasks()) && dialer.maxDynDials == MaxDialedConns()
      && |running| <= MAX_ACTIVE_DIAL_TASKS
      && Admitted(peers, inboundCount, maxPeers, MaxInboundConns())
      && DynWithin(peers, dialer.dialing, MaxDialedConns())
    }

    constructor (maxPeers: nat, dialRatio: nat, noDial: bool, noDiscovery: bool, self: NodeId, protocols: seq<Protocol>,
                 trusted: set<NodeId>, allowed: Node -> bool, bootNodes: seq<Node>)
      ensures Valid() && peers == map[] && running == [] && queued == []
      ensures fresh(dialer) && fresh(dialer.hist)
      ensures this.self == self && this.protocols == protocols && this.trusted == trusted && this.maxPeers == maxPeers
      ensures this.dialRatio == dialRatio && this.noDial == noDial && this.noDiscovery == noDiscovery
      ensures dialer.self == (if noDiscovery then None else Some(self)) && dialer.allowed == allowed && dialer.bootNodes == bootNodes
    {
      this.maxPeers, this.dialRatio, this.noDial, this.noDiscovery := maxPeers, dialRatio, noDial, noDiscovery;
      this.self, this.protocols, this.trusted := self, protocols, trusted;
      dialer := new DialState(DialedConns(maxPeers, dialRatio, noDial, noDiscovery),
                              if noDiscovery then None else Some(self), allowed, bootNodes);
      peers, inboundCount, running, queued := map[], 0, [], [];
    }

    // ---- tasks

    /** `startTasks`: as many as there is room for; the rest is returned. */
    method StartTasks(ts: seq<Task>) returns (rest: seq<Task>)
      requires |running| <= MAX_ACTIVE_DIAL_TASKS
      modifies this`running
      ensures running + rest == old(running) + ts
      ensures |old(running)| <= |running| <= MAX_ACTIVE_DIAL_TASKS
      ensures rest == [] || |running| == MAX_ACTIVE_DIAL_TASKS
    {
      var i := 0;
      while |running| < MAX_ACTIVE_DIAL_TASKS && i < |ts|
        invariant i <= |ts| && running == old(running) + ts[..i]
        invariant |old(running)| <= |running| <= MAX_ACTIVE_DIAL_TASKS
      {
        running := running + [ts[i]];
        i := i + 1;
      }
      return ts[i..];
    }

    lemma Rested(before: multiset<Task>, nt: seq<Task>, peers: Peers, now: Time)
      requires forall t :: t in nt && t.Dial? ==> dialer.MayDial(t.dest, peers)
      requires dialer.clock == now
      ensures NewDialsRested(before, before + multiset(nt), dialer.last, peers, now)
    {
    }

    /** `scheduleTasks`: tasks wait only while sixteen are running, and otherwise every static node is taken care of. */
    method ScheduleTasks(now: Time, random: seq<Node>, n: nat)
      requires Valid() && now >= dialer.clock && |random| == Half(MaxDialedConns())
      modifies this, dialer, dialer.hist
      ensures Valid() && peers == old(peers) && inboundCount == old(inboundCount)
      ensures queued == [] || |running| == MAX_ACTIVE_DIAL_TASKS
      ensures |running| < MAX_ACTIVE_DIAL_TASKS ==>
                AllServed(dialer.statics, dialer.dialing, peers, multiset(dialer.hist.h))
      ensures |running| < MAX_ACTIVE_DIAL_TASKS && dialer.Needed(peers) > 0 ==> dialer.lookupRunning
      ensures now >= dialer.clock >= old(dialer.clock) && dialer.last == old(dialer.last)
      ensures NewDialsRested(old(Tasks()), Tasks(), old(dialer.last), peers, now)
    {
      hide Admitted, DynWithin, AllServed, DialState.Sound, Keyed, NewDialsRested, DialState.Needed;
      ghost var before := Tasks();
      ghost var running0 := running;
      var rest := StartTasks(queued);
      MovedFrom(running0, running, rest, queued);
      queued := rest;
      assert Tasks() == before;
      if |running| < MAX_ACTIVE_DIAL_TASKS {
        Refill(now, random, n);
      } else {
        NothingNew(before, dialer.last, peers, now);
      }
    }

    /** The dialer is asked for new tasks, and as many as possible are started. */
    method Refill(now: Time, random: seq<Node>, n: nat)
      requires Valid() && now >= dialer.clock && |random| == Half(MaxDialedConns())
      requires queued == [] && |running| < MAX_ACTIVE_DIAL_TASKS
      modifies this`running, this`queued, dialer, dialer.hist
      ensures Valid() && peers == old(peers) && inboundCount == old(inboundCount)
      ensures queued == [] || |running| == MAX_ACTIVE_DIAL_TASKS
      ensures AllServed(dialer.statics, dialer.dialing, peers, multiset(dialer.hist.h))
      ensures dialer.Needed(peers) > 0 ==> dialer.lookupRunning
      ensures dialer.clock == now && dialer.last == old(dialer.last)
      ensures NewDialsRested(old(Tasks()), Tasks(), old(dialer.last), peers, now)
    {
      hide Admitted, DynWithin, AllServed, Exact, Resting, Keyed, Pruned, Consumed, Rotated, NewDialsRested, DialState.Needed, DynPeers, DynDials;
      ghost var before, running0 := Tasks(), running;
      var nt := dialer.NewTasks(|running| + |queued|, peers, now, random, n, Tasks());
      Rested(before, nt, peers, now);
      var more := StartTasks(nt);
      MovedFrom(running0, running, more, nt);
      queued := queued + more;
      assert queued == more && before == multiset(running0);
      assert Tasks() == before + multiset(nt);
    }

    method AddStatic(n: Node)
      requires Valid()
      modifies dialer
      ensures Valid() && dialer.statics == old(dialer.statics)[n.id := n] && dialer.last == old(dialer.last)
    {
      hide Admitted, DynWithin, Exact, Resting;
      dialer.AddStatic(n, Tasks());
    }

    /** The disconnection this also asks of a connected peer arrives later, as an event of its own. */
    method RemoveStatic(id: NodeId)
      requires Valid()
      modifies dialer, dialer.hist
      ensures Valid() && dialer.statics == old(dialer.statics) - {id} && dialer.last == old(dialer.last) - {id}
    {
      hide Admitted, DynWithin, Exact, Resting;
      dialer.RemoveStatic(id, Tasks());
    }

    /** `delTask` */
    method DelTask(t: Task)
      requires t in running
      modifies this`running
      ensures multiset(running) == multiset(old(running)) - multiset{t} && |running| == |old(running)| - 1
    {
      var i := 0;
      while running[i] != t
        invariant i < |running| && t in running[i..]
        decreases |running| - i
      {
        assert running[i..] == [running[i]] + running[i + 1..];
        i := i + 1;
      }
      Taken(running, i);
      running := running[..i] + running[i + 1..];
    }

    /** A task got done; `results` is what it found if it was a lookup. */
    method TaskDone(t: Task, results: seq<Node>, now: Time)
      requires Valid() && t in running && now >= dialer.clock
      modifies this`running, dialer, dialer.hist
      ensures Valid() && Tasks() == old(Tasks()) - multiset{t}
      ensures |running| == |old(running)| - 1
      ensures dialer.last == if t.Dial? then old(dialer.last)[t.dest.id := now] else old(dialer.last)
    {
      hide Admitted, DynWithin, Exact, Resting;
      ghost var dialing, before := dialer.dialing, Tasks();
      dialer.TaskDone(t, results, now, Tasks());
      DynWithinShrinks(peers, peers, dialing, dialer.dialing, MaxDialedConns());
      ghost var running0 := running;
      DelTask(t);
      LessOne(multiset(running0), multiset(running), multiset(queued), t);
      assert Tasks() == before - multiset{t};
    }

    // ---- admission

    /** `encHandshakeChecks` */
    function Check(c: Conn): (r: Refusal)
      reads this
      ensures r == Accepted <==>
              && (Trusted in c.flags || Static in c.flags || |peers| < maxPeers)
              && (Trusted in c.flags || Flag.Inbound !in c.flags || inboundCount < MaxInboundConns())
              && c.id !in peers && c.id != self
    {
      if !(Trusted in c.flags || Static in c.flags) && |peers| >= maxPeers then TooManyPeers
      else if Trusted !in c.flags && Flag.Inbound in c.flags && inboundCount >= MaxInboundConns() then TooManyPeers
      else if c.id in peers then Refusal.AlreadyConnected
      else if c.id == self then Refusal.IsSelf
      else Accepted
    }

    /**
     After the encryption handshake: a trusted node is marked before the limits are checked, so that it is
     refused only if it is connected already or us. A mark is all that is added, where the connection comes
     from stays, and `AddPeer` would come to the same verdict now.
     */
    method PostHandshake(c: Conn) returns (c': Conn, r: Refusal)
      requires Valid()
      ensures c'.id == c.id && c'.flags - {Trusted} == c.flags - {Trusted}
      ensures Trusted in c'.flags <==> Trusted in c.flags || c.id in trusted
      ensures r == Accepted <==>
                && c.id !in peers && c.id != self
                && (c.id in trusted || Trusted in c.flags
                    || ((Static in c.flags || |peers| < maxPeers) && (Flag.Inbound in c.flags ==> inboundCount < MaxInboundConns())))
      ensures Origin(c, running) ==> Origin(c', running)
      ensures r == Check(c')
    {
      c' := c;
      if c.id in trusted {
        c' := c.(flags := c.flags + {Trusted});
      }
      r := Check(c');
    }

    /** After the protocol handshake: the checks are repeated, and a connection that passes them becomes a peer. */
    method AddPeer(c: Conn, caps: seq<Cap>) returns (r: Refusal)
      requires Valid() && Origin(c, running)
      modifies this`peers, this`inboundCount
      ensures Valid()
      ensures r == if protocols != [] && (forall d :: d in caps ==> !Matches(protocols, d)) then UselessPeer else old(Check(c))
      ensures peers == if r == Accepted then old(peers)[c.id := c] else old(peers)
    {
      hide Admitted, DynWithin, Exact, Resting, Matches, Origin, DialState.Sound, Keyed;
      r := Check(c);
      if |protocols| > 0 {
        var n := CountMatching(protocols, caps);
        if n == 0 {
          r := UselessPeer;
        }
      }
      if r == Accepted {
        assert Dyn in c.flags ==> c.id in dialer.dialing && dialer.dialing[c.id] == Dyn by { DynOrigin(c); }
        PeerAdded(peers, inboundCount, maxPeers, MaxInboundConns(), c);
        DynPeerAdded(peers, dialer.dialing, MaxDialedConns(), c);
        peers := peers[c.id := c];
        if Flag.Inbound in c.flags {
          inboundCount := inboundCount + 1;
        }
      }
    }

    lemma DynOrigin(c: Conn)
      requires dialer.Valid(Tasks()) && Origin(c, running)
      ensures Dyn in c.flags ==> c.id in dialer.dialing && dialer.dialing[c.id] == Dyn
    {
      hide Exact, Origin, Resting;
      OriginOfDyn(c, running, queued, dialer.Books());
    }

    /** A peer disconnected. */
    method DropPeer(id: NodeId)
      requires Valid() && id in peers
      modifies this`peers, this`inboundCount
      ensures Valid() && peers == old(peers) - {id}
    {
      hide Admitted, DynWithin, DialState.Sound, Keyed;
      PeerDropped(peers, inboundCount, maxPeers, MaxInboundConns(), id);
      DynWithinShrinks(peers, peers - {id}, dialer.dialing, dialer.dialing, MaxDialedConns());
      var p := peers[id];
      peers := peers - {id};
      if Flag.Inbound in p.flags {
        inboundCount := inboundCount - 1;
      }
    }

    /** What holds between any two events: the limits on peers, on dynamic connections and on tasks. */
    lemma Limits()
      requires Valid()
      ensures |running| <= MAX_ACTIVE_DIAL_TASKS
      ensures inboundCount == |InboundPeers(peers)| && |UntrustedInbound(peers)| <= maxPeers - MaxDialedConns()
      ensures |Ordinary(peers)| <= maxPeers
      ensures |DynPeers(peers) + DynDials(dialer.dialing)| <= MaxDialedConns()
      ensures forall id :: id in dialer.dialing <==> exists t :: t in running + queued && t.Dial? && t.dest.id == id
      ensures dialer.lookupRunning <==> Discover in running + queued
    {
      hide Exact, Resting, Keyed;
      forall id ensures id in dialer.dialing <==> exists t :: t in running + queued && t.Dial? && t.dest.id == id {
        DialIsOutstanding(Tasks(), dialer.Books(), id);
        InTasks();
      }
      InTasks();
      LookupIsOutstanding(Tasks(), dialer.Books());
    }

    lemma InTasks()
      ensures forall t :: t in Tasks() <==> t in running + queued
    {
    }
  }

  lemma LookupIsOutstanding(tasks: multiset<Task>, l: Ledger)
    requires Exact(tasks, l)
    ensures l.lookup <==> Discover in tasks
  {
    assert tasks[Discover] == Due(Discover, l);
  }
}
