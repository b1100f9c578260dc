/**
 The pending-reply queue of the discovery v4 transport (`p2p/discover/udp.go`). Requests wait in
 the order they were made; every one gets one verdict on a channel that holds one. Removing an
 element of Go's linked list clears its link to the next one, so each pass over the queue stops at
 the first request it removes.
 */
module UdpLoop {
  import opened Collections

  type Time = int
  type NodeId = nat
  type PacketType = nat

  const MILLISECOND: Time := 1_000_000
  const RESP_TIMEOUT := 500 * MILLISECOND
  const NTP_FAILURE_THRESHOLD := 32

  datatype Pending = Pending(id: nat, from: NodeId, ptype: PacketType, deadline: Time)
  datatype Verdict = Done | Timeout | ClockWarp | Closed
  type Verdicts = map<nat, Verdict>

  // ---------------------------------------------------------------- the queue

  ghost predicate DistinctIds(q: seq<Pending>) {
    forall i, j :: 0 <= i < j < |q| ==> q[i].id != q[j].id
  }

  ghost predicate Queued(q: seq<Pending>, id: nat) {
    exists i :: 0 <= i < |q| && q[i].id == id
  }

  /** Of the requests made so far, exactly those that are not queued have a verdict. */
  ghost predicate Balanced(q: seq<Pending>, verdicts: Verdicts, issued: nat) {
    && DistinctIds(q)
    && (forall id: nat :: Queued(q, id) ==> id < issued)
    && (forall id: nat :: id in verdicts <==> id < issued && !Queued(q, id))
  }

  ghost predicate Sorted(q: seq<Pending>) {
    forall i, j :: 0 <= i < j < |q| ==> q[i].deadline <= q[j].deadline
  }

  /** What holds as long as the clock has not gone back: nobody waits for longer than the response timeout. */
  ghost predicate Timely(q: seq<Pending>, verdicts: Verdicts, clock: Time) {
    && Sorted(q)
    && (forall i :: 0 <= i < |q| ==> q[i].deadline <= clock + RESP_TIMEOUT)
    && (forall id :: id in verdicts ==> verdicts[id] != ClockWarp)
  }

  lemma QueuedWithout(q: seq<Pending>, i: nat, id: nat)
    requires i < |q| && DistinctIds(q)
    ensures Queued(Without(q, i), id) <==> Queued(q, id) && id != q[i].id
  {
    var r := Without(q, i);
    if Queued(r, id) {
      var k :| 0 <= k < |r| && r[k].id == id;
      assert q[if k < i then k else k + 1].id == id;
    }
    if Queued(q, id) && id != q[i].id {
      var k :| 0 <= k < |q| && q[k].id == id;
      assert r[if k < i then k else k - 1].id == id;
    }
  }

  lemma Resolved(q: seq<Pending>, verdicts: Verdicts, issued: nat, i: nat, v: Verdict)
    requires Balanced(q, verdicts, issued) && i < |q|
    ensures Balanced(Without(q, i), verdicts[q[i].id := v], issued)
    ensures q[i].id !in verdicts
  {
    hide Queued;
    assert Queued(q, q[i].id) by { QueuedAt(q, i); }
    forall id: nat ensures Queued(Without(q, i), id) <==> Queued(q, id) && id != q[i].id {
      QueuedWithout(q, i, id);
    }
  }

  lemma QueuedAt(q: seq<Pending>, i: nat)
    requires i < |q|
    ensures Queued(q, q[i].id)
  {
  }

  lemma Joined(q: seq<Pending>, verdicts: Verdicts, issued: nat, p: Pending)
    requires Balanced(q, verdicts, issued) && p.id == issued
    ensures Balanced(q + [p], verdicts, issued + 1)
  {
    forall id: nat ensures Queued(q + [p], id) <==> Queued(q, id) || id == issued {
      if Queued(q, id) {
        var k :| 0 <= k < |q| && q[k].id == id;
        assert (q + [p])[k].id == id;
      }
      if id == issued {
        assert (q + [p])[|q|].id == id;
      }
    }
    assert forall k :: 0 <= k < |q| ==> Queued(q, q[k].id);
  }

  lemma TimelyWithout(q: seq<Pending>, verdicts: Verdicts, clock: Time, i: nat, v: Verdict)
    requires Timely(q, verdicts, clock) && i < |q| && v != ClockWarp
    ensures Timely(Without(q, i), verdicts[q[i].id := v], clock)
  {
  }

  lemma TimelyWith(q: seq<Pending>, verdicts: Verdicts, clock: Time, p: Pending, now: Time)
    requires Timely(q, verdicts, clock) && now >= clock && p.deadline == now + RESP_TIMEOUT
    ensures Timely(q + [p], verdicts, now)
  {
  }

  /** The timer was set for the head of the queue, or for a request that has left the queue. */
  ghost predicate Armed(q: seq<Pending>, timer: Option<Time>, nextTimeout: Option<nat>) {
    nextTimeout.Some? && Queued(q, nextTimeout.value) ==> q[0].id == nextTimeout.value && timer == Some(q[0].deadline)
  }

  lemma ArmedWithout(q: seq<Pending>, timer: Option<Time>, nextTimeout: Option<nat>, i: nat)
    requires Armed(q, timer, nextTimeout) && DistinctIds(q) && i < |q|
    ensures Armed(Without(q, i), timer, nextTimeout)
  {
    hide Queued;
    if nextTimeout.Some? {
      QueuedWithout(q, i, nextTimeout.value);
    }
  }

  lemma ArmedWith(q: seq<Pending>, timer: Option<Time>, nextTimeout: Option<nat>, p: Pending, verdicts: Verdicts, issued: nat)
    requires Armed(q, timer, nextTimeout) && Balanced(q, verdicts, issued) && p.id == issued
    requires nextTimeout.Some? ==> nextTimeout.value < issued
    ensures Armed(q + [p], timer, nextTimeout)
  {
    if nextTimeout.Some? && Queued(q + [p], nextTimeout.value) {
      var k :| 0 <= k < |q + [p]| && (q + [p])[k].id == nextTimeout.value;
      assert q[k].id == nextTimeout.value;
    }
  }

  /** Requests that the callback can complete: the first that matches and says it is done. */
  predicate Completes(p: Pending, from: NodeId, ptype: PacketType, done: nat -> bool) {
    p.from == from && p.ptype == ptype && done(p.id)
  }

  function FirstCompleted(q: seq<Pending>, from: NodeId, ptype: PacketType, done: nat -> bool): (i: nat)
    ensures i <= |q|
    ensures i < |q| ==> Completes(q[i], from, ptype, done)
    ensures forall j :: 0 <= j < i ==> !Completes(q[j], from, ptype, done)
  {
    if q == [] || Completes(q[0], from, ptype, done) then 0 else 1 + FirstCompleted(q[1..], from, ptype, done)
  }

  function FirstExpired(q: seq<Pending>, now: Time): (i: nat)
    ensures i <= |q|
    ensures i < |q| ==> now >= q[i].deadline
    ensures forall j :: 0 <= j < i ==> now < q[j].deadline
  {
    if q == [] || now >= q[0].deadline then 0 else 1 + FirstExpired(q[1..], now)
  }

  class Loop {
    var plist: seq<Pending>
    var timer: Option<Time>        // when the timer fires, if it is running
    var nextTimeout: Option<nat>   // the request it was set for
    var contTimeouts: nat
    var closed: bool
    var verdicts: Verdicts         // what was sent to each request's channel
    var issued: nat
    ghost var clock: Time          // the time last read
    ghost var steady: bool         // the clock has never gone back

    ghost predicate Valid()
      reads this
    {
      && Balanced(plist, verdicts, issued)
      && (steady ==> Timely(plist, verdicts, clock))
      && Armed(plist, timer, nextTimeout)
      && (nextTimeout.Some? ==> nextTimeout.value < issued)
      && (closed ==> plist == [])
      && contTimeouts <= NTP_FAILURE_THRESHOLD
    }

    constructor ()
      ensures Valid() && plist == [] && verdicts == map[] && issued == 0 && !closed && steady && clock == 0
      ensures timer == None && nextTimeout == None && contTimeouts == 0
    {
      plist, timer, nextTimeout, contTimeouts := [], None, None, 0;
      closed, verdicts, issued := false, map[], 0;
      clock, steady := 0, true;
    }

    ghost method Read(now: Time)
      requires Valid()
      modifies `clock, `steady
      ensures Valid() && clock == now && (steady <==> old(steady) && now >= old(clock))
    {
      hide Balanced, Armed;
      steady := steady && now >= clock;
      clock := now;
    }

    /** Sends the verdict of the request at `i`, whose channel is empty, and takes it off the queue. */
    method Settle(i: nat, v: Verdict)
      requires Valid() && i < |plist| && (v == ClockWarp ==> !steady)
      modifies `plist, `verdicts
      ensures Valid() && plist == Without(old(plist), i) && verdicts == old(verdicts)[old(plist)[i].id := v]
      ensures old(plist)[i].id !in old(verdicts)
    {
      hide Timely, Armed, Queued;
      Resolved(plist, verdicts, issued, i, v);
      if steady {
        TimelyWithout(plist, verdicts, clock, i, v);
      }
      ArmedWithout(plist, timer, nextTimeout, i);
      verdicts := verdicts[plist[i].id := v];
      plist := plist[..i] + plist[i + 1..];
    }

    /**
     `resetTimeout`: a request that would wait for a second or more is given up as a victim of the clock,
     but then the pass ends, and the timer is left off whatever else is queued.
     */
    method ResetTimeout(now: Time)
      requires Valid() && !closed
      modifies this
      ensures Valid() && !closed && issued == old(issued) && clock == (if Resets(old(plist), old(nextTimeout)) then now else old(clock))
      ensures var warp := Resets(old(plist), old(nextTimeout)) && old(plist)[0].deadline - now >= 2 * RESP_TIMEOUT;
              && (warp ==> plist == Without(old(plist), 0) && verdicts == old(verdicts)[old(plist)[0].id := ClockWarp]
                           && timer == None && nextTimeout == None && !steady)
              && (!warp ==> plist == old(plist) && verdicts == old(verdicts)
                            && (plist != [] ==> timer == Some(plist[0].deadline) && nextTimeout == Some(plist[0].id)))
      ensures steady <==> old(steady) && (Resets(old(plist), old(nextTimeout)) ==> now >= old(clock))
      ensures !Resets(old(plist), old(nextTimeout)) ==> timer == old(timer) && nextTimeout == old(nextTimeout)
      ensures contTimeouts == old(contTimeouts)
    {
      hide Balanced;
      if plist == [] || nextTimeout == Some(plist[0].id) {
        if plist != [] {
          QueuedAt(plist, 0);
        }
        return;
      }
      Read(now);
      BoundedIds(0);
      if plist[0].deadline - now < 2 * RESP_TIMEOUT {
        nextTimeout := Some(plist[0].id);
        timer := Some(plist[0].deadline);
        return;
      }
      Settle(0, ClockWarp);
      nextTimeout := None;
      timer := None;
    }

    lemma BoundedIds(i: nat)
      requires Valid() && i < |plist|
      ensures plist[i].id < issued
    {
      QueuedAt(plist, i);
    }

    static predicate Resets(q: seq<Pending>, nextTimeout: Option<nat>) {
      q != [] && nextTimeout != Some(q[0].id)
    }

    /** `addpending`, and the refusal of a request that comes after the loop has ended. */
    method Add(from: NodeId, ptype: PacketType, now: Time) returns (id: nat)
      requires Valid()
      modifies this
      ensures Valid() && id == old(issued) && issued == id + 1 && closed == old(closed)
      ensures if closed then plist == old(plist) && verdicts == old(verdicts)[id := Closed]
              else plist == old(plist) + [Pending(id, from, ptype, now + RESP_TIMEOUT)] && verdicts == old(verdicts)
      ensures timer == old(timer) && nextTimeout == old(nextTimeout)
      ensures steady <==> old(steady) && (closed || now >= old(clock))
      ensures clock == if closed then old(clock) else now
    {
      id := issued;
      if closed {
        RefusedNow();
        verdicts, issued := verdicts[id := Closed], issued + 1;
        return;
      }
      hide Balanced, Timely, Armed;
      ghost var was := clock;
      var p := Pending(id, from, ptype, now + RESP_TIMEOUT);
      Joined(plist, verdicts, issued, p);
      ArmedWith(plist, timer, nextTimeout, p, verdicts, issued);
      if steady && now >= clock {
        TimelyWith(plist, verdicts, clock, p, now);
      }
      steady := steady && now >= clock;
      clock := now;
      plist := plist + [p];
      issued := issued + 1;
    }

    lemma RefusedNow()
      requires Valid() && closed
      ensures Balanced(plist, verdicts[issued := Closed], issued + 1)
    {
    }

    /** A reply: it is matched if any request waits for one of its kind from its sender; at most one request is done. */
    method Reply(from: NodeId, ptype: PacketType, done: nat -> bool) returns (matched: bool)
      requires Valid() && !closed
      modifies this
      ensures Valid() && !closed && issued == old(issued) && clock == old(clock) && steady == old(steady)
      ensures matched <==> exists i :: 0 <= i < |old(plist)| && old(plist)[i].from == from && old(plist)[i].ptype == ptype
      ensures var i := FirstCompleted(old(plist), from, ptype, done);
              if i < |old(plist)| then plist == Without(old(plist), i) && verdicts == old(verdicts)[old(plist)[i].id := Done]
              else plist == old(plist) && verdicts == old(verdicts)
      ensures timer == old(timer) && nextTimeout == old(nextTimeout)
      ensures contTimeouts == if matched then 0 else old(contTimeouts)
    {
      hide Balanced, Timely, Armed;
      matched := false;
      var el := 0;
      while el < |plist|
        invariant el <= |plist| && Valid() && !closed && issued == old(issued) && clock == old(clock) && steady == old(steady)
        invariant plist == old(plist) && verdicts == old(verdicts)
        invariant timer == old(timer) && nextTimeout == old(nextTimeout)
        invariant contTimeouts == if matched then 0 else old(contTimeouts)
        invariant matched <==> exists i :: 0 <= i < el && plist[i].from == from && plist[i].ptype == ptype
        invariant forall i :: 0 <= i < el ==> !Completes(plist[i], from, ptype, done)
      {
        var p := plist[el];
        if p.from == from && p.ptype == ptype {
          matched := true;
          contTimeouts := 0;
          if done(p.id) {
            Settle(el, Done);
            return;
          }
        }
        el := el + 1;
      }
    }

    /** The timer fires: at most the first request that has expired is told so. */
    method Fire(now: Time)
      requires Valid() && !closed
      modifies this
      ensures Valid() && !closed && issued == old(issued) && clock == old(clock) && steady == old(steady)
      ensures var i := FirstExpired(old(plist), now);
              if i < |old(plist)| then plist == Without(old(plist), i) && verdicts == old(verdicts)[old(plist)[i].id := Timeout]
              else plist == old(plist) && verdicts == old(verdicts)
      ensures nextTimeout == None && timer == None
      // the count of timeouts in a row starts again once it is above the threshold, and then the clock is checked
      ensures contTimeouts == if FirstExpired(old(plist), now) == |old(plist)| then old(contTimeouts)
                              else if old(contTimeouts) == NTP_FAILURE_THRESHOLD then 0 else old(contTimeouts) + 1
    {
      hide Balanced, Timely, Queued;
      nextTimeout := None;
      timer := None;
      var el := 0;
      while el < |plist|
        invariant el <= |plist| && Valid() && !closed && issued == old(issued) && clock == old(clock) && steady == old(steady)
        invariant plist == old(plist) && verdicts == old(verdicts) && nextTimeout == None && timer == None
        invariant contTimeouts == old(contTimeouts)
        invariant forall i :: 0 <= i < el ==> now < plist[i].deadline
      {
        if now >= plist[el].deadline {
          Settle(el, Timeout);
          contTimeouts := if contTimeouts + 1 > NTP_FAILURE_THRESHOLD then 0 else contTimeouts + 1;
          return;
        }
        el := el + 1;
      }
    }

    /** The transport is closed: every request that still waits is told so, and then each has its one verdict. */
    method Close()
      requires Valid() && !closed
      modifies this
      ensures Valid() && closed && issued == old(issued)
      ensures forall id: nat :: id in verdicts <==> id < issued
      ensures forall id :: id in verdicts ==>
                verdicts[id] == if id in old(verdicts) then old(verdicts)[id] else Closed
    {
      hide Timely, Armed, Queued;
      while plist != []
        invariant Valid() && issued == old(issued) && old(verdicts.Keys) <= verdicts.Keys && !closed
        invariant forall id :: id in verdicts ==>
                    verdicts[id] == if id in old(verdicts) then old(verdicts)[id] else Closed
        decreases |plist|
      {
        Settle(0, Closed);
      }
      NobodyWaits(plist);
      closed := true;
    }

    static lemma NobodyWaits(q: seq<Pending>)
      requires q == []
      ensures forall id: nat :: !Queued(q, id)
    {
    }
  }

  // ---------------------------------------------------------------- whole runs

  datatype Event = Request(from: NodeId, ptype: PacketType) | Answer(from: NodeId, ptype: PacketType, done: nat -> bool) | Tick

  /** One turn of the loop: when `resetTimeout` reads the clock, and then the event and its time. */
  datatype Turn = Turn(reset: Time, now: Time, event: Event)

  predicate ClockForward(turns: seq<Turn>) {
    && (forall i :: 0 <= i < |turns| ==> 0 <= turns[i].reset <= turns[i].now)
    && (forall i :: 0 < i < |turns| ==> turns[i - 1].now <= turns[i].reset)
  }

  /** The turns that make a request, in order: the one made by turn `Made(turns)[id]` has the number `id`. */
  function Made(turns: seq<Turn>): (made: seq<nat>)
    ensures forall id :: 0 <= id < |made| ==> made[id] < |turns| && turns[made[id]].event.Request?
    ensures forall i :: 0 <= i < |turns| && turns[i].event.Request? ==> i in made
    ensures forall a, b :: 0 <= a < b < |made| ==> made[a] < made[b]
  {
    if turns == [] then []
    else Made(turns[..|turns| - 1]) + if turns[|turns| - 1].event.Request? then [|turns| - 1] else []
  }

  /** Whether turn `i` can give this verdict to the request made by turn `o`, whose number is `id`. */
  ghost predicate Earned(turns: seq<Turn>, o: nat, i: nat, id: nat, v: Verdict) {
    && o < i < |turns| && turns[o].event.Request?
    && var deadline := turns[o].now + RESP_TIMEOUT;
       match v
       case Done => turns[i].event.Answer? && turns[i].event.from == turns[o].event.from && turns[i].event.ptype == turns[o].event.ptype
                    && turns[i].event.done(id)
       case Timeout => turns[i].event.Tick? && turns[i].now >= deadline
       case ClockWarp => deadline - turns[i].reset >= 2 * RESP_TIMEOUT
       case Closed => false
  }

  /** The turn that gave each verdict. */
  type Times = map<nat, nat>

  /** The queue holds requests as they were made, in the order of their numbers. */
  ghost predicate QueueOk(turns: seq<Turn>, made: seq<nat>, q: seq<Pending>) {
    && (forall k :: 0 <= k < |q| ==> Recorded(turns, made, q[k]))
    && (forall a, b :: 0 <= a < b < |q| ==> q[a].id < q[b].id)
  }

  ghost predicate Recorded(turns: seq<Turn>, made: seq<nat>, p: Pending) {
    && p.id < |made| && made[p.id] < |turns| && turns[made[p.id]].event == Request(p.from, p.ptype)
    && p.deadline == turns[made[p.id]].now + RESP_TIMEOUT
  }

  /** Every verdict was earned in the turn that gave it, and no turn gave the same verdict twice. */
  ghost predicate AllEarned(turns: seq<Turn>, made: seq<nat>, verdicts: Verdicts, at: Times) {
    && verdicts.Keys == at.Keys
    && (forall id :: id in at ==> id < |made| && Earned(turns, made[id], at[id], id, verdicts[id]))
    && (forall a, b :: a in at && b in at && at[a] == at[b] && verdicts[a] == verdicts[b] ==> a == b)
  }

  /** The request still waits when the event of turn `k` comes. */
  ghost predicate Waits(made: seq<nat>, verdicts: Verdicts, at: Times, id: nat, k: nat) {
    && id < |made| && made[id] < k
    && (id in at && id in verdicts ==> at[id] > k || (at[id] == k && verdicts[id] != ClockWarp))
  }

  /** If turn `k` can complete or time out a request that waits, it does so for that one or for one made before it. */
  ghost predicate Prompt(turns: seq<Turn>, made: seq<nat>, verdicts: Verdicts, at: Times, k: nat) {
    forall id: nat, v :: (v == Done || v == Timeout) && Waits(made, verdicts, at, id, k) && Earned(turns, made[id], k, id, v) ==>
      Served(verdicts, at, id, v, k)
  }

  ghost predicate Served(verdicts: Verdicts, at: Times, id: nat, v: Verdict, k: nat) {
    exists first: nat :: first <= id && first in at && at[first] == k && first in verdicts && verdicts[first] == v
  }

  ghost predicate PromptSoFar(turns: seq<Turn>, made: seq<nat>, verdicts: Verdicts, at: Times, n: nat) {
    forall k: nat :: k < n ==> Prompt(turns, made, verdicts, at, k)
  }

  /** Whether the event of turn `i`, or its look at the clock, can give this verdict to a request in the queue. */
  ghost predicate Due(turns: seq<Turn>, i: nat, p: Pending, v: Verdict)
    requires i < |turns|
  {
    match v
    case Done => turns[i].event.Answer? && Completes(p, turns[i].event.from, turns[i].event.ptype, turns[i].event.done)
    case Timeout => turns[i].event.Tick? && turns[i].now >= p.deadline
    case ClockWarp => p.deadline - turns[i].reset >= 2 * RESP_TIMEOUT
    case Closed => false
  }

  lemma DueIsEarned(turns: seq<Turn>, i: nat, made: seq<nat>, p: Pending, v: Verdict)
    requires i < |turns| && Recorded(turns, made, p) && made[p.id] < i
    ensures Due(turns, i, p, v) <==> Earned(turns, made[p.id], i, p.id, v)
  {
  }

  /** In turn `i` the request at `p` gets a verdict that the turn can give it. */
  lemma SettledNow(turns: seq<Turn>, i: nat, made: seq<nat>, q: seq<Pending>, verdicts: Verdicts, at: Times, p: nat, v: Verdict)
    requires i < |turns| && QueueOk(turns, made, q) && p < |q| && made[q[p].id] < i && q[p].id !in verdicts && Due(turns, i, q[p], v)
    requires AllEarned(turns, made, verdicts, at) && PromptSoFar(turns, made, verdicts, at, i)
    requires forall b :: b in at && b in verdicts && at[b] == i ==> verdicts[b] != v
    ensures var id := q[p].id;
            && QueueOk(turns, made, Without(q, p)) && AllEarned(turns, made, verdicts[id := v], at[id := i])
            && PromptSoFar(turns, made, verdicts[id := v], at[id := i], i)
  {
    hide Earned, Due, Prompt;
    DueIsEarned(turns, i, made, q[p], v);
    var verdicts', at' := verdicts[q[p].id := v], at[q[p].id := i];
    forall k: nat | k < i ensures Prompt(turns, made, verdicts', at', k) {
      PromptKept(turns, made, verdicts, at, q[p].id, v, i, k);
    }
  }

  lemma PromptKept(turns: seq<Turn>, made: seq<nat>, verdicts: Verdicts, at: Times, id: nat, v: Verdict, i: nat, k: nat)
    requires id !in at && id !in verdicts && k < i && Prompt(turns, made, verdicts, at, k)
    ensures Prompt(turns, made, verdicts[id := v], at[id := i], k)
  {
    hide Earned;
    forall x: nat, u | (u == Done || u == Timeout) && Waits(made, verdicts[id := v], at[id := i], x, k) && Earned(turns, made[x], k, x, u)
      ensures Served(verdicts[id := v], at[id := i], x, u, k) {
      assert Waits(made, verdicts, at, x, k);
      assert Served(verdicts, at, x, u, k);
      var first: nat :| first <= x && first in at && at[first] == k && first in verdicts && verdicts[first] == u;
      assert first in at[id := i] && at[id := i][first] == k && verdicts[id := v][first] == u;
    }
  }

  /** The turn after its event: the first request in the queue that it can serve has been served, if there is one. */
  lemma PromptNow(turns: seq<Turn>, i: nat, made: seq<nat>, q: seq<Pending>, verdicts: Verdicts, at: Times,
                  p: nat, v: Verdict, verdicts': Verdicts, at': Times)
    requires i < |turns| && QueueOk(turns, made, q) && p <= |q| && (forall o :: o in made ==> o < i)
    requires turns[i].event.Answer? ==> v == Done
    requires turns[i].event.Tick? ==> v == Timeout
    requires !turns[i].event.Request?
    requires forall k :: 0 <= k < p ==> !Due(turns, i, q[k], v)
    requires AllEarned(turns, made, verdicts, at) && AllWaiting(made, q, verdicts, at, i)
    requires if p < |q| then verdicts' == verdicts[q[p].id := v] && at' == at[q[p].id := i] else verdicts' == verdicts && at' == at
    ensures Prompt(turns, made, verdicts', at', i)
  {
    hide Earned, Due;
    forall id: nat, u | (u == Done || u == Timeout) && Waits(made, verdicts', at', id, i) && Earned(turns, made[id], i, id, u)
      ensures Served(verdicts', at', id, u, i) {
      OneKind(turns, made[id], i, id, u);
      assert u == v;
      if !(p < |q| && id == q[p].id) {
        assert Waits(made, verdicts, at, id, i);
        var k :| 0 <= k < |q| && q[k].id == id;
        assert Recorded(turns, made, q[k]);
        DueIsEarned(turns, i, made, q[k], v);
        assert p <= k;
      }
      assert q[p].id <= id && q[p].id in at' && at'[q[p].id] == i && verdicts'[q[p].id] == v;
    }
  }

  lemma OneKind(turns: seq<Turn>, o: nat, i: nat, id: nat, v: Verdict)
    requires Earned(turns, o, i, id, v)
    ensures v == Done ==> turns[i].event.Answer?
    ensures v == Timeout ==> turns[i].event.Tick?
  {
  }

  /** Whatever still waits when the event of turn `i` comes is in the queue. */
  ghost predicate AllWaiting(made: seq<nat>, q: seq<Pending>, verdicts: Verdicts, at: Times, i: nat) {
    forall id: nat :: Waits(made, verdicts, at, id, i) ==> exists k :: 0 <= k < |q| && q[k].id == id
  }

  lemma QueueHasAll(q: seq<Pending>, made: seq<nat>, verdicts: Verdicts, at: Times, issued: nat, i: nat)
    requires Balanced(q, verdicts, issued) && issued == |made| && verdicts.Keys == at.Keys
    requires forall id :: id in at ==> at[id] < i || (at[id] == i && verdicts[id] == ClockWarp)
    ensures AllWaiting(made, q, verdicts, at, i)
  {
    forall id: nat | Waits(made, verdicts, at, id, i) ensures exists k :: 0 <= k < |q| && q[k].id == id {
      assert id !in verdicts;
      assert Queued(q, id);
    }
  }

  /** Requests are numbered in the order of the turns that made them. */
  lemma MadeStep(turns: seq<Turn>, i: nat)
    requires i < |turns|
    ensures Made(turns[..i + 1]) == if turns[i].event.Request? then Made(turns[..i]) + [i] else Made(turns[..i])
  {
    assert turns[..i + 1][..i] == turns[..i];
  }

  /** A request that is made in turn `i`. */
  lemma MadeNow(turns: seq<Turn>, i: nat, made: seq<nat>, q: seq<Pending>, verdicts: Verdicts, at: Times, p: Pending)
    requires i < |turns| && QueueOk(turns, made, q) && AllEarned(turns, made, verdicts, at) && PromptSoFar(turns, made, verdicts, at, i)
    requires turns[i].event == Request(p.from, p.ptype) && p.deadline == turns[i].now + RESP_TIMEOUT && p.id == |made|
    ensures QueueOk(turns, made + [i], q + [p]) && AllEarned(turns, made + [i], verdicts, at)
    ensures PromptSoFar(turns, made + [i], verdicts, at, i + 1)
  {
    hide Earned, Prompt;
    forall k: nat | k < i + 1 ensures Prompt(turns, made + [i], verdicts, at, k) {
      if k < i {
        PromptMade(turns, made, verdicts, at, i, k);
      } else {
        NothingToServe(turns, made + [i], verdicts, at, i);
      }
    }
  }

  lemma PromptMade(turns: seq<Turn>, made: seq<nat>, verdicts: Verdicts, at: Times, i: nat, k: nat)
    requires k < i && Prompt(turns, made, verdicts, at, k)
    ensures Prompt(turns, made + [i], verdicts, at, k)
  {
    hide Earned;
    forall id: nat, v | (v == Done || v == Timeout) && Waits(made + [i], verdicts, at, id, k) && Earned(turns, (made + [i])[id], k, id, v)
      ensures Served(verdicts, at, id, v, k) {
      assert id < |made|;
      assert Waits(made, verdicts, at, id, k);
    }
  }

  lemma NothingToServe(turns: seq<Turn>, made: seq<nat>, verdicts: Verdicts, at: Times, i: nat)
    requires i < |turns| && turns[i].event.Request?
    ensures Prompt(turns, made, verdicts, at, i)
  {
  }

  /** What is known of the first `i` turns. */
  ghost predicate Books(turns: seq<Turn>, i: nat, q: seq<Pending>, verdicts: Verdicts, at: Times)
    requires i <= |turns|
  {
    var made := Made(turns[..i]);
    && QueueOk(turns, made, q) && AllEarned(turns, made, verdicts, at) && PromptSoFar(turns, made, verdicts, at, i)
    && forall id :: id in at ==> at[id] < i
  }

  /** The first thing in a turn. */
  method BeginTurn(l: Loop, turns: seq<Turn>, i: nat, ghost made: seq<nat>, ghost at: Times) returns (ghost at': Times)
    requires l.Valid() && !l.closed && i < |turns| && (forall o :: o in made ==> o < i)
    requires QueueOk(turns, made, l.plist) && AllEarned(turns, made, l.verdicts, at) && PromptSoFar(turns, made, l.verdicts, at, i)
    requires forall id :: id in at ==> at[id] < i
    modifies l
    ensures l.Valid() && !l.closed && l.issued == old(l.issued)
    ensures QueueOk(turns, made, l.plist) && AllEarned(turns, made, l.verdicts, at') && PromptSoFar(turns, made, l.verdicts, at', i)
    ensures forall id :: id in at' ==> at'[id] < i || (at'[id] == i && l.verdicts[id] == ClockWarp)
    ensures old(l.steady) && old(l.clock) <= turns[i].reset ==> l.steady && l.clock <= turns[i].reset
  {
    hide Balanced, Timely, Armed, Queued, Without, Earned, PromptSoFar;
    ghost var q, vs := l.plist, l.verdicts;
    ghost var warp := Loop.Resets(q, l.nextTimeout) && q[0].deadline - turns[i].reset >= 2 * RESP_TIMEOUT;
    at' := at;
    if q != [] {
      HeadWaits(q, vs, l.issued);
    }
    l.ResetTimeout(turns[i].reset);
    if warp {
      assert Recorded(turns, made, q[0]) && made[q[0].id] in made;
      SettledNow(turns, i, made, q, vs, at, 0, ClockWarp);
      at' := at[q[0].id := i];
    }
  }

  lemma HeadWaits(q: seq<Pending>, verdicts: Verdicts, issued: nat)
    requires Balanced(q, verdicts, issued)
    ensures forall k :: 0 <= k < |q| ==> q[k].id !in verdicts
  {
    forall k | 0 <= k < |q| ensures q[k].id !in verdicts {
      QueuedAt(q, k);
    }
  }

  /** One turn of the loop. */
  method Take(l: Loop, turns: seq<Turn>, i: nat, ghost at: Times) returns (ghost at': Times)
    requires l.Valid() && !l.closed && i < |turns|
    requires l.issued == |Made(turns[..i])| && Books(turns, i, l.plist, l.verdicts, at)
    modifies l
    ensures l.Valid() && !l.closed && l.issued == |Made(turns[..i + 1])|
    ensures Books(turns, i + 1, l.plist, l.verdicts, at')
    ensures old(l.steady) && old(l.clock) <= turns[i].reset <= turns[i].now ==> l.steady && l.clock <= turns[i].now
  {
    hide Balanced, Timely, Armed, Queued, Without, Made, Earned, QueueOk, AllEarned, PromptSoFar, Prompt;
    ghost var made := Made(turns[..i]);
    MadeStep(turns, i);
    MadeBefore(turns, i);
    at' := BeginTurn(l, turns, i, made, at);
    match turns[i].event {
      case Request(from, ptype) => {
        ghost var q, vs := l.plist, l.verdicts;
        var id := l.Add(from, ptype, turns[i].now);
        MadeNow(turns, i, made, q, vs, at', Pending(id, from, ptype, turns[i].now + RESP_TIMEOUT));
      }
      case Answer(from, ptype, done) => {
        at' := TakeAnswer(l, turns, i, made, at');
      }
      case Tick => {
        at' := TakeTick(l, turns, i, made, at');
      }
    }
  }

  /** The event of a turn, if it is a reply: its first completed request, if any, is served. */
  method TakeAnswer(l: Loop, turns: seq<Turn>, i: nat, ghost made: seq<nat>, ghost at: Times) returns (ghost at': Times)
    requires l.Valid() && !l.closed && i < |turns| && (forall o :: o in made ==> o < i) && l.issued == |made| && turns[i].event.Answer?
    requires QueueOk(turns, made, l.plist) && AllEarned(turns, made, l.verdicts, at) && PromptSoFar(turns, made, l.verdicts, at, i)
    requires forall id :: id in at ==> at[id] < i || (at[id] == i && l.verdicts[id] == ClockWarp)
    modifies l
    ensures l.Valid() && !l.closed && l.issued == old(l.issued) && l.clock == old(l.clock) && l.steady == old(l.steady)
    ensures QueueOk(turns, made, l.plist) && AllEarned(turns, made, l.verdicts, at') && PromptSoFar(turns, made, l.verdicts, at', i + 1)
    ensures forall id :: id in at' ==> at'[id] <= i
  {
    hide Timely, Armed, Queued, Without, Earned, QueueOk, Prompt, PromptSoFar, Due, Balanced;
    var event := turns[i].event;
    ghost var q, vs := l.plist, l.verdicts;
    ghost var p := FirstCompleted(q, event.from, event.ptype, event.done);
    HeadWaits(q, vs, l.issued);
    QueueHasAll(q, made, vs, at, l.issued, i);
    CompletesIsDue(turns, i, q, p);
    var _ := l.Reply(event.from, event.ptype, event.done);
    at' := Serve(turns, i, made, q, vs, at, p, Done, l.plist, l.verdicts);
  }

  /** If it is a tick, its first expired request is. */
  method TakeTick(l: Loop, turns: seq<Turn>, i: nat, ghost made: seq<nat>, ghost at: Times) returns (ghost at': Times)
    requires l.Valid() && !l.closed && i < |turns| && (forall o :: o in made ==> o < i) && l.issued == |made| && turns[i].event.Tick?
    requires QueueOk(turns, made, l.plist) && AllEarned(turns, made, l.verdicts, at) && PromptSoFar(turns, made, l.verdicts, at, i)
    requires forall id :: id in at ==> at[id] < i || (at[id] == i && l.verdicts[id] == ClockWarp)
    modifies l
    ensures l.Valid() && !l.closed && l.issued == old(l.issued) && l.clock == old(l.clock) && l.steady == old(l.steady)
    ensures QueueOk(turns, made, l.plist) && AllEarned(turns, made, l.verdicts, at') && PromptSoFar(turns, made, l.verdicts, at', i + 1)
    ensures forall id :: id in at' ==> at'[id] <= i
  {
    hide Timely, Armed, Queued, Without, Earned, QueueOk, Prompt, PromptSoFar, Due, Balanced;
    ghost var q, vs := l.plist, l.verdicts;
    ghost var p := FirstExpired(q, turns[i].now);
    HeadWaits(q, vs, l.issued);
    QueueHasAll(q, made, vs, at, l.issued, i);
    ExpiredIsDue(turns, i, q, p);
    l.Fire(turns[i].now);
    at' := Serve(turns, i, made, q, vs, at, p, Timeout, l.plist, l.verdicts);
  }

  lemma CompletesIsDue(turns: seq<Turn>, i: nat, q: seq<Pending>, p: nat)
    requires i < |turns| && turns[i].event.Answer?
    requires p == FirstCompleted(q, turns[i].event.from, turns[i].event.ptype, turns[i].event.done)
    ensures (p < |q| ==> Due(turns, i, q[p], Done)) && forall k :: 0 <= k < p ==> !Due(turns, i, q[k], Done)
  {
    hide Completes;
  }

  lemma ExpiredIsDue(turns: seq<Turn>, i: nat, q: seq<Pending>, p: nat)
    requires i < |turns| && turns[i].event.Tick? && p == FirstExpired(q, turns[i].now)
    ensures (p < |q| ==> Due(turns, i, q[p], Timeout)) && forall k :: 0 <= k < p ==> !Due(turns, i, q[k], Timeout)
  {
  }

  /** The books after the first request that the event of turn `i` can serve, at `p`, has been served. */
  lemma Serve(turns: seq<Turn>, i: nat, made: seq<nat>, q: seq<Pending>, verdicts: Verdicts, at: Times, p: nat, v: Verdict,
              q': seq<Pending>, verdicts': Verdicts) returns (at': Times)
    requires i < |turns| && QueueOk(turns, made, q) && AllEarned(turns, made, verdicts, at) && PromptSoFar(turns, made, verdicts, at, i)
    requires AllWaiting(made, q, verdicts, at, i) && (forall o :: o in made ==> o < i) && (forall k :: 0 <= k < |q| ==> q[k].id !in verdicts)
    requires forall id :: id in at ==> at[id] < i || (at[id] == i && verdicts[id] == ClockWarp)
    requires if v == Done then turns[i].event.Answer? else v == Timeout && turns[i].event.Tick?
    requires p <= |q| && (p < |q| ==> Due(turns, i, q[p], v)) && forall k :: 0 <= k < p ==> !Due(turns, i, q[k], v)
    requires if p < |q| then q' == Without(q, p) && verdicts' == verdicts[q[p].id := v] else q' == q && verdicts' == verdicts
    ensures QueueOk(turns, made, q') && AllEarned(turns, made, verdicts', at') && PromptSoFar(turns, made, verdicts', at', i + 1)
    ensures forall id :: id in at' ==> at'[id] <= i
  {
    hide Earned, Due, Prompt, AllWaiting, Without;
    at' := at;
    if p < |q| {
      assert Recorded(turns, made, q[p]) && made[q[p].id] in made;
      SettledNow(turns, i, made, q, verdicts, at, p, v);
      at' := at[q[p].id := i];
    }
    PromptNow(turns, i, made, q, verdicts, at, p, v, verdicts', at');
  }

  lemma MadeBefore(turns: seq<Turn>, i: nat)
    requires i <= |turns|
    ensures forall o :: o in Made(turns[..i]) ==> o < i
  {
  }

  /**
   A run that ends by closing gives every request exactly one verdict. Requests are numbered in the order of
   the turns that made them. `at` tells the turn that gave a verdict, for all but those given by closing: the
   turn could give it, and gave it once; and whenever a turn can complete or time out a request that waits, it
   does so for that request or for one made before it. None is blamed on the clock if that never went back.
   */
  method Run(turns: seq<Turn>) returns (verdicts: Verdicts, ghost at: Times)
    ensures forall id: nat :: id in verdicts <==> id < |Made(turns)|
    ensures forall id :: id in verdicts ==> (id in at <==> verdicts[id] != Closed)
    ensures forall id :: id in at ==> id in verdicts && Earned(turns, Made(turns)[id], at[id], id, verdicts[id])
    ensures forall a, b :: a in at && b in at && at[a] == at[b] && verdicts[a] == verdicts[b] ==> a == b
    ensures forall k :: 0 <= k < |turns| ==> Prompt(turns, Made(turns), verdicts, at, k)
    ensures ClockForward(turns) ==> forall id :: id in verdicts ==> verdicts[id] != ClockWarp
  {
    hide Balanced, Armed, Earned, Prompt, PromptSoFar, AllEarned, QueueOk;
    var l := new Loop();
    at := map[];
    ghost var now := 0;
    NoBooks(turns);
    for i := 0 to |turns|
      invariant l.Valid() && !l.closed && fresh(l)
      invariant l.issued == |Made(turns[..i])| && Books(turns, i, l.plist, l.verdicts, at)
      invariant ClockForward(turns) ==> l.steady && l.clock <= now
      invariant ClockForward(turns) ==> now == if i == 0 then 0 else turns[i - 1].now
    {
      at := Take(l, turns, i, at);
      now := turns[i].now;
    }
    assert turns[..|turns|] == turns;
    ghost var before := l.verdicts;
    EarnedMade(turns, Made(turns), before, at);
    l.Close();
    verdicts := l.verdicts;
    ClosedLast(turns, before, verdicts, at);
  }

  lemma EarnedMade(turns: seq<Turn>, made: seq<nat>, verdicts: Verdicts, at: Times)
    requires AllEarned(turns, made, verdicts, at)
    ensures forall id :: id in verdicts ==> id < |made|
  {
  }

  lemma NoBooks(turns: seq<Turn>)
    ensures Books(turns, 0, [], map[], map[])
  {
  }

  /** Closing gives a verdict to those that still wait and leaves the others alone. */
  lemma ClosedLast(turns: seq<Turn>, before: Verdicts, after: Verdicts, at: Times)
    requires AllEarned(turns, Made(turns), before, at) && PromptSoFar(turns, Made(turns), before, at, |turns|)
    requires before.Keys <= after.Keys && forall id :: id in after ==> after[id] == if id in before then before[id] else Closed
    ensures forall id :: id in after ==> (id in at <==> after[id] != Closed)
    ensures forall id :: id in at ==> id in after && Earned(turns, Made(turns)[id], at[id], id, after[id])
    ensures forall a, b :: a in at && b in at && at[a] == at[b] && after[a] == after[b] ==> a == b
    ensures forall k :: 0 <= k < |turns| ==> Prompt(turns, Made(turns), after, at, k)
  {
    hide Earned, Made, Prompt;
    forall id | id in at ensures before[id] != Closed {
      NeverClosedBefore(turns, Made(turns)[id], at[id], id, before[id]);
    }
    forall k | 0 <= k < |turns| ensures Prompt(turns, Made(turns), after, at, k) {
      PromptClosed(turns, Made(turns), before, after, at, k);
    }
  }

  lemma NeverClosedBefore(turns: seq<Turn>, o: nat, i: nat, id: nat, v: Verdict)
    requires Earned(turns, o, i, id, v)
    ensures v != Closed
  {
  }

  lemma PromptClosed(turns: seq<Turn>, made: seq<nat>, before: Verdicts, after: Verdicts, at: Times, k: nat)
    requires Prompt(turns, made, before, at, k) && before.Keys == at.Keys
    requires before.Keys <= after.Keys && forall id :: id in before ==> after[id] == before[id]
    ensures Prompt(turns, made, after, at, k)
  {
    hide Earned;
    forall id: nat, v | (v == Done || v == Timeout) && Waits(made, after, at, id, k) && Earned(turns, made[id], k, id, v)
      ensures Served(after, at, id, v, k) {
      assert Waits(made, before, at, id, k);
      assert Served(before, at, id, v, k);
    }
  }

  /** In a queue in order of deadlines, the timer of the head finds the head expired first. */
  lemma HeadExpiresFirst(q: seq<Pending>, now: Time)
    requires q != [] && Sorted(q)
    ensures FirstExpired(q, now) < |q| <==> now >= q[0].deadline
    ensures FirstExpired(q, now) < |q| ==> FirstExpired(q, now) == 0
  {
  }

  /**
   Three requests, a reply to the first, and a clock that then goes back by two seconds: the second is
   blamed on the clock, and the third waits with no timer running.
   */
  method WarpLeavesTimerOff() returns (l: Loop)
    ensures l.Valid() && !l.closed && l.verdicts == map[0 := Done, 1 := ClockWarp]
    ensures |l.plist| == 1 && l.plist[0].id == 2 && l.timer == None
  {
    hide Balanced, Timely, Armed, Queued;
    var start := 2000 * MILLISECOND;
    l := new Loop();
    var first := l.Add(0, 0, start);
    l.ResetTimeout(start);
    var second := l.Add(1, 0, start);
    l.ResetTimeout(start);
    var third := l.Add(2, 0, start);
    l.ResetTimeout(start);
    assert FirstCompleted(l.plist, 0, 0, _ => true) == 0;
    var _ := l.Reply(0, 0, _ => true);
    l.ResetTimeout(0);
  }
}
