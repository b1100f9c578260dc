/**
 The dispatch loop of the JSON-RPC client (`rpc/client.go`). Requests are registered under the IDs of
 their messages before they are written; responses are routed by ID to the channel of the request.
 The channel holds as many responses as the request has IDs. An operation is known here by a number.
 */
module RpcClient {
  import opened Collections

  type Id = string
  type SubId = string
  type Err = string
  type Ref = nat

  /** A message; an absent ID, method name (`call`) or parameter list is empty. */
  datatype Msg = Msg(id: Id, call: string, params: string, error: Option<Err>, result: string) {
    predicate HasValidId() { |id| > 0 && id[0] != '{' && id[0] != '[' }

    predicate IsNotification() { id == "" && call != "" }

    predicate IsResponse() { HasValidId() && call == "" && |params| == 0 }
  }

  /** Of what can be read, by its fields: what has a method and no ID is a notification; what has an ID, and neither method nor parameters, is a response. */
  lemma KindsOfMessages(m: Msg)
    ensures m.id == "" ==> !m.IsResponse() && (m.IsNotification() <==> m.call != "")
    ensures m.id != "" ==> !m.IsNotification()
    ensures m.id != "" && m.id[0] !in "{[" ==> (m.IsResponse() <==> m.call == "" && m.params == "")
    ensures m.id != "" && m.id[0] in "{[" ==> !m.IsResponse()
  {
  }

  /** A request operation with its channel: what was sent on it, and whether it was closed. */
  datatype Op = Op(ids: seq<Id>, sub: bool, sent: seq<Msg>, closed: bool, failed: bool, err: Option<Err>)

  type Ops = map<Ref, Op>
  type Wait = map<Id, Ref>

  function Answered(sent: seq<Msg>): set<Id> {
    set m | m in sent :: m.id
  }

  /** An answer to this ID may still come: none has, the channel is open, and the request did go out or may. */
  predicate Open(op: Op, id: Id) {
    !op.closed && !op.failed && id !in Answered(op.sent)
  }

  /** Each ID is answered at most once, and only IDs of the operation are; a subscription is answered by closing. */
  ghost predicate OpOk(op: Op) {
    && (forall i, j :: 0 <= i < j < |op.ids| ==> op.ids[i] != op.ids[j])
    && (forall i, j :: 0 <= i < j < |op.sent| ==> op.sent[i].id != op.sent[j].id)
    && (forall m :: m in op.sent ==> m.id in op.ids)
    && (op.sub ==> |op.ids| == 1 && op.sent == [])
  }

  ghost predicate Apart(ops: Ops) {
    forall r, s, id :: r in ops && s in ops && id in ops[r].ids && id in ops[s].ids ==> r == s
  }

  ghost predicate AllOk(ops: Ops) {
    forall r :: r in ops ==> OpOk(ops[r])
  }

  /** Whatever waits can still be answered, unless it is being closed down right now. */
  ghost predicate Routed(wait: Wait, ops: Ops, closing: set<Ref>) {
    forall id :: id in wait ==>
      && wait[id] in ops && id in ops[wait[id]].ids
      && (Open(ops[wait[id]], id) || (wait[id] in closing && ops[wait[id]].closed))
  }

  /** Whatever can still be answered waits. */
  ghost predicate Awaited(wait: Wait, ops: Ops) {
    forall r, id :: r in ops && id in ops[r].ids && Open(ops[r], id) ==> id in wait && wait[id] == r
  }

  ghost predicate Exact(wait: Wait, ops: Ops) {
    Routed(wait, ops, {}) && Awaited(wait, ops)
  }

  // ---------------------------------------------------------------- channels

  lemma {:induction false} AnsweredSize(sent: seq<Msg>)
    requires forall i, j :: 0 <= i < j < |sent| ==> sent[i].id != sent[j].id
    ensures |Answered(sent)| == |sent|
  {
    if sent != [] {
      var front, last := sent[..|sent| - 1], sent[|sent| - 1];
      AnsweredSize(front);
      assert sent == front + [last];
      assert Answered(sent) == Answered(front) + {last.id};
      assert last.id !in Answered(front);
    }
  }

  lemma {:induction false} IdSetSize(ids: seq<Id>)
    ensures |set id | id in ids| <= |ids|
  {
    if ids != [] {
      IdSetSize(ids[1..]);
      assert (set id | id in ids) == {ids[0]} + set id | id in ids[1..];
    }
  }

  /** A response that is due finds room in the channel, so sending it never blocks. */
  lemma ChannelHasRoom(op: Op, id: Id)
    requires OpOk(op) && id in op.ids && id !in Answered(op.sent)
    ensures |op.sent| < |op.ids|
  {
    var all := set i | i in op.ids;
    AnsweredSize(op.sent);
    IdSetSize(op.ids);
    assert id in all;
    SubsetSize(Answered(op.sent), all);
  }

  lemma SentOk(op: Op, msg: Msg)
    requires OpOk(op) && msg.id in op.ids && msg.id !in Answered(op.sent) && !op.sub
    ensures OpOk(op.(sent := op.sent + [msg]))
    ensures Answered(op.sent + [msg]) == Answered(op.sent) + {msg.id}
  {
  }

  // ---------------------------------------------------------------- the wait map

  /** The operation has changed so that this ID can no longer be answered, and no other is affected. */
  ghost predicate Answers(before: Op, after: Op, id: Id) {
    && after.ids == before.ids && OpOk(after) && !Open(after, id)
    && forall j :: j in after.ids && j != id ==> (Open(after, j) <==> Open(before, j))
  }

  lemma OneAnswered(wait: Wait, ops: Ops, id: Id, op: Op)
    requires Exact(wait, ops) && Apart(ops) && AllOk(ops) && id in wait && Answers(ops[wait[id]], op, id)
    ensures Exact(wait - {id}, ops[wait[id] := op]) && Apart(ops[wait[id] := op]) && AllOk(ops[wait[id] := op])
  {
    hide Open, OpOk;
  }

  lemma NewIsOpen(op: Op)
    requires op.sent == [] && !op.closed && !op.failed
    ensures forall id :: Open(op, id)
  {
  }

  lemma Registered(wait: Wait, wait': Wait, ops: Ops, r: Ref, op: Op)
    requires Exact(wait, ops) && Apart(ops) && AllOk(ops) && r !in ops
    requires OpOk(op) && op.sent == [] && !op.closed && !op.failed
    requires forall s, id :: s in ops && id in ops[s].ids ==> id !in op.ids
    requires forall id :: id in wait' <==> id in wait || id in op.ids
    requires forall id :: id in wait' ==> wait'[id] == if id in op.ids then r else wait[id]
    ensures Exact(wait', ops[r := op]) && Apart(ops[r := op]) && AllOk(ops[r := op])
  {
    hide OpOk, Open;
    NewIsOpen(op);
    var ops' := ops[r := op];
    forall id | id in wait' ensures wait'[id] in ops' && id in ops'[wait'[id]].ids && Open(ops'[wait'[id]], id) {
      assert id !in op.ids ==> wait[id] != r;
    }
    forall s, id | s in ops' && id in ops'[s].ids && Open(ops'[s], id) ensures id in wait' && wait'[id] == s {
      assert s != r ==> id in ops[s].ids;
    }
  }

  lemma Withdrawn(wait: Wait, wait': Wait, ops: Ops, r: Ref)
    requires Exact(wait, ops) && Apart(ops) && AllOk(ops) && r in ops
    requires forall id :: id in wait' <==> id in wait && id !in ops[r].ids
    requires forall id :: id in wait' ==> wait'[id] == wait[id]
    ensures Exact(wait', ops[r := ops[r].(failed := true)]) && Apart(ops[r := ops[r].(failed := true)])
    ensures AllOk(ops[r := ops[r].(failed := true)])
  {
    hide OpOk, Answered;
    var op := ops[r].(failed := true);
    assert OpOk(op) by { StillOk(ops[r], op); }
    var ops' := ops[r := op];
    forall id | id in wait' ensures wait'[id] in ops' && id in ops'[wait'[id]].ids && Open(ops'[wait'[id]], id) {
      assert wait[id] != r;
    }
  }

  lemma StillOk(before: Op, after: Op)
    requires OpOk(before) && after.ids == before.ids && after.sent == before.sent && after.sub == before.sub
    ensures OpOk(after)
  {
  }

  ghost predicate Closing(ops: Ops, closing: set<Ref>) {
    forall r :: r in closing ==> r in ops && ops[r].closed
  }

  function CloseWith(op: Op, err: Err): Op { op.(err := Some(err), closed := true) }

  /** The step of `closeRequestOps`: an operation is closed when the first of its IDs comes up, and never again. */
  lemma OneClosed(wait: Wait, ops: Ops, closing: set<Ref>, id: Id, err: Err)
    requires Routed(wait, ops, closing) && Awaited(wait, ops) && Apart(ops) && AllOk(ops) && id in wait
    requires Closing(ops, closing)
    ensures wait[id] in ops && (wait[id] !in closing ==> !ops[wait[id]].closed)
    ensures var r := wait[id];
            var ops' := if r in closing then ops else ops[r := CloseWith(ops[r], err)];
            && Routed(wait - {id}, ops', closing + {r}) && Awaited(wait - {id}, ops') && Apart(ops') && AllOk(ops')
            && Closing(ops', closing + {r})
  {
    hide OpOk, Answered;
    var r := wait[id];
    if r !in closing {
      var op := CloseWith(ops[r], err);
      assert OpOk(op) by { StillOk(ops[r], op); }
    }
  }

  /** Whether some ID waits for the operation. */
  ghost predicate Waits(wait: Wait, r: Ref) {
    exists id :: id in wait && wait[id] == r
  }

  /** How far `closeRequestOps` has come: exactly the operations of the IDs taken off are closed. */
  ghost predicate SoFar(start: Wait, wait: Wait, before: Ops, ops: Ops, done: set<Ref>, err: Err) {
    && ops.Keys == before.Keys
    && (forall id :: id in wait ==> id in start && wait[id] == start[id])
    && (forall id :: id in start ==> id in wait || start[id] in done)
    && (forall r :: r in done ==> Waits(start, r))
    && (forall r :: r in ops ==> ops[r] == if r in done then CloseWith(before[r], err) else before[r])
  }

  lemma OneMoreClosed(start: Wait, wait: Wait, before: Ops, ops: Ops, done: set<Ref>, id: Id, err: Err)
    requires SoFar(start, wait, before, ops, done, err) && id in wait && wait[id] in ops
    ensures var r := wait[id];
            SoFar(start, wait - {id}, before, if r in done then ops else ops[r := CloseWith(ops[r], err)], done + {r}, err)
  {
    hide CloseWith;
  }

  lemma AllClosed(start: Wait, wait: Wait, before: Ops, ops: Ops, done: set<Ref>, err: Err)
    requires SoFar(start, wait, before, ops, done, err) && |wait| == 0
    ensures forall r :: r in ops ==> r in before && ops[r] == if Waits(start, r) then CloseWith(before[r], err) else before[r]
  {
    assert wait.Keys == {};
    assert forall id :: id in wait ==> id in wait.Keys;
  }

  /** Whether the batch has a response to this ID. */
  ghost predicate Responded(batch: seq<Msg>, id: Id) {
    exists m :: m in batch && m.IsResponse() && m.id == id
  }

  /** The first response to this ID. */
  function FirstIn(batch: seq<Msg>, id: Id): (m: Option<Msg>)
    ensures m.Some? ==> m.value in batch && m.value.IsResponse() && m.value.id == id
  {
    if batch == [] then None
    else
      var before := FirstIn(batch[..|batch| - 1], id);
      var last := batch[|batch| - 1];
      if before.Some? then before else if last.IsResponse() && last.id == id then Some(last) else None
  }

  lemma FirstInStep(batch: seq<Msg>, i: nat)
    requires i < |batch|
    ensures forall id :: FirstIn(batch[..i + 1], id) ==
              if FirstIn(batch[..i], id).Some? then FirstIn(batch[..i], id)
              else if batch[i].IsResponse() && batch[i].id == id then Some(batch[i]) else None
  {
    assert batch[..i + 1][..i] == batch[..i];
  }

  lemma {:induction false} FirstInResponded(batch: seq<Msg>, id: Id)
    ensures Responded(batch, id) <==> FirstIn(batch, id).Some?
  {
    if batch != [] {
      FirstInResponded(batch[..|batch| - 1], id);
      RespondedStep(batch, |batch| - 1);
      assert batch[..|batch|] == batch;
    }
  }

  lemma RespondedStep(batch: seq<Msg>, i: nat)
    requires i < |batch|
    ensures forall id :: Responded(batch[..i + 1], id) <==> Responded(batch[..i], id) || (batch[i].IsResponse() && batch[i].id == id)
  {
    assert batch[..i + 1] == batch[..i] + [batch[i]];
    assert batch[i] in batch[..i + 1];
    forall id | Responded(batch[..i], id) ensures Responded(batch[..i + 1], id) {
      var m :| m in batch[..i] && m.IsResponse() && m.id == id;
      assert m in batch[..i + 1];
    }
    forall id | Responded(batch[..i + 1], id) && !(batch[i].IsResponse() && batch[i].id == id) ensures Responded(batch[..i], id) {
      var m :| m in batch[..i + 1] && m.IsResponse() && m.id == id;
      assert m in batch[..i];
    }
  }

  /** Of those that waited exactly those still wait that have no response in the batch. */
  ghost predicate StillWaits(start: Wait, wait: Wait, batch: seq<Msg>) {
    && (forall id :: id in wait <==> id in start && !Responded(batch, id))
    && (forall id :: id in wait ==> id in start && wait[id] == start[id])
  }

  lemma NoneAnsweredYet(wait: Wait)
    ensures StillWaits(wait, wait, [])
  {
  }

  lemma WaitsStill(start: Wait, wait: Wait, batch: seq<Msg>, id: Id)
    requires StillWaits(start, wait, batch)
    ensures id in wait <==> id in start && !Responded(batch, id)
    ensures id in wait ==> wait[id] == start[id]
  {
    hide Responded;
  }

  lemma AllWaitStill(start: Wait, wait: Wait, batch: seq<Msg>)
    requires StillWaits(start, wait, batch)
    ensures forall id :: id in wait <==> id in start && !Responded(batch, id)
    ensures forall id :: id in wait ==> id in start && wait[id] == start[id]
  {
    hide Responded;
  }

  lemma StillWaitsStep(start: Wait, wait: Wait, wait': Wait, batch: seq<Msg>, i: nat)
    requires i < |batch| && StillWaits(start, wait, batch[..i])
    requires wait' == if batch[i].IsResponse() then wait - {batch[i].id} else wait
    ensures StillWaits(start, wait', batch[..i + 1])
  {
    hide Responded;
    RespondedStep(batch, i);
  }

  // ---------------------------------------------------------------- the dispatch loop

  class Dispatcher {
    const parse: string -> Option<SubId>   // the subscription ID in a result
    var respWait: Wait
    var ops: Ops                           // every operation accepted so far
    var subs: map<SubId, Ref>
    var lastOp: Option<Ref>                // holds the write slot

    ghost predicate Valid()
      reads this
    {
      && Exact(respWait, ops) && Apart(ops) && AllOk(ops)
      && (lastOp.Some? ==> lastOp.value in ops)
    }

    constructor (parse: string -> Option<SubId>)
      ensures Valid() && ops == map[] && lastOp == None && respWait == map[] && subs == map[] && this.parse == parse
    {
      this.parse := parse;
      respWait, ops, subs, lastOp := map[], map[], map[], None;
    }

    /** A request is accepted only while nobody holds the write slot; its IDs are new. */
    method Accept(r: Ref, ids: seq<Id>, sub: bool)
      requires Valid() && lastOp == None && r !in ops
      requires forall i, j :: 0 <= i < j < |ids| ==> ids[i] != ids[j]
      requires forall s, id :: s in ops && id in ops[s].ids ==> id !in ids
      requires sub ==> |ids| == 1
      modifies this`respWait, this`ops, this`lastOp
      ensures Valid() && lastOp == Some(r)
      ensures ops == old(ops)[r := Op(ids, sub, [], false, false, None)]
      ensures forall id :: id in ids ==> id in respWait && respWait[id] == r
      ensures forall id :: id !in ids ==> (id in respWait <==> id in old(respWait)) && (id in respWait ==> respWait[id] == old(respWait)[id])
    {
      hide Exact, Apart, AllOk;
      ghost var before := respWait;
      lastOp := Some(r);
      for i := 0 to |ids|
        invariant forall id :: id in respWait <==> id in before || id in ids[..i]
        invariant forall id :: id in respWait ==> respWait[id] == if id in ids[..i] then r else before[id]
        invariant ops == old(ops) && lastOp == Some(r)
      {
        assert ids[..i + 1] == ids[..i] + [ids[i]];
        respWait := respWait[ids[i] := r];
      }
      assert ids[..|ids|] == ids;
      var op := Op(ids, sub, [], false, false, None);
      Registered(before, respWait, ops, r, op);
      ops := ops[r := op];
    }

    /** The write has finished; if it failed, none of the request's responses is expected any more. */
    method SendDone(r: Ref, failed: bool)
      requires Valid() && lastOp == Some(r)
      modifies this`respWait, this`ops, this`lastOp
      ensures Valid() && lastOp == None
      ensures failed ==> forall id :: id in respWait <==> id in old(respWait) && id !in old(ops)[r].ids
      ensures ops == if failed then old(ops)[r := old(ops)[r].(failed := true)] else old(ops)
      ensures !failed ==> respWait == old(respWait)
      ensures forall id :: id in respWait ==> id in old(respWait) && respWait[id] == old(respWait)[id]
      ensures ops.Keys == old(ops.Keys)
    {
      hide Exact, Apart, AllOk;
      if failed {
        ghost var before := respWait;
        var ids := ops[r].ids;
        for i := 0 to |ids|
          invariant forall id :: id in respWait <==> id in before && id !in ids[..i]
          invariant forall id :: id in respWait ==> respWait[id] == before[id]
          invariant ops == old(ops)
        {
          assert ids[..i + 1] == ids[..i] + [ids[i]];
          respWait := respWait - {ids[i]};
        }
        assert ids[..|ids|] == ids;
        Withdrawn(before, respWait, ops, r);
        ops := ops[r := ops[r].(failed := true)];
      }
      lastOp := None;
    }

    /**
     A response: it is routed to the operation that waits for its ID and to no other, the ID stops
     waiting, and what is done to the channel is possible: it is open, and has room.
     */
    method HandleResponse(msg: Msg)
      requires Valid()
      modifies this`respWait, this`ops, this`subs
      ensures Valid() && lastOp == old(lastOp)
      ensures msg.id !in old(respWait) ==> respWait == old(respWait) && ops == old(ops) && subs == old(subs)
      ensures msg.id in old(respWait) ==>
                var r := old(respWait)[msg.id];
                var op := old(ops)[r];
                && respWait == old(respWait) - {msg.id} && !op.closed && !op.failed
                && (if op.sub then ops == old(ops)[r := op.(err := Verdict(msg), closed := true)] else
                      |op.sent| < |op.ids| && ops == old(ops)[r := op.(sent := op.sent + [msg])])
      ensures msg.id in old(respWait) ==> subs == Enrolled(parse, old(subs), old(ops)[old(respWait)[msg.id]].sub, old(respWait)[msg.id], msg)
    {
      hide Exact, Apart, AllOk, OpOk, Answered;
      if msg.id !in respWait {
        return;
      }
      var r := respWait[msg.id];
      WaitsOpen(msg.id);
      var op := ops[r];
      if !op.sub {
        ChannelHasRoom(op, msg.id);
        SentOk(op, msg);
        OneAnswered(respWait, ops, msg.id, op.(sent := op.sent + [msg]));
        ops := ops[r := op.(sent := op.sent + [msg])];
        respWait := respWait - {msg.id};
        return;
      }
      var err := msg.error;
      if err.None? {
        var subid := parse(msg.result);
        if subid.Some? {
          subs := subs[subid.value := r];
        } else {
          err := Some("invalid subscription ID");
        }
      }
      var op' := op.(err := err, closed := true);
      StillOk(op, op');
      SoleId(op, msg.id);
      OneAnswered(respWait, ops, msg.id, op');
      ops := ops[r := op'];
      respWait := respWait - {msg.id};
    }

    /** What a subscription is closed with: the error of the response, or that its result is no subscription ID, or nothing. */
    function Verdict(msg: Msg): Option<Err> {
      if msg.error.Some? then msg.error else if parse(msg.result).None? then Some("invalid subscription ID") else None
    }

    lemma WaitsOpen(id: Id)
      requires Valid() && id in respWait
      ensures respWait[id] in ops && id in ops[respWait[id]].ids && Open(ops[respWait[id]], id) && OpOk(ops[respWait[id]])
    {
    }

    lemma WaitingKnown()
      requires Valid()
      ensures forall id :: id in respWait ==> respWait[id] in ops
    {
      hide OpOk, Open;
    }

    static lemma SoleId(op: Op, id: Id)
      requires OpOk(op) && op.sub && id in op.ids
      ensures forall j :: j in op.ids ==> j == id
    {
    }

    /** The messages of one read, in order; what is neither a notification nor a response is dropped. */
    method HandleBatch(batch: seq<Msg>)
      requires Valid()
      modifies this`respWait, this`ops, this`subs
      ensures Valid() && lastOp == old(lastOp) && ops.Keys == old(ops.Keys)
      ensures forall r :: r in ops ==> Progress(old(ops)[r], ops[r])
      ensures forall id :: id in respWait <==> id in old(respWait) && !Responded(batch, id)
      ensures forall id :: id in respWait ==> id in old(respWait) && respWait[id] == old(respWait)[id]
      ensures Delivered(old(ops), ops, old(respWait), batch)
      ensures subs == AllEnrolled(parse, old(subs), old(ops), old(respWait), batch)
    {
      hide Exact, Apart, AllOk, Responded, Delivered, FirstIn, Enrolled, AllEnrolled, StillWaits;
      WaitingKnown();
      assert subs == AllEnrolled(parse, subs, ops, respWait, []) by { NoneEnrolled(parse, subs, ops, respWait); }
      NothingDelivered(ops, respWait);
      NoneAnsweredYet(respWait);
      for i := 0 to |batch|
        invariant Valid() && lastOp == old(lastOp) && ops.Keys == old(ops.Keys)
        invariant forall r :: r in ops ==> Progress(old(ops)[r], ops[r])
        invariant StillWaits(old(respWait), respWait, batch[..i])
        invariant Delivered(old(ops), ops, old(respWait), batch[..i])
        invariant subs == AllEnrolled(parse, old(subs), old(ops), old(respWait), batch[..i])
      {
        WaitsStill(old(respWait), respWait, batch[..i], batch[i].id);
        OneMoreEnrolled(parse, old(subs), old(ops), old(respWait), respWait, batch, i);
        var msg := batch[i];
        ghost var before, wait := ops, respWait;
        if !msg.IsNotification() && msg.IsResponse() {
          if msg.id in respWait {
            WaitsOpen(msg.id);
          }
          HandleResponse(msg);
          FirstInResponded(batch[..i], msg.id);
          DeliveredOne(old(ops), before, ops, old(respWait), wait, batch, i);
        } else {
          DeliveredNot(old(ops), ops, old(respWait), batch, i);
        }
        StillWaitsStep(old(respWait), wait, respWait, batch, i);
      }
      assert batch[..|batch|] == batch;
      AllWaitStill(old(respWait), respWait, batch);
    }

    /** `closeRequestOps`: every operation that waits is closed, once; afterwards none waits. */
    method CloseRequestOps(err: Err)
      requires Valid()
      modifies this`respWait, this`ops, this`subs
      ensures Valid() && respWait == map[] && subs == map[] && lastOp == old(lastOp) && ops.Keys == old(ops.Keys)
      ensures forall r :: r in ops ==> Progress(old(ops)[r], ops[r])
      ensures forall r, id :: r in ops && id in ops[r].ids ==> ops[r].closed || ops[r].failed || id in Answered(ops[r].sent)
      ensures forall r :: r in ops ==> ops[r] == if Waits(old(respWait), r) then CloseWith(old(ops)[r], err) else old(ops)[r]
    {
      hide Routed, Awaited, Apart, AllOk, Answered, OpOk, SoFar, Waits;
      ghost var closing: set<Ref> := {};
      var didClose: set<Ref> := {};
      ClosingNone(respWait, ops, err);
      while |respWait| != 0
        invariant Routed(respWait, ops, closing) && Awaited(respWait, ops) && Apart(ops) && AllOk(ops) && Closing(ops, closing)
        invariant closing == didClose && lastOp == old(lastOp) && ops.Keys == old(ops.Keys)
        invariant SoFar(old(respWait), respWait, old(ops), ops, closing, err)
        invariant forall r :: r in ops ==> Progress(old(ops)[r], ops[r])
        decreases |respWait|
      {
        SomeKey(respWait);
        var id :| id in respWait;
        OneClosed(respWait, ops, closing, id, err);
        OneMoreClosed(old(respWait), respWait, old(ops), ops, closing, id, err);
        var r := respWait[id];
        respWait := respWait - {id};
        if r !in didClose {
          ops := ops[r := CloseWith(ops[r], err)];
          didClose := didClose + {r};
        }
        closing := closing + {r};
      }
      NoneWaits(ops);
      AllClosed(old(respWait), respWait, old(ops), ops, closing, err);
      subs := map[];
    }

    static lemma SomeKey(wait: Wait)
      requires |wait| != 0
      ensures exists id :: id in wait
    {
      assert wait.Keys != {};
    }

    static lemma ClosingNone(wait: Wait, ops: Ops, err: Err)
      ensures Closing(ops, {}) && SoFar(wait, wait, ops, ops, {}, err)
    {
    }

    static lemma NoneWaits(ops: Ops)
      requires Awaited(map[], ops)
      ensures Exact(map[], ops)
      ensures forall r, id :: r in ops && id in ops[r].ids ==> ops[r].closed || ops[r].failed || id in Answered(ops[r].sent)
    {
      hide Answered;
      forall r, id | r in ops && id in ops[r].ids ensures !Open(ops[r], id) {
        var none: Wait := map[];
        assert Open(ops[r], id) ==> id in none;
      }
    }
  }

  /** Of the IDs that waited, each got the first response to it in the batch, or its subscription was closed, and nothing else was sent. */
  ghost predicate Delivered(before: Ops, after: Ops, wait: Wait, batch: seq<Msg>) {
    && before.Keys == after.Keys
    && (forall r, m :: r in before ==> MessageOk(before[r], after[r], r, m, wait, batch))
    && (forall r, id :: r in before ==> SubscriptionOk(before[r], after[r], r, id, wait, batch))
    && (forall r :: r in before ==> after[r].sub == before[r].sub)
  }

  ghost predicate MessageOk(before: Op, after: Op, r: Ref, m: Msg, wait: Wait, batch: seq<Msg>) {
    m in after.sent <==> m in before.sent || (!before.sub && m.id in wait && wait[m.id] == r && FirstIn(batch, m.id) == Some(m))
  }

  ghost predicate SubscriptionOk(before: Op, after: Op, r: Ref, id: Id, wait: Wait, batch: seq<Msg>) {
    before.sub && id in wait && wait[id] == r && FirstIn(batch, id).Some? ==> after.closed
  }

  lemma NothingDelivered(ops: Ops, wait: Wait)
    ensures Delivered(ops, ops, wait, [])
  {
  }

  lemma DeliveredNot(start: Ops, ops: Ops, wait: Wait, batch: seq<Msg>, i: nat)
    requires i < |batch| && Delivered(start, ops, wait, batch[..i]) && !batch[i].IsResponse()
    ensures Delivered(start, ops, wait, batch[..i + 1])
  {
    hide FirstIn;
    FirstInStep(batch, i);
    var read := batch[..i + 1];
    forall r, m | r in start ensures MessageOk(start[r], ops[r], r, m, wait, read) {
      assert MessageOk(start[r], ops[r], r, m, wait, batch[..i]);
    }
    forall r, id | r in start ensures SubscriptionOk(start[r], ops[r], r, id, wait, read) {
      assert SubscriptionOk(start[r], ops[r], r, id, wait, batch[..i]);
    }
  }

  lemma DeliveredOne(start: Ops, before: Ops, after: Ops, wait: Wait, left: Wait, batch: seq<Msg>, i: nat)
    requires i < |batch| && Delivered(start, before, wait, batch[..i]) && batch[i].IsResponse()
    requires batch[i].id in left <==> batch[i].id in wait && FirstIn(batch[..i], batch[i].id).None?
    requires batch[i].id in left ==> left[batch[i].id] == wait[batch[i].id] && wait[batch[i].id] in before
    requires if batch[i].id !in left then after == before
             else
               var r, op := left[batch[i].id], before[left[batch[i].id]];
               if op.sub then exists e :: after == before[r := op.(err := e, closed := true)]
               else after == before[r := op.(sent := op.sent + [batch[i]])]
    ensures Delivered(start, after, wait, batch[..i + 1])
  {
    hide FirstIn;
    FirstInStep(batch, i);
    var read := batch[..i + 1];
    assert after.Keys == before.Keys;
    forall r, m | r in start ensures MessageOk(start[r], after[r], r, m, wait, read) {
      assert MessageOk(start[r], before[r], r, m, wait, batch[..i]);
    }
    forall r, id | r in start ensures SubscriptionOk(start[r], after[r], r, id, wait, read) {
      assert SubscriptionOk(start[r], before[r], r, id, wait, batch[..i]);
    }
  }

  /** A subscription that is granted is enrolled under the ID it is given. */
  function Enrolled(parse: string -> Option<SubId>, subs: map<SubId, Ref>, sub: bool, r: Ref, msg: Msg): map<SubId, Ref> {
    if sub && msg.error.None? && parse(msg.result).Some? then subs[parse(msg.result).value := r] else subs
  }

  /** So are all that are granted in a batch, each by the first response to it. */
  function AllEnrolled(parse: string -> Option<SubId>, subs: map<SubId, Ref>, ops: Ops, wait: Wait, batch: seq<Msg>): map<SubId, Ref> {
    if batch == [] then subs
    else
      var n := |batch| - 1;
      var sofar := AllEnrolled(parse, subs, ops, wait, batch[..n]);
      var m := batch[n];
      if m.IsResponse() && FirstIn(batch[..n], m.id).None? && m.id in wait && wait[m.id] in ops
      then Enrolled(parse, sofar, ops[wait[m.id]].sub, wait[m.id], m) else sofar
  }

  lemma NoneEnrolled(parse: string -> Option<SubId>, subs: map<SubId, Ref>, ops: Ops, wait: Wait)
    ensures AllEnrolled(parse, subs, ops, wait, []) == subs
  {
  }

  lemma OneMoreEnrolled(parse: string -> Option<SubId>, subs: map<SubId, Ref>, ops: Ops, wait: Wait, left: Wait, batch: seq<Msg>, i: nat)
    requires i < |batch| && forall id :: id in wait ==> wait[id] in ops
    requires batch[i].id in left <==> batch[i].id in wait && !Responded(batch[..i], batch[i].id)
    ensures AllEnrolled(parse, subs, ops, wait, batch[..i + 1]) ==
              var sofar, m := AllEnrolled(parse, subs, ops, wait, batch[..i]), batch[i];
              if m.IsResponse() && m.id in left then Enrolled(parse, sofar, ops[wait[m.id]].sub, wait[m.id], m) else sofar
  {
    hide FirstIn, Responded, Enrolled;
    assert batch[..i + 1][..i] == batch[..i] && batch[..i + 1][i] == batch[i];
    FirstInResponded(batch[..i], batch[i].id);
  }

  /** An operation changes only by responses sent while it was open, and by being closed once. */
  ghost predicate Progress(before: Op, after: Op) {
    && after.ids == before.ids && after.sub == before.sub && after.failed == before.failed
    && before.sent <= after.sent
    && (before.closed ==> after == before)
  }

  // ---------------------------------------------------------------- whole sessions

  datatype Event = Request(ids: seq<Id>, sub: bool) | Sent(failed: bool) | Read(batch: seq<Msg>) | ReadErr(err: Err)

  /** The requests accepted so far, by their events, and whether the last of them is still being written. */
  datatype Intake = Intake(made: seq<nat>, busy: bool)

  /** Whether a request may be registered: its IDs differ from each other and from all used before. */
  predicate NewIds(events: seq<Event>, made: seq<nat>, ids: seq<Id>, sub: bool) {
    && (forall i, j :: 0 <= i < j < |ids| ==> ids[i] != ids[j]) && (sub ==> |ids| == 1)
    && forall r :: 0 <= r < |made| && made[r] < |events| && events[made[r]].Request? ==>
         forall id :: id in ids ==> id !in events[made[r]].ids
  }

  /** A request is accepted while none is being written, if its IDs are new; what is not accepted is never sent. */
  function Accepted(events: seq<Event>): (a: Intake)
    ensures forall r :: 0 <= r < |a.made| ==> a.made[r] < |events| && events[a.made[r]].Request?
    ensures forall r, q :: 0 <= r < q < |a.made| ==> a.made[r] < a.made[q]
  {
    if events == [] then Intake([], false)
    else
      var n := |events| - 1;
      var a := Accepted(events[..n]);
      match events[n]
      case Request(ids, sub) => if !a.busy && NewIds(events, a.made, ids, sub) then Intake(a.made + [n], true) else a
      case Sent(_) => a.(busy := false)
      case _ => a
  }

  /** Since the request of event `o` no write was finished, so that its own is still going on. */
  ghost predicate StillWriting(events: seq<Event>, o: nat, n: nat) {
    forall k :: o < k < n && k < |events| ==> !events[k].Sent?
  }

  /** Before event `n` the connection broke, or the write of the request failed: no response counts from then on. */
  ghost predicate Cut(events: seq<Event>, o: nat, n: nat) {
    exists k :: o < k < n && k < |events| && (events[k].ReadErr? || (events[k] == Sent(true) && StillWriting(events, o, k)))
  }

  /** The first response to this ID that is read after the request of event `o`, before it is cut off. */
  ghost function Response(events: seq<Event>, o: nat, id: Id, n: nat): (m: Option<Msg>)
    requires n <= |events|
    ensures m.Some? ==> m.value.IsResponse() && m.value.id == id
                        && exists i :: o < i < n && events[i].Read? && m.value in events[i].batch
  {
    if n <= o + 1 then None
    else
      var before := Response(events, o, id, n - 1);
      if before.Some? then before
      else if events[n - 1].Read? && !Cut(events, o, n - 1) then FirstIn(events[n - 1].batch, id)
      else None
  }

  lemma OneEvent(events: seq<Event>, o: nat, n: nat)
    requires o < n < |events|
    ensures StillWriting(events, o, n + 1) <==> StillWriting(events, o, n) && !events[n].Sent?
    ensures Cut(events, o, n + 1) <==>
              Cut(events, o, n) || events[n].ReadErr? || (events[n] == Sent(true) && StillWriting(events, o, n))
  {
    hide StillWriting;
    StillWritingStep(events, o, n);
    if events[n].ReadErr? || (events[n] == Sent(true) && StillWriting(events, o, n)) {
      assert o < n < n + 1;
    }
  }

  lemma StillWritingStep(events: seq<Event>, o: nat, n: nat)
    requires o < n < |events|
    ensures StillWriting(events, o, n + 1) <==> StillWriting(events, o, n) && !events[n].Sent?
  {
  }

  /**
   What is known after the first `n` events: there is an operation for each accepted request and no other.
   An ID of it waits exactly if it was neither answered nor cut off; on its channel are exactly the first
   responses to its IDs, and an answered subscription is closed.
   */
  ghost predicate Books(events: seq<Event>, n: nat, made: seq<nat>, ops: Ops, wait: Wait, lastOp: Option<Ref>)
    requires n <= |events|
  {
    && Requests(events, n, made, ops, lastOp)
    && (forall r, id :: r in ops && id in ops[r].ids ==> IdOk(events, n, made[r], ops[r], r, id, wait))
    && (forall r, m :: r in ops && m in ops[r].sent ==> m.id in ops[r].ids && Response(events, made[r], m.id, n) == Some(m))
  }

  ghost predicate Requests(events: seq<Event>, n: nat, made: seq<nat>, ops: Ops, lastOp: Option<Ref>) {
    && n <= |events| && (forall r: Ref :: r in ops <==> r < |made|)
    && (forall r :: r in ops ==> made[r] < n && events[made[r]] == Request(ops[r].ids, ops[r].sub))
    && (forall r :: r in ops ==> (StillWriting(events, made[r], n) <==> lastOp == Some(r)))
  }

  ghost predicate IdOk(events: seq<Event>, n: nat, o: nat, op: Op, r: Ref, id: Id, wait: Wait)
    requires n <= |events|
  {
    var m := Response(events, o, id, n);
    && (id in wait && wait[id] == r <==> m.None? && !Cut(events, o, n))
    && (m.Some? ==> if op.sub then op.closed else m.value in op.sent)
  }

  /** Whoever waits is an ID of an operation. */
  ghost predicate WaitsKnown(ops: Ops, wait: Wait) {
    forall id :: id in wait ==> wait[id] in ops && id in ops[wait[id]].ids
  }

  ghost predicate SameRequests(before: Ops, after: Ops) {
    before.Keys == after.Keys
    && forall r :: r in before ==> after[r].ids == before[r].ids && after[r].sub == before[r].sub && (before[r].closed ==> after[r].closed)
  }

  lemma RequestsOn(events: seq<Event>, n: nat, made: seq<nat>, before: Ops, after: Ops, lastOp: Option<Ref>)
    requires Requests(events, n, made, before, lastOp) && n < |events| && SameRequests(before, after) && !events[n].Sent?
    ensures Requests(events, n + 1, made, after, lastOp)
  {
    hide StillWriting;
    forall r | r in after ensures StillWriting(events, made[r], n + 1) <==> lastOp == Some(r) {
      StillWritingStep(events, made[r], n);
    }
  }

  /** The messages of a read. */
  lemma ReadBooks(events: seq<Event>, n: nat, made: seq<nat>, ops: Ops, wait: Wait, lastOp: Option<Ref>, batch: seq<Msg>, ops': Ops, wait': Wait)
    requires n < |events| && Books(events, n, made, ops, wait, lastOp) && events[n] == Read(batch) && WaitsKnown(ops, wait)
    requires Delivered(ops, ops', wait, batch) && SameRequests(ops, ops')
    requires forall id :: id in wait' <==> id in wait && FirstIn(batch, id).None?
    requires forall id :: id in wait' ==> wait'[id] == wait[id]
    requires forall r :: r in ops && ops[r].sub ==> ops'[r].sent == []
    ensures Books(events, n + 1, made, ops', wait', lastOp)
  {
    hide Cut, StillWriting, FirstIn, Requests, Delivered, IdOk, Response;
    RequestsOn(events, n, made, ops, ops', lastOp);
    RequestsBefore(events, n, made, ops, lastOp);
    forall r, id | r in ops' && id in ops'[r].ids ensures IdOk(events, n + 1, made[r], ops'[r], r, id, wait') {
      assert IdOk(events, n, made[r], ops[r], r, id, wait);
      IdRead(events, n, made[r], ops, wait, batch, ops', wait', r, id);
    }
    forall r, m | r in ops' && m in ops'[r].sent ensures m.id in ops'[r].ids && Response(events, made[r], m.id, n + 1) == Some(m) {
      MessageRead(events, n, made[r], ops, wait, batch, ops', r, m);
    }
  }

  lemma RequestsBefore(events: seq<Event>, n: nat, made: seq<nat>, ops: Ops, lastOp: Option<Ref>)
    requires Requests(events, n, made, ops, lastOp)
    ensures forall r :: r in ops ==> r < |made| && made[r] < n
  {
  }

  lemma IdRead(events: seq<Event>, n: nat, o: nat, ops: Ops, wait: Wait, batch: seq<Msg>, ops': Ops, wait': Wait, r: Ref, id: Id)
    requires o < n < |events| && events[n] == Read(batch) && r in ops && r in ops' && IdOk(events, n, o, ops[r], r, id, wait)
    requires Delivered(ops, ops', wait, batch) && SameRequests(ops, ops')
    requires id in wait' <==> id in wait && FirstIn(batch, id).None?
    requires id in wait' ==> wait'[id] == wait[id]
    ensures IdOk(events, n + 1, o, ops'[r], r, id, wait')
  {
    hide Cut, StillWriting, FirstIn;
    OneEvent(events, o, n);
    assert SubscriptionOk(ops[r], ops'[r], r, id, wait, batch);
    var m := Response(events, o, id, n + 1);
    if m.Some? {
      assert m.value.id == id;
      assert MessageOk(ops[r], ops'[r], r, m.value, wait, batch);
    }
  }

  lemma MessageRead(events: seq<Event>, n: nat, o: nat, ops: Ops, wait: Wait, batch: seq<Msg>, ops': Ops, r: Ref, m: Msg)
    requires o < n < |events| && events[n] == Read(batch) && r in ops && r in ops' && m in ops'[r].sent
    requires Delivered(ops, ops', wait, batch) && WaitsKnown(ops, wait) && SameRequests(ops, ops')
    requires m in ops[r].sent ==> m.id in ops[r].ids && Response(events, o, m.id, n) == Some(m)
    requires m.id in ops[r].ids ==> IdOk(events, n, o, ops[r], r, m.id, wait)
    ensures m.id in ops'[r].ids && Response(events, o, m.id, n + 1) == Some(m)
  {
    hide Cut, StillWriting, FirstIn;
    assert MessageOk(ops[r], ops'[r], r, m, wait, batch);
    if m !in ops[r].sent {
      assert m.id in wait && wait[m.id] == r;
    }
  }

  /** An event that brings no response: what waits is taken down exactly as it is cut off. */
  lemma OtherBooks(events: seq<Event>, n: nat, made: seq<nat>, ops: Ops, wait: Wait, lastOp: Option<Ref>, ops': Ops, wait': Wait, lastOp': Option<Ref>)
    requires n < |events| && Books(events, n, made, ops, wait, lastOp) && !events[n].Read? && SameRequests(ops, ops')
    requires Requests(events, n + 1, made, ops', lastOp')
    requires forall r :: r in ops ==> ops'[r].sent == ops[r].sent
    requires forall r, id :: r in ops && id in ops[r].ids ==>
               (id in wait' && wait'[id] == r <==> id in wait && wait[id] == r && !Cut(events, made[r], n + 1))
    ensures Books(events, n + 1, made, ops', wait', lastOp')
  {
    hide Cut, StillWriting, Requests;
    RequestsBefore(events, n, made, ops, lastOp);
    forall r, id | r in ops' && id in ops'[r].ids ensures IdOk(events, n + 1, made[r], ops'[r], r, id, wait') {
      assert IdOk(events, n, made[r], ops[r], r, id, wait);
      OneEvent(events, made[r], n);
    }
  }

  /** Nothing that waits has been cut off. */
  lemma WaitingNotCut(events: seq<Event>, n: nat, made: seq<nat>, ops: Ops, wait: Wait, lastOp: Option<Ref>)
    requires n <= |events| && Books(events, n, made, ops, wait, lastOp)
    ensures forall r, id :: r in ops && id in ops[r].ids && id in wait && wait[id] == r ==> !Cut(events, made[r], n)
  {
    hide Cut, Response, StillWriting;
    forall r, id | r in ops && id in ops[r].ids && id in wait && wait[id] == r ensures !Cut(events, made[r], n) {
      assert IdOk(events, n, made[r], ops[r], r, id, wait);
    }
  }

  /** An event that neither brings a response nor cuts anything off. */
  lemma IdleBooks(events: seq<Event>, n: nat, made: seq<nat>, ops: Ops, wait: Wait, lastOp: Option<Ref>)
    requires n < |events| && Books(events, n, made, ops, wait, lastOp)
    requires events[n].Request? || (events[n].Sent? && lastOp == None)
    ensures Books(events, n + 1, made, ops, wait, lastOp)
  {
    hide Cut, StillWriting, IdOk, Response;
    forall r | r in ops ensures (StillWriting(events, made[r], n + 1) <==> lastOp == Some(r)) && (Cut(events, made[r], n + 1) <==> Cut(events, made[r], n)) {
      OneEvent(events, made[r], n);
    }
    WaitingNotCut(events, n, made, ops, wait, lastOp);
    OtherBooks(events, n, made, ops, wait, lastOp, ops, wait, lastOp);
  }

  /** The connection breaks: everything is cut off, and nothing waits any more. */
  lemma BrokenBooks(events: seq<Event>, n: nat, made: seq<nat>, ops: Ops, wait: Wait, lastOp: Option<Ref>, ops': Ops)
    requires n < |events| && Books(events, n, made, ops, wait, lastOp) && events[n].ReadErr? && SameRequests(ops, ops')
    requires forall r :: r in ops ==> ops'[r].sent == ops[r].sent
    ensures Books(events, n + 1, made, ops', map[], lastOp)
  {
    hide Cut, StillWriting, IdOk, Response, Requests;
    RequestsOn(events, n, made, ops, ops', lastOp);
    RequestsBefore(events, n, made, ops, lastOp);
    forall r | r in ops ensures Cut(events, made[r], n + 1) {
      OneEvent(events, made[r], n);
    }
    OtherBooks(events, n, made, ops, wait, lastOp, ops', map[], lastOp);
  }

  /** A write is finished: its request is cut off if it failed, and no other is. */
  lemma WrittenBooks(events: seq<Event>, n: nat, made: seq<nat>, ops: Ops, wait: Wait, r: Ref, ops': Ops, wait': Wait)
    requires n < |events| && Books(events, n, made, ops, wait, Some(r)) && events[n].Sent? && r in ops && SameRequests(ops, ops')
    requires forall s :: s in ops ==> ops'[s].sent == ops[s].sent
    requires Apart(ops) && forall id :: id in wait' ==> id in wait && wait'[id] == wait[id]
    requires if events[n].failed then forall id :: id in wait' <==> id in wait && id !in ops[r].ids else wait' == wait
    ensures Books(events, n + 1, made, ops', wait', None)
  {
    hide Cut, StillWriting, IdOk, Response;
    forall s | s in ops
      ensures !StillWriting(events, made[s], n + 1)
      ensures Cut(events, made[s], n + 1) <==> Cut(events, made[s], n) || (s == r && events[n].failed) {
      OneEvent(events, made[s], n);
    }
    WaitingNotCut(events, n, made, ops, wait, Some(r));
    OtherBooks(events, n, made, ops, wait, Some(r), ops', wait', None);
  }

  /** A request is accepted. */
  lemma AcceptedBooks(events: seq<Event>, n: nat, made: seq<nat>, ops: Ops, wait: Wait, op: Op, wait': Wait)
    requires n < |events| && Books(events, n, made, ops, wait, None) && WaitsKnown(ops, wait)
    requires events[n] == Request(op.ids, op.sub) && op.sent == [] && forall s, id :: s in ops && id in ops[s].ids ==> id !in op.ids
    requires forall id :: id in op.ids ==> id in wait' && wait'[id] == |made|
    requires forall id :: id !in op.ids ==> (id in wait' <==> id in wait) && (id in wait' ==> wait'[id] == wait[id])
    ensures Books(events, n + 1, made + [n], ops[|made| := op], wait', Some(|made|))
  {
    hide Cut, StillWriting, Response, IdOk;
    IdleBooks(events, n, made, ops, wait, None);
    JustMade(events, n);
    var ops', made' := ops[|made| := op], made + [n];
    forall r | r in ops' ensures StillWriting(events, made'[r], n + 1) <==> r == |made| {
      if r in ops {
        assert made'[r] == made[r];
      }
    }
    forall r, id | r in ops' && id in ops'[r].ids ensures IdOk(events, n + 1, made'[r], ops'[r], r, id, wait') {
      if r == |made| {
        FreshIdOk(events, n, op, r, id, wait');
      } else {
        assert IdOk(events, n + 1, made[r], ops[r], r, id, wait);
        SameIdOk(events, n + 1, made[r], ops[r], r, id, wait, wait');
      }
    }
  }

  lemma JustMade(events: seq<Event>, n: nat)
    requires n < |events|
    ensures StillWriting(events, n, n + 1) && !Cut(events, n, n + 1)
  {
  }

  lemma FreshIdOk(events: seq<Event>, n: nat, op: Op, r: Ref, id: Id, wait: Wait)
    requires n < |events| && id in wait && wait[id] == r
    ensures IdOk(events, n + 1, n, op, r, id, wait)
  {
    JustMade(events, n);
  }

  lemma SameIdOk(events: seq<Event>, n: nat, o: nat, op: Op, r: Ref, id: Id, wait: Wait, wait': Wait)
    requires n <= |events| && IdOk(events, n, o, op, r, id, wait)
    requires (id in wait' <==> id in wait) && (id in wait' ==> wait'[id] == wait[id])
    ensures IdOk(events, n, o, op, r, id, wait')
  {
    hide Response, Cut;
  }

  /** New IDs are those of no operation yet. */
  lemma NewToAll(events: seq<Event>, n: nat, made: seq<nat>, ops: Ops, lastOp: Option<Ref>, ids: seq<Id>, sub: bool)
    requires Requests(events, n, made, ops, lastOp) && n < |events| && NewIds(events[..n + 1], made, ids, sub)
    ensures |made| !in ops && forall r, id :: r in ops && id in ops[r].ids ==> id !in ids
  {
    hide StillWriting;
    forall r, id | r in ops && id in ops[r].ids ensures id !in ids {
      assert events[..n + 1][made[r]] == events[made[r]];
    }
  }

  lemma AcceptedStep(events: seq<Event>, i: nat)
    requires i < |events|
    ensures events[..i + 1][..i] == events[..i] && events[..i + 1][i] == events[i]
  {
  }

  /** One event of the dispatch loop. */
  method Dispatch(d: Dispatcher, events: seq<Event>, n: nat)
    requires d.Valid() && n < |events| && (Accepted(events[..n]).busy <==> d.lastOp.Some?)
    requires Books(events, n, Accepted(events[..n]).made, d.ops, d.respWait, d.lastOp)
    modifies d
    ensures d.Valid() && (Accepted(events[..n + 1]).busy <==> d.lastOp.Some?)
    ensures Books(events, n + 1, Accepted(events[..n + 1]).made, d.ops, d.respWait, d.lastOp)
  {
    hide Exact, Apart, OpOk, Answered, Books, Dispatcher.Valid, NewIds, Delivered, Responded;
    var a := Accepted(events[..n]);
    AcceptedStep(events, n);
    Rules(d);
    ghost var ops, wait, lastOp := d.ops, d.respWait, d.lastOp;
    match events[n] {
      case Request(ids, sub) => {
        if !a.busy && NewIds(events[..n + 1], a.made, ids, sub) {
          AcceptNew(d, events, n, a.made, ids, sub);
        } else {
          IdleBooks(events, n, a.made, ops, wait, lastOp);
        }
      }
      case Sent(failed) => {
        if d.lastOp.Some? {
          d.SendDone(d.lastOp.value, failed);
          WrittenBooks(events, n, a.made, ops, wait, lastOp.value, d.ops, d.respWait);
        } else {
          IdleBooks(events, n, a.made, ops, wait, lastOp);
        }
      }
      case Read(batch) => {
        d.HandleBatch(batch);
        forall id ensures Responded(batch, id) <==> FirstIn(batch, id).Some? {
          FirstInResponded(batch, id);
        }
        Rules(d);
        ReadBooks(events, n, a.made, ops, wait, lastOp, batch, d.ops, d.respWait);
      }
      case ReadErr(err) => {
        d.CloseRequestOps(err);
        BrokenBooks(events, n, a.made, ops, wait, lastOp, d.ops);
      }
    }
  }

  /** A request event, when the request is accepted. */
  method AcceptNew(d: Dispatcher, events: seq<Event>, n: nat, made: seq<nat>, ids: seq<Id>, sub: bool)
    requires d.Valid() && n < |events| && d.lastOp == None && events[n] == Request(ids, sub) && NewIds(events[..n + 1], made, ids, sub)
    requires Books(events, n, made, d.ops, d.respWait, None)
    modifies d
    ensures d.Valid() && d.lastOp.Some? && Books(events, n + 1, made + [n], d.ops, d.respWait, d.lastOp)
  {
    hide Exact, Apart, OpOk, Answered, Dispatcher.Valid;
    Rules(d);
    ghost var ops, wait := d.ops, d.respWait;
    NewToAll(events, n, made, ops, None, ids, sub);
    var r: Ref := |made|;
    d.Accept(r, ids, sub);
    AcceptedBooks(events, n, made, ops, wait, d.ops[r], d.respWait);
  }

  lemma Rules(d: Dispatcher)
    requires d.Valid()
    ensures WaitsKnown(d.ops, d.respWait) && Apart(d.ops) && (d.lastOp.Some? ==> d.lastOp.value in d.ops)
    ensures forall r :: r in d.ops && d.ops[r].sub ==> d.ops[r].sent == []
    ensures forall r :: r in d.ops ==> OpOk(d.ops[r])
  {
    forall r | r in d.ops ensures OpOk(d.ops[r]) {
    }
  }

  /** There is an operation for each accepted request and no other, and each ID of it got the first response that came in time, and no other. */
  ghost predicate Settled(events: seq<Event>, made: seq<nat>, ops: Ops) {
    && (forall r: Ref :: r in ops <==> r < |made|)
    && (forall r :: r in ops ==> made[r] < |events| && events[made[r]] == Request(ops[r].ids, ops[r].sub))
    && (forall r, id :: r in ops && id in ops[r].ids ==>
          var m := Response(events, made[r], id, |events|); m.Some? ==> if ops[r].sub then ops[r].closed else m.value in ops[r].sent)
    && (forall r, m :: r in ops && m in ops[r].sent ==> m.id in ops[r].ids && Response(events, made[r], m.id, |events|) == Some(m))
  }

  lemma SettledByBooks(events: seq<Event>, made: seq<nat>, ops: Ops, wait: Wait, lastOp: Option<Ref>, ops': Ops)
    requires Books(events, |events|, made, ops, wait, lastOp) && SameRequests(ops, ops')
    requires forall r :: r in ops ==> ops'[r].sent == ops[r].sent
    ensures Settled(events, made, ops')
  {
    hide Response, Cut, StillWriting;
    forall r, id | r in ops' && id in ops'[r].ids
      ensures var m := Response(events, made[r], id, |events|); m.Some? ==> if ops'[r].sub then ops'[r].closed else m.value in ops'[r].sent {
      assert IdOk(events, |events|, made[r], ops[r], r, id, wait);
    }
  }

  /**
   Whatever happens in a session, in the end there is an operation for each request accepted and no other.
   Each ID of it got the first response that was read after the request was accepted and before it was cut
   off, by the connection breaking or its write failing, and no other response; a subscription was closed by
   it. No channel overflowed, and nothing waits: each ID was answered, or the send failed, or the channel was
   closed.
   */
  method Session(parse: string -> Option<SubId>, events: seq<Event>) returns (ops: Ops)
    ensures Settled(events, Accepted(events).made, ops)
    ensures forall r :: r in ops ==> OpOk(ops[r]) && |ops[r].sent| <= |ops[r].ids|
    ensures forall r, id :: r in ops && id in ops[r].ids ==> ops[r].closed || ops[r].failed || id in Answered(ops[r].sent)
  {
    hide Exact, Apart, OpOk, Answered, Books, Settled;
    var d := new Dispatcher(parse);
    assert Books(events, 0, [], map[], d.respWait, None) by { NoBooks(events, d.respWait); }
    for n := 0 to |events|
      invariant d.Valid() && fresh(d) && (Accepted(events[..n]).busy <==> d.lastOp.Some?)
      invariant Books(events, n, Accepted(events[..n]).made, d.ops, d.respWait, d.lastOp)
    {
      Dispatch(d, events, n);
    }
    assert events[..|events|] == events;
    ghost var last, wait := d.ops, d.respWait;
    d.CloseRequestOps("client quit");
    ops := d.ops;
    SettledByBooks(events, Accepted(events).made, last, wait, d.lastOp, ops);
    forall r | r in ops ensures |ops[r].sent| <= |ops[r].ids| {
      WithinCapacity(ops[r]);
    }
  }

  lemma NoBooks(events: seq<Event>, wait: Wait)
    ensures Books(events, 0, [], map[], wait, None)
  {
  }

  lemma WithinCapacity(op: Op)
    requires OpOk(op)
    ensures |op.sent| <= |op.ids|
  {
    var all := set i | i in op.ids;
    AnsweredSize(op.sent);
    IdSetSize(op.ids);
    SubsetSize(Answered(op.sent), all);
  }
}
