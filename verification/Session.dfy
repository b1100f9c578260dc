/**
 A connection from the key exchange on (`p2p/rlpx.go`, `doProtoHandshake` and after): each end writes
 its protocol handshake while it waits for the other's, both uncompressed, and from then on whatever
 the two have to say to each other, compressed. Both ends run this program, so both are of the version
 that compresses. What the handshakes say is not part of this model; each is the first message of its end.
 */
module Session {
  import opened Collections
  import opened Bytes
  import opened Rlp
  import opened Rlpx
  import opened Handshake

  /** Within the limit compressed or not. */
  ghost predicate Fits(c: Suite, msg: Msg) {
    InLimit(c, false, msg) && InLimit(c, true, msg)
  }

  ghost predicate AllFit(c: Suite, msgs: seq<Msg>) {
    forall m :: m in msgs ==> Fits(c, m)
  }

  lemma TailFits(c: Suite, msgs: seq<Msg>)
    requires AllFit(c, msgs) && msgs != []
    ensures Fits(c, msgs[0]) && AllFit(c, msgs[1..])
  {
    hide Fits;
  }

  ghost function Packed(c: Suite, k: Keys, h: Half, msgs: seq<Msg>): (seq<byte>, Half)
    requires AllFit(c, msgs)
  {
    WriteAll(c, k, true, h, msgs)
  }

  ghost function Frame(c: Suite, k: Keys, snappy: bool, h: Half, msg: Msg): (seq<byte>, Half)
    requires Fits(c, msg)
  {
    WriteOk(c, k, snappy, h, msg);
    Write(c, k, snappy, h, msg).value
  }

  /** The frames of what one end writes, from the state `h` on: the first message ever is not compressed. */
  ghost function Frames(c: Suite, k: Keys, greeted: bool, h: Half, msgs: seq<Msg>): (seq<byte>, Half)
    requires AllFit(c, msgs)
  {
    if greeted then Packed(c, k, h, msgs)
    else if msgs == [] then ([], h)
    else
      TailFits(c, msgs);
      var (first, next) := Frame(c, k, false, h, msgs[0]);
      var (rest, last) := Packed(c, k, next, msgs[1..]);
      (first + rest, last)
  }

  lemma PackedOneMore(c: Suite, k: Keys, h: Half, msgs: seq<Msg>, msg: Msg)
    requires AllFit(c, msgs) && Fits(c, msg)
    ensures var (wire, last) := Packed(c, k, h, msgs);
            var (more, end) := Frame(c, k, true, last, msg);
            AllFit(c, msgs + [msg]) && Packed(c, k, h, msgs + [msg]) == (wire + more, end)
  {
    hide Write, InLimit, WriteAll;
    WriteAllSplits(c, k, true, h, msgs, [msg]);
    WriteOne(c, k, true, WriteAll(c, k, true, h, msgs).1, msg);
  }

  lemma PackedFirst(c: Suite, k: Keys, h: Half, msgs: seq<Msg>)
    requires AllFit(c, msgs) && msgs != []
    ensures Fits(c, msgs[0]) && AllFit(c, msgs[1..])
    ensures var (first, next) := Frame(c, k, true, h, msgs[0]);
            var (rest, last) := Packed(c, k, next, msgs[1..]);
            Packed(c, k, h, msgs) == (first + rest, last)
  {
    hide Write, InLimit;
    TailFits(c, msgs);
  }

  /** One message more is one frame more, compressed unless it is the first. */
  lemma FramesOneMore(c: Suite, k: Keys, greeted: bool, h: Half, msgs: seq<Msg>, msg: Msg)
    requires AllFit(c, msgs) && Fits(c, msg)
    ensures var (wire, last) := Frames(c, k, greeted, h, msgs);
            var (more, end) := Frame(c, k, greeted || msgs != [], last, msg);
            AllFit(c, msgs + [msg]) && Frames(c, k, greeted, h, msgs + [msg]) == (wire + more, end)
  {
    hide Frame, Packed, Fits;
    if greeted {
      PackedOneMore(c, k, h, msgs, msg);
    } else if msgs == [] {
      var (first, next) := Frame(c, k, false, h, msg);
      NothingPacked(c, k, next);
      assert ([] + [msg])[1..] == [] && ([] + [msg])[0] == msg;
      assert first + [] == [] + first;
    } else {
      TailFits(c, msgs);
      var (first, next) := Frame(c, k, false, h, msgs[0]);
      PackedOneMore(c, k, next, msgs[1..], msg);
      assert (msgs + [msg])[1..] == msgs[1..] + [msg];
      var (rest, last) := Packed(c, k, next, msgs[1..]);
      var (more, end) := Frame(c, k, true, last, msg);
      assert first + (rest + more) == first + rest + more;
    }
  }

  lemma NothingPacked(c: Suite, k: Keys, h: Half)
    ensures Packed(c, k, h, []) == ([], h)
  {
  }

  /** The first of the frames reads back as the first message, by a reader in the writer's state, and leaves the rest. */
  lemma FramesFirst(c: Suite, k: Keys, greeted: bool, h: Half, msgs: seq<Msg>) returns (next: Half, rest: seq<byte>)
    requires Lawful(c) && AllFit(c, msgs) && msgs != []
    ensures AllFit(c, msgs[1..])
    ensures var (wire, last) := Frames(c, k, greeted, h, msgs);
            && Read(c, k, greeted, h, wire) == Ok((msgs[0], next, rest))
            && Frames(c, k, true, next, msgs[1..]) == (rest, last)
  {
    hide Write, Read, Packed, InLimit, Lawful;
    TailFits(c, msgs);
    var (first, state) := Frame(c, k, greeted, h, msgs[0]);
    next := state;
    rest := Packed(c, k, next, msgs[1..]).0;
    if greeted {
      PackedFirst(c, k, h, msgs);
    }
    ReadWrite(c, k, greeted, h, msgs[0], rest);
  }

  // ---------------------------------------------------------------- two ends

  /** What one end has said and heard. */
  datatype Side = Side(put: seq<Msg>, got: seq<Msg>)
  datatype Talk = Talk(caller: Side, callee: Side)

  /** A message is said unless our handshake is out and the other's is not in. */
  function Spoken(me: Side, msg: Msg): Side {
    if me.put != [] && me.got == [] then me else me.(put := me.put + [msg])
  }

  /** The next message is heard if there is one, unless the other's handshake is in and ours is not out. */
  function Heard(me: Side, other: Side): Side {
    if |me.got| >= |other.put| || (me.got != [] && me.put == []) then me else me.(got := other.put[..|me.got| + 1])
  }

  class End {
    const rw: FrameRW
    var wrote: bool     // our protocol handshake
    var greeted: bool   // and theirs has been read
    var put: seq<Msg>
    var got: seq<Msg>

    constructor (rw: FrameRW)
      ensures this.rw == rw && !wrote && !greeted && put == got == []
    {
      this.rw := rw;
      wrote, greeted, put, got := false, false, [], [];
    }

    ghost function Record(): Side
      reads this
    {
      Side(put, got)
    }

    /** Compression is turned on when the handshake is over. */
    ghost predicate Local()
      reads this, rw
    {
      && (wrote <==> put != []) && (greeted <==> got != [])
      && (rw.snappy <==> wrote && greeted) && rw.sent == []
    }
  }

  /** What is on its way from `x` to `y` is what `x` put and `y` has not got, in frames that `y` is ready to read. */
  ghost predicate Toward(x: End, y: End)
    reads x, y, x.rw, y.rw
  {
    && y.got <= x.put && AllFit(y.rw.c, x.put[|y.got|..])
    && Frames(y.rw.c, y.rw.keys, y.greeted, y.rw.Rx(), x.put[|y.got|..]) == (y.rw.incoming, x.rw.Tx())
  }

  ghost predicate Joined(x: End, y: End)
    reads x, y, x.rw, y.rw
  {
    && x != y && x.rw != y.rw && x.rw.c == y.rw.c && x.rw.keys == y.rw.keys && Lawful(x.rw.c)
    && x.Local() && y.Local() && Toward(x, y) && Toward(y, x)
  }

  /** Nothing is on its way to `y` exactly if it has got everything that `x` put. */
  lemma NothingLeftBehind(x: End, y: End)
    requires Joined(x, y)
    ensures y.rw.incoming == [] <==> y.got == x.put
  {
    hide Lawful, Frames, AllFit;
    var unread := x.put[|y.got|..];
    if unread == [] {
      NothingInFlight(y.rw.c, y.rw.keys, y.rw.Rx());
    } else {
      var next, rest := FramesFirst(y.rw.c, y.rw.keys, y.greeted, y.rw.Rx(), unread);
    }
  }

  /** `x` has a message to send: its handshake first, and another only when the handshake is over. */
  method Send(x: End, y: End, msg: Msg)
    requires Joined(x, y) && Fits(x.rw.c, msg)
    modifies x, x.rw, y.rw`incoming
    ensures Joined(x, y) && x.Record() == Spoken(old(x.Record()), msg) && x.got == old(x.got)
  {
    hide Write, InLimit, Lawful, Frames, AllFit;
    if x.wrote && !x.greeted {
      return;
    }
    ghost var unread := x.put[|y.got|..];
    assert x.rw.snappy <==> y.greeted || unread != [];
    FramesOneMore(y.rw.c, y.rw.keys, y.greeted, y.rw.Rx(), unread, msg);
    WriteOk(x.rw.c, x.rw.keys, x.rw.snappy, x.rw.Tx(), msg);
    ghost var bytes, tx := Frame(x.rw.c, x.rw.keys, x.rw.snappy, x.rw.Tx(), msg).0, Frame(x.rw.c, x.rw.keys, x.rw.snappy, x.rw.Tx(), msg).1;
    var _ := x.rw.WriteMsg(msg);
    assert x.rw.sent == bytes && x.rw.Tx() == tx;
    y.rw.incoming, x.rw.sent := y.rw.incoming + x.rw.sent, [];
    x.wrote, x.put := true, x.put + [msg];
    if x.greeted {
      x.rw.snappy := true;
    }
    assert x.put[|y.got|..] == unread + [msg];
  }

  /** `x` reads, if there is anything to read and its own handshake does not hold it up: it gets what comes next. */
  method Receive(x: End, y: End) returns (r: Option<Result<Msg>>)
    requires Joined(x, y)
    modifies x, x.rw
    ensures Joined(x, y) && x.Record() == Heard(old(x.Record()), y.Record())
    ensures r == if x.got == old(x.got) then None else Some(Ok(x.got[|x.got| - 1]))
  {
    hide Read, InLimit, Lawful, Frames, AllFit;
    NothingLeftBehind(y, x);
    if x.rw.incoming == [] || (x.greeted && !x.wrote) {
      return None;
    }
    ghost var unread := y.put[|x.got|..];
    ghost var next, rest := FramesFirst(x.rw.c, x.rw.keys, x.greeted, x.rw.Rx(), unread);
    var msg := x.rw.ReadMsg();
    r := Some(msg);
    if msg.Ok? {
      x.greeted, x.got := true, x.got + [msg.value];
      if x.wrote {
        x.rw.snappy := true;
      }
    }
    assert y.put[|x.got|..] == unread[1..];
  }

  // ---------------------------------------------------------------- whole connections

  datatype Event = Put(caller: bool, msg: Msg) | Get(caller: bool)

  /** What the events come to over two perfect channels: nothing is lost, doubled or reordered, and nothing needs a key. */
  ghost function Talked(events: seq<Event>): (t: Talk)
    ensures t.callee.got <= t.caller.put && t.caller.got <= t.callee.put
  {
    if events == [] then Talk(Side([], []), Side([], []))
    else
      var t := Talked(events[..|events| - 1]);
      match events[|events| - 1]
      case Put(true, msg) => t.(caller := Spoken(t.caller, msg))
      case Put(false, msg) => t.(callee := Spoken(t.callee, msg))
      case Get(true) => t.(caller := Heard(t.caller, t.callee))
      case Get(false) => t.(callee := Heard(t.callee, t.caller))
  }

  lemma TalkedOn(events: seq<Event>, i: nat)
    requires i < |events|
    ensures events[..i + 1][..i] == events[..i] && events[..i + 1][i] == events[i]
  {
  }

  function Of(t: Talk, caller: bool): Side {
    if caller then t.caller else t.callee
  }

  lemma ReadOneMore(events: seq<Event>, caller: bool)
    ensures var before, after := Talked(events), Talked(events + [Get(caller)]);
            && Of(after, !caller) == Of(before, !caller)
            && Of(after, caller) == Heard(Of(before, caller), Of(before, !caller))
            && Of(before, caller).got <= Of(before, !caller).put
  {
    assert (events + [Get(caller)])[..|events|] == events;
  }

  /** An end that has written its handshake gets all that the other put by reading as often as something is missing. */
  lemma {:induction false} ReadToTheEnd(events: seq<Event>, caller: bool, n: nat)
    requires Of(Talked(events), caller).put != []
    ensures var before, after := Talked(events), Talked(events + seq(n, i => Get(caller)));
            var missing := |Of(before, !caller).put| - |Of(before, caller).got|;
            && Of(after, !caller) == Of(before, !caller) && Of(after, caller).put == Of(before, caller).put
            && |Of(after, caller).got| == |Of(before, caller).got| + (if n < missing then n else missing)
            && (n >= missing ==> Of(after, caller).got == Of(before, !caller).put)
  {
    hide Talked;
    var more := events + seq(n, i => Get(caller));
    if n == 0 {
      assert more == events;
    } else {
      var fewer := events + seq(n - 1, i => Get(caller));
      ReadToTheEnd(events, caller, n - 1);
      assert more == fewer + [Get(caller)];
      ReadOneMore(fewer, caller);
    }
  }

  /**
   A whole connection, from the key exchange on, with the two ends sending and reading in any order: both
   ends have put and got what they would over two perfect channels, and every read that did not have to
   wait succeeded, with the messages got. An end has got all that the other put exactly if nothing is on its
   way to it. The exchange fails only if a pair of keys has no secret.
   */
  method Connect(c: Suite, e: Curve, dialer: Key, listener: Key, dialerRandom: Key, listenerRandom: Key,
                 initNonce: Digest, respNonce: Digest, auth: seq<byte>, authResp: seq<byte>, events: seq<Event>)
      returns (r: Option<(End, End)>, callerReads: seq<Result<Msg>>, calleeReads: seq<Result<Msg>>)
    requires LawfulCurve(e) && Lawful(c) && forall ev :: ev in events && ev.Put? ==> Fits(c, ev.msg)
    ensures r.Some? <==> e.shared(dialer, e.pub(listener)).Some? && e.shared(dialerRandom, e.pub(listenerRandom)).Some?
    ensures r.Some? ==> var (x, y) := r.value; Joined(x, y) && Talk(x.Record(), y.Record()) == Talked(events)
    ensures r.Some? ==> callerReads == Delivered(r.value.0.got) && calleeReads == Delivered(r.value.1.got)
    ensures r.Some? ==> var (x, y) := r.value; (y.rw.incoming == [] <==> y.got == x.put) && (x.rw.incoming == [] <==> x.got == y.put)
  {
    hide Lawful, Frames, AllFit, Fits, LawfulCurve, Spoken, Heard, Toward, End.Local;
    var ends, _, _ := Exchange(c, e, dialer, listener, dialerRandom, listenerRandom, initNonce, respNonce, auth, authResp);
    callerReads, calleeReads := [], [];
    if ends.None? {
      return None, [], [];
    }
    var (a, b) := ends.value;
    var x := new End(a);
    var y := new End(b);
    StartJoined(x, y);
    for i := 0 to |events|
      invariant Joined(x, y) && x.rw.c == c && fresh(x) && fresh(y) && fresh(x.rw) && fresh(y.rw)
      invariant Talk(x.Record(), y.Record()) == Talked(events[..i])
      invariant callerReads == Delivered(x.got) && calleeReads == Delivered(y.got)
    {
      TalkedOn(events, i);
      match events[i] {
        case Put(true, msg) => Send(x, y, msg);
        case Put(false, msg) => Send(y, x, msg);
        case Get(true) =>
          callerReads := ReadOnce(x, y, callerReads);
        case Get(false) =>
          calleeReads := ReadOnce(y, x, calleeReads);
      }
    }
    assert events[..|events|] == events;
    NothingLeftBehind(x, y);
    NothingLeftBehind(y, x);
    r := Some((x, y));
  }

  /** One read, whose result is added to those before. */
  method ReadOnce(x: End, y: End, before: seq<Result<Msg>>) returns (after: seq<Result<Msg>>)
    requires Joined(x, y) && before == Delivered(x.got)
    modifies x, x.rw
    ensures Joined(x, y) && x.Record() == Heard(old(x.Record()), y.Record()) && after == Delivered(x.got)
  {
    hide Lawful, Frames, AllFit;
    var r := Receive(x, y);
    after := before + if r.Some? then [r.value] else [];
  }

  lemma StartJoined(x: End, y: End)
    requires x != y && x.rw != y.rw && Mirrored(x.rw, y.rw) && Lawful(x.rw.c)
    requires x.Record() == y.Record() == Side([], []) && !x.wrote && !x.greeted && !y.wrote && !y.greeted
    requires !x.rw.snappy && !y.rw.snappy && x.rw.sent == y.rw.sent == x.rw.incoming == y.rw.incoming == []
    ensures Joined(x, y)
  {
    hide Lawful;
    NothingInFlight(x.rw.c, x.rw.keys, x.rw.Rx());
    NothingInFlight(y.rw.c, y.rw.keys, y.rw.Rx());
  }

  lemma NothingInFlight(c: Suite, k: Keys, h: Half)
    ensures AllFit(c, []) && Frames(c, k, false, h, []) == Frames(c, k, true, h, []) == ([], h)
  {
  }
}
