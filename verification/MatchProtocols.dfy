/**
 Message-code multiplexing (`p2p/peer.go`, `p2p/protocol.go`): each side of a connection matches its
 own protocols with the capabilities the other side has announced, and lays out the codes of the
 protocols chosen one after the other. Nothing is said about the layout on the wire.
 */
module MatchProtocols {
  import opened Collections

  const BASE_PROTOCOL_LENGTH: nat := 16

  type Name = string
  datatype Cap = Cap(name: Name, version: nat)
  datatype Protocol = Protocol(name: Name, version: nat, length: nat)
  datatype ProtoRW = ProtoRW(proto: Protocol, offset: nat)

  function CapOf(p: Protocol): Cap { Cap(p.name, p.version) }

  /** The capabilities a node announces in its handshake. */
  function CapsOf(protocols: seq<Protocol>): (caps: seq<Cap>) {
    seq(|protocols|, i requires 0 <= i < |protocols| => CapOf(protocols[i]))
  }

  // ---------------------------------------------------------------- order

  predicate NameLess(a: Name, b: Name) {
    b != [] && (a == [] || a[0] < b[0] || (a[0] == b[0] && NameLess(a[1..], b[1..])))
  }

  /** `capsByNameAndVersion.Less` */
  predicate Less(c: Cap, d: Cap) {
    NameLess(c.name, d.name) || (c.name == d.name && c.version < d.version)
  }

  lemma {:induction false} NamesTotal(a: Name, b: Name)
    ensures NameLess(a, b) ==> a != b && !NameLess(b, a)
    ensures NameLess(a, b) || NameLess(b, a) || a == b
  {
    if a != [] && b != [] && a[0] == b[0] {
      NamesTotal(a[1..], b[1..]);
      assert a == [a[0]] + a[1..] && b == [b[0]] + b[1..];
    }
  }

  lemma {:induction false} NamesTransitive(a: Name, b: Name, c: Name)
    requires NameLess(a, b) && NameLess(b, c)
    ensures NameLess(a, c)
  {
    if a != [] && a[0] == b[0] == c[0] {
      NamesTransitive(a[1..], b[1..], c[1..]);
    }
  }

  lemma LessTransitive(c: Cap, d: Cap, e: Cap)
    requires !Less(d, c) && !Less(e, d)
    ensures !Less(e, c)
  {
    hide NameLess;
    NamesTotal(c.name, d.name);
    NamesTotal(d.name, e.name);
    NamesTotal(c.name, e.name);
    if NameLess(c.name, d.name) && NameLess(d.name, e.name) {
      NamesTransitive(c.name, d.name, e.name);
    }
  }

  ghost predicate SortedTo(s: seq<Cap>, n: nat)
    requires n <= |s|
  {
    forall i, j :: 0 <= i < j < n ==> !Less(s[j], s[i])
  }

  /** Sorted, except that the element at `k` may belong further left. */
  ghost predicate SortedBut(s: seq<Cap>, k: nat, n: nat)
    requires n <= |s|
  {
    forall i, j :: 0 <= i < j < n && j != k ==> !Less(s[j], s[i])
  }

  function SwapLeft(s: seq<Cap>, k: nat): seq<Cap>
    requires 0 < k < |s|
  {
    s[k - 1 := s[k]][k := s[k - 1]]
  }

  lemma SwappedLeft(s: seq<Cap>, k: nat, n: nat)
    requires 0 < k < n <= |s| && SortedBut(s, k, n) && Less(s[k], s[k - 1])
    ensures SortedBut(SwapLeft(s, k), k - 1, n)
  {
    hide NameLess;
    NamesTotal(s[k].name, s[k - 1].name);
  }

  lemma InPlace(s: seq<Cap>, k: nat, n: nat)
    requires k < n <= |s| && SortedBut(s, k, n) && (k > 0 ==> !Less(s[k], s[k - 1]))
    ensures SortedTo(s, n)
  {
    hide Less;
    forall i | 0 <= i < k ensures !Less(s[k], s[i]) {
      if i < k - 1 {
        LessTransitive(s[i], s[k - 1], s[k]);
      }
    }
  }

  lemma Extended(s: seq<Cap>, i: nat)
    requires i < |s| && SortedTo(s, i)
    ensures SortedBut(s, i, i + 1)
  {
  }

  lemma EmptySorted(s: seq<Cap>)
    ensures SortedTo(s, 0)
  {
  }

  /** `sort.Sort`, in the form it has for short slices. */
  method SortCaps(caps: array<Cap>)
    modifies caps
    ensures SortedTo(caps[..], caps.Length) && multiset(caps[..]) == multiset(old(caps[..]))
  {
    hide Less, SortedTo, SortedBut;
    EmptySorted(caps[..]);
    for i := 0 to caps.Length
      invariant SortedTo(caps[..], i)
      invariant multiset(caps[..]) == multiset(old(caps[..]))
    {
      var j := i;
      Extended(caps[..], i);
      while j > 0 && Less(caps[j], caps[j - 1])
        invariant j <= i && SortedBut(caps[..], j, i + 1)
        invariant multiset(caps[..]) == multiset(old(caps[..]))
      {
        ghost var s := caps[..];
        SwappedLeft(s, j, i + 1);
        caps[j], caps[j - 1] := caps[j - 1], caps[j];
        assert caps[..] == SwapLeft(s, j);
        j := j - 1;
      }
      InPlace(caps[..], j, i + 1);
    }
  }

  // ---------------------------------------------------------------- the choice

  function ProtoFor(protocols: seq<Protocol>, c: Cap): (p: Option<Protocol>)
    ensures p.Some? ==> p.value in protocols && CapOf(p.value) == c
    ensures p.None? <==> forall q :: q in protocols ==> CapOf(q) != c
  {
    if protocols == [] then None
    else if CapOf(protocols[0]) == c then Some(protocols[0])
    else ProtoFor(protocols[1..], c)
  }

  predicate Matches(protocols: seq<Protocol>, c: Cap) { ProtoFor(protocols, c).Some? }

  /** The capabilities and protocols, by place, that have one name and version; of the capability at `upTo` only the first `some`. */
  ghost function Pairs(protocols: seq<Protocol>, caps: seq<Cap>, upTo: nat, some: nat): set<(nat, nat)>
    requires upTo <= |caps|
  {
    set i: nat, j: nat | i < |caps| && j < |protocols| && (i < upTo || (i == upTo && j < some)) && CapOf(protocols[j]) == caps[i] :: (i, j)
  }

  lemma NextPair(protocols: seq<Protocol>, caps: seq<Cap>, i: nat, j: nat)
    requires i < |caps| && j < |protocols|
    ensures |Pairs(protocols, caps, i, j + 1)| ==
              |Pairs(protocols, caps, i, j)| + if CapOf(protocols[j]) == caps[i] then 1 else 0
  {
    var before, after := Pairs(protocols, caps, i, j), Pairs(protocols, caps, i, j + 1);
    forall p ensures p in after <==> p in before || (p == (i, j) && CapOf(protocols[j]) == caps[i]) {
    }
    OneMorePair(before, after, (i, j), CapOf(protocols[j]) == caps[i]);
  }

  lemma OneMorePair(before: set<(nat, nat)>, after: set<(nat, nat)>, p: (nat, nat), more: bool)
    requires p !in before && forall q :: q in after <==> q in before || (q == p && more)
    ensures |after| == |before| + if more then 1 else 0
  {
    assert after == if more then before + {p} else before;
  }

  lemma NoPairs(protocols: seq<Protocol>, caps: seq<Cap>)
    ensures |Pairs(protocols, caps, |caps|, 0)| == 0 <==> forall c :: c in caps ==> !Matches(protocols, c)
  {
    var pairs := Pairs(protocols, caps, |caps|, 0);
    forall c | c in caps && Matches(protocols, c) ensures pairs != {} {
      var i :| 0 <= i < |caps| && caps[i] == c;
      var j :| 0 <= j < |protocols| && CapOf(protocols[j]) == c;
      assert (i, j) in pairs;
    }
    if pairs != {} {
      var p :| p in pairs;
      assert Matches(protocols, caps[p.0]);
    }
  }

  /** `countMatchingProtocols`: how many pairs of a capability and a protocol have the same name and version. */
  method CountMatching(protocols: seq<Protocol>, caps: seq<Cap>) returns (n: nat)
    ensures n == |Pairs(protocols, caps, |caps|, 0)|
    ensures n == 0 <==> forall c :: c in caps ==> !Matches(protocols, c)
  {
    n := 0;
    assert Pairs(protocols, caps, 0, 0) == {};
    for i := 0 to |caps|
      invariant n == |Pairs(protocols, caps, i, 0)|
    {
      for j := 0 to |protocols|
        invariant n == |Pairs(protocols, caps, i, j)|
      {
        NextPair(protocols, caps, i, j);
        if protocols[j].name == caps[i].name && protocols[j].version == caps[i].version {
          n := n + 1;
        }
      }
      assert Pairs(protocols, caps, i, |protocols|) == Pairs(protocols, caps, i + 1, 0);
    }
    NoPairs(protocols, caps);
  }

  /** The highest version of its name that both sides have. */
  ghost predicate IsBest(c: Cap, protocols: seq<Protocol>, caps: seq<Cap>) {
    && c in caps && Matches(protocols, c)
    && forall d :: d in caps && d.name == c.name && Matches(protocols, d) ==> d.version <= c.version
  }

  ghost predicate Ascending(chosen: seq<Cap>) {
    forall i, j :: 0 <= i < j < |chosen| ==> NameLess(chosen[i].name, chosen[j].name)
  }

  function LengthOf(protocols: seq<Protocol>, c: Cap): nat {
    match ProtoFor(protocols, c) case None => 0 case Some(p) => p.length
  }

  function TotalLength(protocols: seq<Protocol>, chosen: seq<Cap>): nat {
    if chosen == [] then 0
    else TotalLength(protocols, chosen[..|chosen| - 1]) + LengthOf(protocols, chosen[|chosen| - 1])
  }

  /** One after the other, from the first code that the base protocol leaves free. */
  ghost predicate LaidOut(result: map<Name, ProtoRW>, protocols: seq<Protocol>, chosen: seq<Cap>) {
    && (forall n :: n in result ==> exists k :: 0 <= k < |chosen| && chosen[k].name == n)
    && (forall k :: 0 <= k < |chosen| ==> Placed(result, protocols, chosen, k))
  }

  ghost predicate Placed(result: map<Name, ProtoRW>, protocols: seq<Protocol>, chosen: seq<Cap>, k: nat)
    requires k < |chosen|
  {
    && chosen[k].name in result && ProtoFor(protocols, chosen[k]) == Some(result[chosen[k].name].proto)
    && result[chosen[k].name].offset == BASE_PROTOCOL_LENGTH + TotalLength(protocols, chosen[..k])
  }

  /** What `matchProtocols` has made of a sorted list of capabilities. */
  ghost predicate Matched(result: map<Name, ProtoRW>, offset: int, chosen: seq<Cap>, protocols: seq<Protocol>, caps: seq<Cap>) {
    && Ascending(chosen)
    && (forall c :: c in chosen <==> IsBest(c, protocols, caps))
    && LaidOut(result, protocols, chosen)
    && offset == BASE_PROTOCOL_LENGTH + TotalLength(protocols, chosen)
  }

  // ---------------------------------------------------------------- one capability after the other

  lemma PrefixBest(c: Cap, protocols: seq<Protocol>, caps: seq<Cap>, i: nat)
    requires i < |caps| && SortedTo(caps, |caps|)
    ensures !Matches(protocols, caps[i]) ==> (IsBest(c, protocols, caps[..i + 1]) <==> IsBest(c, protocols, caps[..i]))
    ensures Matches(protocols, caps[i]) ==>
              (IsBest(c, protocols, caps[..i + 1]) <==> c == caps[i] || (IsBest(c, protocols, caps[..i]) && c.name != caps[i].name))
  {
    hide NameLess, Matches;
    var before, after := caps[..i], caps[..i + 1];
    assert after == before + [caps[i]];
    forall d | d in before && d.name == caps[i].name ensures d.version <= caps[i].version {
      var k :| 0 <= k < i && caps[k] == d;
      assert !Less(caps[i], caps[k]);
    }
  }

  /** In a sorted list, a name that is already laid out is the last one laid out. */
  lemma LastName(chosen: seq<Cap>, protocols: seq<Protocol>, caps: seq<Cap>, i: nat)
    requires i < |caps| && SortedTo(caps, |caps|) && Ascending(chosen)
    requires forall c :: c in chosen <==> IsBest(c, protocols, caps[..i])
    ensures forall k :: 0 <= k < |chosen| && chosen[k].name == caps[i].name ==> k == |chosen| - 1
    ensures forall k :: 0 <= k < |chosen| && chosen[k].name != caps[i].name ==> NameLess(chosen[k].name, caps[i].name)
  {
    hide NameLess, Matches;
    forall k | 0 <= k < |chosen| ensures chosen[k].name == caps[i].name || NameLess(chosen[k].name, caps[i].name) {
      assert chosen[k] in chosen;
      assert IsBest(chosen[k], protocols, caps[..i]);
      var p :| 0 <= p < i && caps[p] == chosen[k];
      assert !Less(caps[i], caps[p]);
      NamesTotal(chosen[k].name, caps[i].name);
    }
    forall k | 0 <= k < |chosen| && chosen[k].name == caps[i].name ensures k == |chosen| - 1 {
      if k < |chosen| - 1 {
        assert NameLess(chosen[k].name, chosen[k + 1].name);
        NamesTotal(chosen[k].name, chosen[k + 1].name);
      }
    }
  }

  /** The names that stay in front when capability `i` is laid out. */
  function Kept(chosen: seq<Cap>, name: Name): (r: seq<Cap>)
    ensures |r| <= |chosen| && r == chosen[..|r|]
  {
    if chosen != [] && chosen[|chosen| - 1].name == name then chosen[..|chosen| - 1] else chosen
  }

  lemma TotalAppended(protocols: seq<Protocol>, kept: seq<Cap>, c: Cap)
    ensures TotalLength(protocols, kept + [c]) == TotalLength(protocols, kept) + LengthOf(protocols, c)
  {
    assert (kept + [c])[..|kept|] == kept;
  }

  lemma AscendingWith(kept: seq<Cap>, c: Cap)
    requires Ascending(kept) && forall k :: 0 <= k < |kept| ==> NameLess(kept[k].name, c.name)
    ensures Ascending(kept + [c])
  {
    hide NameLess;
  }

  lemma Relaid(result: map<Name, ProtoRW>, chosen: seq<Cap>, protocols: seq<Protocol>, kept: seq<Cap>, c: Cap, p: Protocol)
    requires LaidOut(result, protocols, chosen) && kept == Kept(chosen, c.name)
    requires forall k :: 0 <= k < |kept| ==> NameLess(kept[k].name, c.name)
    requires ProtoFor(protocols, c) == Some(p)
    ensures var offset := BASE_PROTOCOL_LENGTH + TotalLength(protocols, kept);
            LaidOut(result[c.name := ProtoRW(p, offset)], protocols, kept + [c])
  {
    hide NameLess, ProtoFor, TotalLength;
    var chosen' := kept + [c];
    var result' := result[c.name := ProtoRW(p, BASE_PROTOCOL_LENGTH + TotalLength(protocols, kept))];
    forall k | 0 <= k < |chosen'| ensures Placed(result', protocols, chosen', k) {
      if k < |kept| {
        assert chosen'[..k] == chosen[..k];
        assert Placed(result, protocols, chosen, k);
        NamesTotal(kept[k].name, c.name);
      } else {
        assert chosen'[..k] == kept;
      }
    }
    forall n | n in result' ensures exists k :: 0 <= k < |chosen'| && chosen'[k].name == n {
      if n == c.name {
        assert chosen'[|kept|].name == n;
      } else {
        var k :| 0 <= k < |chosen| && chosen[k].name == n;
        assert chosen'[k].name == n;
      }
    }
  }

  /** A capability that no protocol has changes nothing. */
  lemma SkippedCap(result: map<Name, ProtoRW>, offset: int, chosen: seq<Cap>, protocols: seq<Protocol>, caps: seq<Cap>, i: nat)
    requires i < |caps| && SortedTo(caps, |caps|) && Matched(result, offset, chosen, protocols, caps[..i])
    requires !Matches(protocols, caps[i])
    ensures Matched(result, offset, chosen, protocols, caps[..i + 1])
  {
    hide NameLess, Matches, IsBest, LaidOut, Ascending;
    forall c ensures c in chosen <==> IsBest(c, protocols, caps[..i + 1]) {
      PrefixBest(c, protocols, caps, i);
    }
  }

  /** A capability that some protocol has takes the place of an older version of its name, or the next place. */
  lemma ChosenCap(result: map<Name, ProtoRW>, offset: int, chosen: seq<Cap>, protocols: seq<Protocol>, caps: seq<Cap>, i: nat,
                  p: Protocol)
    requires i < |caps| && SortedTo(caps, |caps|) && Matched(result, offset, chosen, protocols, caps[..i])
    requires ProtoFor(protocols, caps[i]) == Some(p)
    ensures var c := caps[i];
            var start := if c.name in result then offset - result[c.name].proto.length else offset;
            && start >= 0
            && Matched(result[c.name := ProtoRW(p, start)], start + p.length, Kept(chosen, c.name) + [c], protocols, caps[..i + 1])
  {
    hide NameLess, ProtoFor, IsBest;
    var c, kept := caps[i], Kept(chosen, caps[i].name);
    LastName(chosen, protocols, caps, i);
    Relaid(result, chosen, protocols, kept, c, p);
    AscendingWith(kept, c);
    TotalAppended(protocols, kept, c);
    Reverted(result, protocols, chosen, c.name);
    forall d ensures d in kept + [c] <==> IsBest(d, protocols, caps[..i + 1]) {
      PrefixBest(d, protocols, caps, i);
      assert d in kept <==> d in chosen && d.name != c.name by { KeptNames(chosen, c.name, d); }
    }
  }

  /** Taking the last protocol's length off the offset is right if it has the name. */
  lemma Reverted(result: map<Name, ProtoRW>, protocols: seq<Protocol>, chosen: seq<Cap>, name: Name)
    requires LaidOut(result, protocols, chosen)
    requires forall k :: 0 <= k < |chosen| && chosen[k].name == name ==> k == |chosen| - 1
    ensures TotalLength(protocols, Kept(chosen, name)) ==
              TotalLength(protocols, chosen) - if name in result then result[name].proto.length else 0
  {
    hide ProtoFor;
    if name in result {
      var k :| 0 <= k < |chosen| && chosen[k].name == name;
      assert Placed(result, protocols, chosen, k);
    } else if chosen != [] {
      assert Placed(result, protocols, chosen, |chosen| - 1);
    }
  }

  lemma KeptNames(chosen: seq<Cap>, name: Name, d: Cap)
    requires forall k :: 0 <= k < |chosen| && chosen[k].name == name ==> k == |chosen| - 1
    ensures d in Kept(chosen, name) <==> d in chosen && d.name != name
  {
    var kept := Kept(chosen, name);
    if d in chosen && d.name != name {
      var k :| 0 <= k < |chosen| && chosen[k] == d;
      assert kept[k] == d;
    }
  }

  /** `matchProtocols`; the capabilities are sorted in place. */
  method MatchProtocols(protocols: seq<Protocol>, caps: array<Cap>) returns (result: map<Name, ProtoRW>, ghost chosen: seq<Cap>)
    modifies caps
    ensures multiset(caps[..]) == multiset(old(caps[..]))
    ensures exists offset :: Matched(result, offset, chosen, protocols, caps[..])
  {
    hide SortedTo, Matched, ProtoFor;
    SortCaps(caps);
    var offset: int := BASE_PROTOCOL_LENGTH;
    result := map[];
    chosen := [];
    ghost var sorted := caps[..];
    assert Matched(result, offset, chosen, protocols, sorted[..0]) by { NothingMatched(protocols, sorted[..0]); }
    for i := 0 to caps.Length
      invariant caps[..] == sorted
      invariant Matched(result, offset, chosen, protocols, sorted[..i])
    {
      var c := caps[i];
      var j := Find(protocols, c);
      if j < |protocols| {
        var p := protocols[j];
        ChosenCap(result, offset, chosen, protocols, sorted, i, p);
        chosen := Kept(chosen, c.name) + [c];
        if c.name in result {
          offset := offset - result[c.name].proto.length;
        }
        result := result[c.name := ProtoRW(p, offset)];
        offset := offset + p.length;
      } else {
        SkippedCap(result, offset, chosen, protocols, sorted, i);
      }
    }
    assert sorted[..caps.Length] == caps[..];
  }

  lemma NothingMatched(protocols: seq<Protocol>, caps: seq<Cap>)
    requires caps == []
    ensures Matched(map[], BASE_PROTOCOL_LENGTH, [], protocols, caps)
  {
  }

  /** The inner loop: the first protocol of this name and version. */
  method Find(protocols: seq<Protocol>, c: Cap) returns (j: nat)
    ensures j <= |protocols|
    ensures ProtoFor(protocols, c) == if j < |protocols| then Some(protocols[j]) else None
  {
    j := 0;
    while j < |protocols| && CapOf(protocols[j]) != c
      invariant j <= |protocols| && ProtoFor(protocols, c) == ProtoFor(protocols[j..], c)
    {
      assert protocols[j..][1..] == protocols[j + 1..];
      j := j + 1;
    }
  }

  // ---------------------------------------------------------------- both ends agree

  /** The same name and version stand for the same number of codes on both sides. */
  ghost predicate SameLengths(a: seq<Protocol>, b: seq<Protocol>) {
    forall p, q :: p in a && q in b && CapOf(p) == CapOf(q) ==> p.length == q.length
  }

  lemma AnnouncedIsMatched(protocols: seq<Protocol>, caps: seq<Cap>, c: Cap)
    requires multiset(caps) == multiset(CapsOf(protocols))
    ensures c in caps <==> Matches(protocols, c)
  {
    assert c in caps <==> c in multiset(caps);
    if c in caps {
      assert c in CapsOf(protocols);
      var k :| 0 <= k < |protocols| && CapsOf(protocols)[k] == c;
      assert CapOf(protocols[k]) == c;
    }
    if Matches(protocols, c) {
      var k :| 0 <= k < |protocols| && protocols[k] == ProtoFor(protocols, c).value;
      assert CapsOf(protocols)[k] == c;
      assert c in multiset(CapsOf(protocols));
    }
  }

  lemma BestForBoth(a: seq<Protocol>, b: seq<Protocol>, capsOfA: seq<Cap>, capsOfB: seq<Cap>, c: Cap)
    requires multiset(capsOfA) == multiset(CapsOf(a)) && multiset(capsOfB) == multiset(CapsOf(b))
    ensures IsBest(c, a, capsOfB) <==> IsBest(c, b, capsOfA)
  {
    hide Matches;
    forall d ensures (d in capsOfB <==> Matches(b, d)) && (d in capsOfA <==> Matches(a, d)) {
      AnnouncedIsMatched(a, capsOfA, d);
      AnnouncedIsMatched(b, capsOfB, d);
    }
  }

  /** An ascending list is determined by its elements. */
  lemma {:induction false} AscendingUnique(x: seq<Cap>, y: seq<Cap>)
    requires Ascending(x) && Ascending(y) && forall c :: c in x <==> c in y
    ensures x == y
  {
    assert y == [] || y[0] in x;
    if x != [] {
      assert x[0] in y;
      assert y != [] && y[0] in x;
      var j :| 0 <= j < |y| && y[j] == x[0];
      var k :| 0 <= k < |x| && x[k] == y[0];
      NamesTotal(x[0].name, y[0].name);
      assert x[0] == y[0];
      forall c ensures c in x[1..] <==> c in y[1..] {
        TailNames(x, c);
        TailNames(y, c);
      }
      AscendingUnique(x[1..], y[1..]);
      assert x == [x[0]] + x[1..] && y == [y[0]] + y[1..];
    }
  }

  lemma TailNames(x: seq<Cap>, c: Cap)
    requires x != [] && Ascending(x)
    ensures c in x[1..] <==> c in x && c != x[0]
  {
    assert x == [x[0]] + x[1..];
    if c in x[1..] {
      var k :| 0 <= k < |x| - 1 && x[1..][k] == c;
      assert NameLess(x[0].name, x[k + 1].name);
      NamesTotal(x[0].name, x[k + 1].name);
    }
  }

  lemma {:induction false} SameTotals(a: seq<Protocol>, b: seq<Protocol>, chosen: seq<Cap>)
    requires SameLengths(a, b) && forall c :: c in chosen ==> Matches(a, c) && Matches(b, c)
    ensures TotalLength(a, chosen) == TotalLength(b, chosen)
  {
    if chosen != [] {
      SameTotals(a, b, chosen[..|chosen| - 1]);
      assert chosen[|chosen| - 1] in chosen;
    }
  }

  /**
   Two nodes that match their protocols with each other's announced capabilities choose the same
   version of every name, give it the same codes, and leave no other name.
   */
  lemma SameLayout(a: seq<Protocol>, b: seq<Protocol>, capsOfA: seq<Cap>, capsOfB: seq<Cap>,
                   ra: map<Name, ProtoRW>, oa: int, ca: seq<Cap>, rb: map<Name, ProtoRW>, ob: int, cb: seq<Cap>)
    requires multiset(capsOfA) == multiset(CapsOf(a)) && multiset(capsOfB) == multiset(CapsOf(b)) && SameLengths(a, b)
    requires Matched(ra, oa, ca, a, capsOfB) && Matched(rb, ob, cb, b, capsOfA)
    ensures ca == cb && ra.Keys == rb.Keys
    ensures forall n :: n in ra ==>
              && ra[n].offset == rb[n].offset && CapOf(ra[n].proto) == CapOf(rb[n].proto)
              && ra[n].proto.length == rb[n].proto.length
  {
    hide IsBest, ProtoFor, NameLess, CapsOf;
    forall c ensures c in ca <==> c in cb {
      BestForBoth(a, b, capsOfA, capsOfB, c);
    }
    AscendingUnique(ca, cb);
    forall c | c in ca ensures Matches(a, c) && Matches(b, c) {
      BestMatches(c, a, capsOfB);
      BestMatches(c, b, capsOfA);
    }
    forall k | 0 <= k < |ca|
      ensures ca[k].name in ra && ca[k].name in rb
      ensures var p, q := ra[ca[k].name], rb[ca[k].name];
              p.offset == q.offset && CapOf(p.proto) == CapOf(q.proto) && p.proto.length == q.proto.length
    {
      assert Placed(ra, a, ca, k) && Placed(rb, b, cb, k);
      SameTotals(a, b, ca[..k]);
    }
  }

  lemma BestMatches(c: Cap, protocols: seq<Protocol>, caps: seq<Cap>)
    requires IsBest(c, protocols, caps)
    ensures Matches(protocols, c)
  {
  }

  // ---------------------------------------------------------------- codes

  predicate Owns(p: ProtoRW, code: nat) {
    p.offset <= code < p.offset + p.proto.length
  }

  lemma {:induction false} TotalGrows(protocols: seq<Protocol>, chosen: seq<Cap>, i: nat, j: nat)
    requires i < j <= |chosen|
    ensures TotalLength(protocols, chosen[..i]) + LengthOf(protocols, chosen[i]) <= TotalLength(protocols, chosen[..j])
  {
    assert chosen[..j][..j - 1] == chosen[..j - 1];
    if i < j - 1 {
      TotalGrows(protocols, chosen, i, j - 1);
    }
  }

  /** No two protocols of one connection own the same code. */
  lemma DisjointCodes(result: map<Name, ProtoRW>, offset: int, chosen: seq<Cap>, protocols: seq<Protocol>, caps: seq<Cap>,
                      m: Name, n: Name, code: nat)
    requires Matched(result, offset, chosen, protocols, caps)
    requires m in result && n in result && Owns(result[m], code) && Owns(result[n], code)
    ensures m == n
  {
    hide IsBest, ProtoFor, NameLess;
    var i :| 0 <= i < |chosen| && chosen[i].name == m;
    var j :| 0 <= j < |chosen| && chosen[j].name == n;
    assert Placed(result, protocols, chosen, i) && Placed(result, protocols, chosen, j);
    if i < j {
      TotalGrows(protocols, chosen, i, j);
    } else if j < i {
      TotalGrows(protocols, chosen, j, i);
    }
  }

  /** The codes owned are exactly those from the base protocol's length up to the final offset, without a gap. */
  lemma ContiguousCodes(result: map<Name, ProtoRW>, offset: int, chosen: seq<Cap>, protocols: seq<Protocol>, caps: seq<Cap>,
                        code: nat)
    requires Matched(result, offset, chosen, protocols, caps)
    ensures BASE_PROTOCOL_LENGTH <= code < offset <==> exists n :: n in result && Owns(result[n], code)
  {
    hide IsBest, ProtoFor, NameLess;
    assert chosen[..|chosen|] == chosen;
    if BASE_PROTOCOL_LENGTH <= code < offset {
      var k := OwnerBelow(result, protocols, chosen, code, |chosen|);
      assert Owns(result[chosen[k].name], code);
    }
    if n :| n in result && Owns(result[n], code) {
      var k :| 0 <= k < |chosen| && chosen[k].name == n;
      assert Placed(result, protocols, chosen, k);
      TotalGrows(protocols, chosen, k, |chosen|);
    }
  }

  lemma {:induction false} OwnerBelow(result: map<Name, ProtoRW>, protocols: seq<Protocol>, chosen: seq<Cap>, code: nat, n: nat)
    returns (k: nat)
    requires LaidOut(result, protocols, chosen) && n <= |chosen|
    requires BASE_PROTOCOL_LENGTH <= code < BASE_PROTOCOL_LENGTH + TotalLength(protocols, chosen[..n])
    ensures k < n && chosen[k].name in result && Owns(result[chosen[k].name], code)
  {
    hide ProtoFor;
    assert n > 0;
    assert chosen[..n][..n - 1] == chosen[..n - 1];
    assert Placed(result, protocols, chosen, n - 1);
    if code < BASE_PROTOCOL_LENGTH + TotalLength(protocols, chosen[..n - 1]) {
      k := OwnerBelow(result, protocols, chosen, code, n - 1);
    } else {
      k := n - 1;
    }
  }

  datatype Outcome = Delivered(name: Name, code: nat) | Base(code: nat) | OutOfRange

  /** `getProto`, over the protocols of a map in whatever order. */
  method GetProto(running: map<Name, ProtoRW>, code: nat) returns (name: Option<Name>)
    ensures name.Some? ==> name.value in running && Owns(running[name.value], code)
    ensures name.None? ==> forall n :: n in running ==> !Owns(running[n], code)
  {
    var todo := running.Keys;
    while todo != {}
      invariant todo <= running.Keys && forall n :: n in running && n !in todo ==> !Owns(running[n], code)
      decreases |todo|
    {
      var n :| n in todo;
      todo := todo - {n};
      if code >= running[n].offset && code < running[n].offset + running[n].proto.length {
        return Some(n);
      }
    }
    return None;
  }

  /** `protoRW.WriteMsg`: the code on the wire. */
  function WriteCode(p: ProtoRW, code: nat): Option<nat> {
    if code >= p.proto.length then None else Some(code + p.offset)
  }

  /** `Peer.handle`, and `protoRW.ReadMsg` at the protocol it hands the message to. */
  method Handle(running: map<Name, ProtoRW>, wire: nat) returns (o: Outcome)
    ensures wire < BASE_PROTOCOL_LENGTH ==> o == Base(wire)
    ensures o.Delivered? ==> wire >= BASE_PROTOCOL_LENGTH && o.name in running && Owns(running[o.name], wire)
                             && o.code == wire - running[o.name].offset
    ensures o.OutOfRange? ==> wire >= BASE_PROTOCOL_LENGTH && forall n :: n in running ==> !Owns(running[n], wire)
    ensures o.Base? ==> o.code == wire < BASE_PROTOCOL_LENGTH
  {
    if wire < BASE_PROTOCOL_LENGTH {
      return Base(wire);
    }
    var name := GetProto(running, wire);
    if name.None? {
      return OutOfRange;
    }
    return Delivered(name.value, wire - running[name.value].offset);
  }

  lemma OwnsFromBase(result: map<Name, ProtoRW>, offset: int, chosen: seq<Cap>, protocols: seq<Protocol>, caps: seq<Cap>,
                     name: Name)
    requires Matched(result, offset, chosen, protocols, caps) && name in result
    ensures result[name].offset >= BASE_PROTOCOL_LENGTH
  {
    hide ProtoFor, NameLess, IsBest;
    var k :| 0 <= k < |chosen| && chosen[k].name == name;
    assert Placed(result, protocols, chosen, k);
  }

  lemma CanSend(result: map<Name, ProtoRW>, offset: int, chosen: seq<Cap>, protocols: seq<Protocol>, caps: seq<Cap>,
                announced: seq<Cap>, name: Name, code: nat)
    requires Matched(result, offset, chosen, protocols, caps) && multiset(caps) == multiset(announced)
    ensures (exists c :: IsBest(c, protocols, announced) && c.name == name && code < LengthOf(protocols, c)) <==>
            name in result && WriteCode(result[name], code).Some?
  {
    hide ProtoFor, NameLess;
    forall c ensures IsBest(c, protocols, caps) <==> IsBest(c, protocols, announced) {
      assert forall d :: d in caps <==> d in multiset(caps);
      assert forall d :: d in announced <==> d in multiset(announced);
    }
    if name in result {
      var k :| 0 <= k < |chosen| && chosen[k].name == name;
      assert Placed(result, protocols, chosen, k);
      assert IsBest(chosen[k], protocols, announced);
    }
    if c :| IsBest(c, protocols, announced) && c.name == name && code < LengthOf(protocols, c) {
      assert c in chosen;
      var k :| 0 <= k < |chosen| && chosen[k] == c;
      assert Placed(result, protocols, chosen, k);
    }
  }

  /**
   A whole connection: each side matches its protocols with the other's capabilities, one side's
   protocol `name` writes a message, and the other side's protocol of that name and version reads it
   under its original code.
   */
  method Exchange(a: seq<Protocol>, b: seq<Protocol>, capsOfA: array<Cap>, capsOfB: array<Cap>, name: Name, code: nat)
    returns (sent: Option<nat>, o: Outcome, v: nat, w: nat)
    requires capsOfA != capsOfB && capsOfA[..] == CapsOf(a) && capsOfB[..] == CapsOf(b) && SameLengths(a, b)
    modifies capsOfA, capsOfB
    ensures sent.Some? ==> o == Delivered(name, code) && v == w
    ensures sent.Some? <==> exists c :: IsBest(c, a, CapsOf(b)) && c.name == name && code < LengthOf(a, c)
  {
    hide Matched, SameLengths, IsBest, ProtoFor, CapsOf;
    var ra, ca := MatchProtocols(a, capsOfB);
    var rb, cb := MatchProtocols(b, capsOfA);
    ghost var oa :| Matched(ra, oa, ca, a, capsOfB[..]);
    ghost var ob :| Matched(rb, ob, cb, b, capsOfA[..]);
    SameLayout(a, b, capsOfA[..], capsOfB[..], ra, oa, ca, rb, ob, cb);
    CanSend(ra, oa, ca, a, capsOfB[..], CapsOf(b), name, code);
    sent, o, v, w := None, OutOfRange, 0, 0;
    if name in ra {
      sent := WriteCode(ra[name], code);
      if sent.Some? {
        o := Handle(rb, sent.value);
        OwnsFromBase(rb, ob, cb, b, capsOfA[..], name);
        assert Owns(rb[name], sent.value);
        DisjointCodes(rb, ob, cb, b, capsOfA[..], name, o.name, sent.value);
        v, w := ra[name].proto.version, rb[name].proto.version;
      }
    }
  }
}
