/**
 Block download (`p2pprotocol/server.go`): one node announces its height, the other asks for the
 hashes after its own last block, requests the blocks oldest first, and checks each on arrival.
 Each side keeps a record of the hashes it believes the other to have.
 */
module BlockSync {
  import opened Collections
  import opened Chain

  datatype Msg =
    | Version(height: nat, last: Hash)
    | GetBlocks(last: Hash)
    | Inv(items: seq<Hash>)
    | GetData(hash: Hash)
    | BlockMsg(block: Block)

  /** What a handler does: it may answer, and it may bring the node down. */
  datatype Outcome = Quiet | Reply(msg: Msg) | Crash

  /** The hashes that are not in the peer's record. */
  function Unknown(blocks: seq<Hash>, known: set<Hash>): (r: seq<Hash>)
    ensures forall h :: h in r <==> h in blocks && h !in known
    ensures |r| <= |blocks| && (|r| == |blocks| ==> r == blocks)
  {
    if blocks == [] then []
    else
      var front := Unknown(blocks[..|blocks| - 1], known);
      assert blocks == blocks[..|blocks| - 1] + [blocks[|blocks| - 1]];
      if blocks[|blocks| - 1] in known then front else front + [blocks[|blocks| - 1]]
  }

  lemma UnknownStep(blocks: seq<Hash>, known: set<Hash>, i: nat)
    requires i < |blocks|
    ensures Unknown(blocks[..i + 1], known) ==
              if blocks[i] in known then Unknown(blocks[..i], known) else Unknown(blocks[..i], known) + [blocks[i]]
  {
    assert blocks[..i + 1][..i] == blocks[..i];
  }

  lemma {:induction false} UnknownDistinct(blocks: seq<Hash>, known: set<Hash>)
    requires Distinct(blocks)
    ensures Distinct(Unknown(blocks, known))
  {
    if blocks != [] {
      UnknownDistinct(blocks[..|blocks| - 1], known);
    }
  }

  function WithoutHash(items: seq<Hash>, hash: Hash): (r: seq<Hash>)
    ensures forall h :: h in r <==> h in items && h != hash
  {
    if items == [] then []
    else
      var front := WithoutHash(items[..|items| - 1], hash);
      assert items == items[..|items| - 1] + [items[|items| - 1]];
      if items[|items| - 1] == hash then front else front + [items[|items| - 1]]
  }

  lemma {:induction false} WithoutAbsent(items: seq<Hash>, hash: Hash)
    requires hash !in items
    ensures WithoutHash(items, hash) == items
  {
    if items != [] {
      assert items == items[..|items| - 1] + [items[|items| - 1]];
      WithoutAbsent(items[..|items| - 1], hash);
    }
  }

  lemma WithoutLast(items: seq<Hash>)
    requires items != [] && Distinct(items)
    ensures WithoutHash(items, items[|items| - 1]) == items[..|items| - 1]
  {
    WithoutAbsent(items[..|items| - 1], items[|items| - 1]);
  }

  class Node {
    const chain: Blockchain
    var known: set<Hash>             // `knownBlocks` of the one peer
    var inTransit: seq<Hash>
    var inTransitSet: set<Hash>

    ghost predicate Valid()
      reads this, chain
    {
      chain.Valid()
    }

    constructor (chain: Blockchain)
      requires chain.Valid()
      ensures Valid() && this.chain == chain && known == {} && inTransit == [] && inTransitSet == {}
    {
      this.chain := chain;
      known, inTransit, inTransitSet := {}, [], {};
    }

    method SendVersion() returns (m: Msg)
      requires Valid()
      ensures m == Version(chain.store[chain.tip].height, chain.tip)
    {
      return Version(chain.store[chain.tip].height, chain.tip);
    }

    /** `handleVersion`: a node that is behind asks; one that is ahead of a peer whose last block it does not have panics. */
    method HandleVersion(height: nat, last: Hash) returns (o: Outcome)
      requires Valid()
      ensures o.Reply? <==> chain.store[chain.tip].height < height
      ensures o.Reply? ==> o == Reply(GetBlocks(chain.tip))
      ensures o == Crash <==> chain.store[chain.tip].height > height && last !in chain.store
    {
      var mine := chain.store[chain.tip].height;
      if mine < height {
        return Reply(GetBlocks(chain.tip));
      }
      if mine > height {
        var b := chain.GetBlock(last);
        if b.None? {
          return Crash;
        }
      }
      return Quiet;
    }

    /** `handleGetBlocks`: what the peer is believed to have is left out, and what is sent it is believed to have from now on. */
    method HandleGetBlocks(last: Hash) returns (o: Outcome)
      requires Valid()
      modifies `known
      ensures var items := Unknown(Until(Path(chain.store, chain.genesis, chain.tip), last), old(known));
              && o == (if items == [] then Quiet else Reply(Inv(items)))
              && known == old(known) + set h | h in items
    {
      hide Unknown, Until, Path;
      var blocks := chain.GetBlockHashes(last);
      UntilDistinct(last);
      var blocksToS := Select(blocks);
      return if |blocksToS| > 0 then Reply(Inv(blocksToS)) else Quiet;
    }

    /** The loop over the hashes found. */
    method Select(blocks: seq<Hash>) returns (blocksToS: seq<Hash>)
      requires Distinct(blocks)
      modifies `known
      ensures blocksToS == Unknown(blocks, old(known)) && known == old(known) + set h | h in blocksToS
    {
      blocksToS := [];
      for i := 0 to |blocks|
        invariant blocksToS == Unknown(blocks[..i], old(known))
        invariant known == old(known) + set h | h in blocksToS
      {
        hide Unknown, Distinct;
        SelectStep(blocks, i, old(known), known, blocksToS);
        if blocks[i] !in known {
          known := known + {blocks[i]};
          blocksToS := blocksToS + [blocks[i]];
        }
      }
      assert blocks[..|blocks|] == blocks;
    }

    static lemma SelectStep(blocks: seq<Hash>, i: nat, before: set<Hash>, known: set<Hash>, chosen: seq<Hash>)
      requires Distinct(blocks) && i < |blocks|
      requires chosen == Unknown(blocks[..i], before) && known == before + set h | h in chosen
      ensures Unknown(blocks[..i + 1], before) == if blocks[i] in known then chosen else chosen + [blocks[i]]
      ensures before + (set h | h in chosen + [blocks[i]]) == known + {blocks[i]}
    {
      hide Unknown;
      UnknownStep(blocks, before, i);
      assert blocks[i] !in blocks[..i];
      assert (set h | h in chosen + [blocks[i]]) == (set h | h in chosen) + {blocks[i]};
    }

    lemma UntilDistinct(last: Hash)
      requires Valid()
      ensures Distinct(Until(Path(chain.store, chain.genesis, chain.tip), last))
    {
      var path := Path(chain.store, chain.genesis, chain.tip);
      forall i, j | 0 <= i < j < |path| ensures path[i] != path[j] {
        PathDistinct(chain.store, chain.genesis, chain.tip, i, j);
      }
    }

    /** `handleInv` for blocks: the last item, the oldest, is requested first; an empty list is indexed out of range. */
    method HandleInv(items: seq<Hash>) returns (o: Outcome)
      modifies `inTransit, `inTransitSet
      ensures items == [] ==> o == Crash
      ensures items != [] ==>
                var first := items[|items| - 1];
                && o == Reply(GetData(first)) && inTransit == WithoutHash(items, first)
                && inTransitSet == old(inTransitSet) + (set h | h in items) - {first}
    {
      inTransit := items;
      inTransitSet := inTransitSet + set h | h in items;
      if |items| == 0 {
        return Crash;
      }
      var first := items[|inTransit| - 1];
      inTransitSet := inTransitSet - {first};
      var newInTransit: seq<Hash> := [];
      for i := 0 to |inTransit|
        invariant newInTransit == WithoutHash(inTransit[..i], first)
      {
        assert inTransit[..i + 1][..i] == inTransit[..i];
        if inTransit[i] != first {
          newInTransit := newInTransit + [inTransit[i]];
        }
      }
      assert inTransit[..|inTransit|] == inTransit;
      inTransit := newInTransit;
      return Reply(GetData(first));
    }

    /** `handleGetData` for blocks */
    method HandleGetData(hash: Hash) returns (o: Outcome)
      requires Valid()
      ensures o != Crash && (o.Reply? <==> hash in chain.store)
      ensures o.Reply? ==>
                && o.msg.BlockMsg? && o.msg.block.hash == hash && o.msg.block == chain.store[hash]
                && ParentOk(chain.store, chain.genesis, o.msg.block)
    {
      var b := chain.GetBlock(hash);
      return if b.Some? then Reply(BlockMsg(b.value)) else Quiet;
    }

    /**
     `handleBlock`: a block that passes the checks is stored, unless the peer's record has it already, and
     either way the next one is requested; one that fails them ends the download. After the last block
     the node announces its version.
     */
    method HandleBlock(b: Block) returns (o: Outcome)
      requires Valid()
      modifies this, chain
      ensures Valid()
      ensures o == Crash <==> b.hash in old(chain.store)
      ensures var ok := b.hash !in old(chain.store) && b.height == old(chain.store[chain.tip]).height + 1
                        && b.prev == Some(old(chain.tip)) && chain.check(b) == 0;
              && (!ok ==> chain.store == old(chain.store) && chain.tip == old(chain.tip) && !o.Reply?
                          && inTransit == old(inTransit) && inTransitSet == old(inTransitSet) && known == old(known))
              && (ok ==>
                  && chain.store == (if b.hash in old(known) then old(chain.store) else old(chain.store)[b.hash := b])
                  && chain.tip == (if b.hash in old(known) then old(chain.tip) else b.hash)
                  && known == old(known) + {b.hash})
              && (ok && old(inTransit) == [] ==>
                  o == Reply(Version(chain.store[chain.tip].height, chain.tip))
                  && inTransit == [] && inTransitSet == old(inTransitSet))
              && (ok && old(inTransit) != [] ==>
                  var next := old(inTransit)[|old(inTransit)| - 1];
                  && inTransit == old(inTransit)[..|old(inTransit)| - 1]
                  && (if next in old(inTransitSet) then o == Reply(GetData(next)) && inTransitSet == old(inTransitSet) - {b.hash}
                      else o == Quiet && inTransitSet == old(inTransitSet)))
    {
      hide Linked;
      var v := chain.IsBlockValid(b);
      if v == Panics {
        return Crash;
      }
      if v != Accepted {
        return Quiet;
      }
      if b.hash !in known {
        chain.AddBlock(b);
        known := known + {b.hash};
      }
      assert known == old(known) + {b.hash};
      if |inTransit| > 0 {
        var next := inTransit[|inTransit| - 1];
        o := Quiet;
        if next in inTransitSet {
          o := Reply(GetData(next));
          inTransitSet := inTransitSet - {b.hash};
        }
        inTransit := inTransit[..|inTransit| - 1];
      } else {
        var m := SendVersion();
        o := Reply(m);
      }
    }
  }

  // ---------------------------------------------------------------- a whole download

  /** A sender's chain, and the block of it that the receiver had last when the download began. */
  datatype Plan = Plan(store: Store, genesis: Hash, top: Hash, base: Hash)

  ghost predicate PlanOk(p: Plan) {
    && Linked(p.store, p.genesis) && p.top in p.store
    && (p.base == p.genesis || p.base in Path(p.store, p.genesis, p.top))
  }

  /** What the receiver lacks, newest first. */
  ghost function Missing(p: Plan): (m: seq<Hash>)
    requires PlanOk(p)
  {
    Until(Path(p.store, p.genesis, p.top), p.base)
  }

  /** The receiver's last block when `k` blocks are still missing. */
  ghost function TipAt(p: Plan, k: nat): Hash
    requires PlanOk(p) && k <= |Missing(p)|
  {
    if k < |Missing(p)| then Missing(p)[k] else p.base
  }

  lemma TipHeight(p: Plan, k: nat)
    requires PlanOk(p) && k <= |Missing(p)|
    ensures TipAt(p, k) in p.store && p.store[TipAt(p, k)].height == p.store[p.top].height - k
  {
    hide Linked;
    var path := Path(p.store, p.genesis, p.top);
    if k < |path| {
      PathDescends(p.store, p.genesis, p.top, k);
    } else {
      GenesisHeight(p.store, p.genesis);
    }
  }

  lemma GenesisHeight(store: Store, genesis: Hash)
    requires Linked(store, genesis)
    ensures genesis in store && store[genesis].height == 0
  {
    assert ParentOk(store, genesis, store[genesis]);
  }

  /** The next missing block stands on the receiver's last one. */
  lemma NextBlock(p: Plan, k: nat)
    requires PlanOk(p) && 0 < k <= |Missing(p)|
    ensures var h := Missing(p)[k - 1];
            && h in p.store && TipAt(p, k) in p.store
            && p.store[h] == Block(h, Some(TipAt(p, k)), p.store[TipAt(p, k)].height + 1)
  {
    var path := Path(p.store, p.genesis, p.top);
    PathDescends(p.store, p.genesis, p.top, k - 1);
    TipHeight(p, k);
    TipHeight(p, k - 1);
  }

  ghost predicate Agree(a: Store, b: Store) {
    forall h :: h in a && h in b ==> a[h] == b[h]
  }

  /** The receiver when `k` blocks are still missing. */
  ghost predicate At(p: Plan, k: nat, store: Store, tip: Hash)
    requires PlanOk(p)
  {
    k <= |Missing(p)| && tip == TipAt(p, k) && Highest(store, tip) && Agree(p.store, store)
  }

  /** None of the blocks that are still missing is in the receiver's store. */
  lemma NotStored(p: Plan, k: nat, store: Store, tip: Hash, i: nat)
    requires PlanOk(p) && At(p, k, store, tip) && i < k
    ensures Missing(p)[i] in p.store && Missing(p)[i] !in store
    ensures p.store[Missing(p)[i]].height == store[tip].height + (k - i)
    ensures p.store[Missing(p)[i]].hash == Missing(p)[i]
  {
    TipHeight(p, k);
    TipHeight(p, i);
  }

  lemma Advanced(p: Plan, k: nat, store: Store, tip: Hash)
    requires PlanOk(p) && At(p, k, store, tip) && k > 0
    ensures var h := Missing(p)[k - 1]; h in p.store && At(p, k - 1, store[h := p.store[h]], h)
  {
    hide Linked;
    NextBlock(p, k);
    TipHeight(p, k);
  }

  /** The store has what it had before, and the missing blocks from place `k` on. */
  ghost predicate Holds(missing: seq<Hash>, k: nat, before: Store, store: Store)
    requires k <= |missing|
  {
    && (forall h :: h in store <==> h in before || h in missing[k..])
    && (forall h :: h in before && h in store ==> store[h] == before[h])
  }

  lemma HoldsOneMore(missing: seq<Hash>, k: nat, before: Store, store: Store, b: Block)
    requires 0 < k <= |missing| && Holds(missing, k, before, store) && missing[k - 1] !in store
    ensures Holds(missing, k - 1, before, store[missing[k - 1] := b])
  {
    assert missing[k - 1..] == [missing[k - 1]] + missing[k..];
  }

  /** Nothing that is missing is on record as known already, on either side. */
  ghost predicate Unrecorded(p: Plan, sender: set<Hash>, receiver: set<Hash>)
    requires PlanOk(p)
  {
    forall h :: h in Missing(p) ==> h !in sender && h !in receiver
  }

  /** Of the missing blocks, oldest first, the one at place `k - 1` is the first that is on record as known. */
  ghost predicate Obstacle(p: Plan, k: nat, sender: set<Hash>, receiver: set<Hash>)
    requires PlanOk(p)
  {
    && k <= |Missing(p)|
    && (forall i :: k <= i < |Missing(p)| ==> Missing(p)[i] !in sender && Missing(p)[i] !in receiver)
    && (k == 0 || Missing(p)[k - 1] in sender || Missing(p)[k - 1] in receiver)
  }

  /**
   One round: the block asked for is sent and handled. It is stored exactly if it is the next one that
   is missing and is not on the receiver's record; if it is not the next one, the download is over.
   */
  method Round(s: Node, r: Node, h: Hash, ghost p: Plan, ghost k: nat, ghost i: nat) returns (o: Outcome)
    requires s != r && s.chain != r.chain && s.Valid() && r.Valid()
    requires PlanOk(p) && p.store == s.chain.store && At(p, k, r.chain.store, r.chain.tip)
    requires i < k && Missing(p)[i] == h && h in p.store && r.chain.check(p.store[h]) == 0
    modifies r, r.chain
    ensures r.Valid() && o != Crash
    ensures i != k - 1 ==> !o.Reply? && r.chain.tip == old(r.chain.tip) && r.chain.store == old(r.chain.store)
    ensures i == k - 1 && h in old(r.known) ==> r.chain.tip == old(r.chain.tip) && r.chain.store == old(r.chain.store)
    ensures i == k - 1 && h !in old(r.known) ==> r.chain.tip == h && r.chain.store == old(r.chain.store)[h := p.store[h]]
    ensures i == k - 1 ==> r.known == old(r.known) + {h}
    ensures old(r.known) <= r.known
    ensures i == k - 1 && old(r.inTransit) == [] ==> o.Reply? && o.msg.Version?
    ensures i == k - 1 && old(r.inTransit) != [] ==>
              var next := old(r.inTransit)[|old(r.inTransit)| - 1];
              && r.inTransit == old(r.inTransit)[..|old(r.inTransit)| - 1]
              && (next in old(r.inTransitSet) ==> o == Reply(GetData(next)) && r.inTransitSet == old(r.inTransitSet) - {h})
  {
    hide Linked, PlanOk, At, Missing;
    ghost var store, tip := r.chain.store, r.chain.tip;
    AtTip(p, k, store, tip);
    NotStored(p, k, store, tip, i);
    var answer := s.HandleGetData(h);
    var b := answer.msg.block;
    if i == k - 1 {
      NextBlock(p, k);
    }
    o := r.HandleBlock(b);
  }

  lemma AtTip(p: Plan, k: nat, store: Store, tip: Hash)
    requires PlanOk(p) && At(p, k, store, tip)
    ensures k <= |Missing(p)| && tip == TipAt(p, k) && tip in store && tip in p.store && store[tip] == p.store[tip]
  {
    TipHeight(p, k);
  }

  lemma ReversedStep(s: seq<Hash>, k: nat)
    requires 0 < k <= |s|
    ensures Reversed(s[k - 1..]) == Reversed(s[k..]) + [s[k - 1]]
  {
    assert s[k - 1..][1..] == s[k..];
  }

  /**
   The download is on course: the next hash asked for is the last of those that are still missing and
   were offered, what comes after it is in transit, and nothing delivered was on record.
   */
  ghost predicate OnCourse(missing: seq<Hash>, items: seq<Hash>, k: nat, j: nat, sender: set<Hash>, receiver: set<Hash>)
    requires k <= |missing|
  {
    && j < |items| && items[..j + 1] == Unknown(missing[..k], sender)
    && forall i :: k <= i < |missing| ==> missing[i] !in sender && missing[i] !in receiver
  }

  /** Something that is next is on record as known, so it will never be delivered. */
  ghost predicate Blocked(missing: seq<Hash>, k: nat, sender: set<Hash>, receiver: set<Hash>)
    requires k <= |missing|
  {
    k > 0 && (missing[k - 1] in sender || missing[k - 1] in receiver)
  }

  /** Where the hash asked for stands: it is the next missing one unless that one was not offered. */
  lemma Asked(missing: seq<Hash>, items: seq<Hash>, k: nat, j: nat, sender: set<Hash>, receiver: set<Hash>) returns (i: nat)
    requires k <= |missing| && Distinct(missing) && OnCourse(missing, items, k, j, sender, receiver)
    ensures i < k && missing[i] == items[j]
    ensures i == k - 1 <==> missing[k - 1] !in sender
    ensures i == k - 1 ==> items[..j] == Unknown(missing[..k - 1], sender)
  {
    hide Unknown;
    var offered := Unknown(missing[..k], sender);
    assert items[..j + 1][j] == items[j];
    assert items[j] in offered;
    UnknownStep(missing, sender, k - 1);
    if missing[k - 1] in sender {
      assert items[j] in missing[..k - 1];
      i :| 0 <= i < k - 1 && missing[i] == items[j];
    } else {
      i := k - 1;
      assert items[..j] == items[..j + 1][..j];
    }
  }

  lemma MissingDistinct(p: Plan)
    requires PlanOk(p)
    ensures Distinct(Missing(p))
  {
    var path := Path(p.store, p.genesis, p.top);
    forall i, j | 0 <= i < j < |path| ensures path[i] != path[j] {
      PathDistinct(p.store, p.genesis, p.top, i, j);
    }
  }

  ghost predicate Checked(p: Plan, check: Block -> nat)
    requires PlanOk(p)
  {
    forall h :: h in Missing(p) && h in p.store ==> check(p.store[h]) == 0
  }

  predicate Asking(o: Outcome) { o.Reply? && o.msg.GetData? }

  /** The receiver in the middle of a download. */
  ghost predicate Loading(p: Plan, items: seq<Hash>, k: nat, j: nat, sender: set<Hash>, receiver: set<Hash>,
                          known: set<Hash>, inTransit: seq<Hash>, inTransitSet: set<Hash>)
    requires PlanOk(p) && k <= |Missing(p)|
  {
    && OnCourse(Missing(p), items, k, j, sender, receiver)
    && Distinct(items)
    && known == receiver + (set h | h in Missing(p)[k..])
    && inTransit == items[..j] && forall h :: h in items[..j] ==> h in inTransitSet
  }

  /** Exactly the missing block at place `k` was added. */
  ghost predicate Grew(p: Plan, k: nat, before: Store, after: Store)
    requires PlanOk(p)
  {
    k < |Missing(p)| && var h := Missing(p)[k]; h in p.store && h !in before && after == before[h := p.store[h]]
  }

  /** The hash asked for is missing, but it is not the next one. */
  ghost predicate AsksBeyond(missing: seq<Hash>, k: nat, h: Hash) {
    exists i :: 0 <= i < |missing| && i + 1 < k && missing[i] == h
  }

  lemma OfferedBeyond(missing: seq<Hash>, k: nat, offered: seq<Hash>, sender: set<Hash>, h: Hash)
    requires 0 < k <= |missing| && offered == Unknown(missing[..k - 1], sender) && h in offered
    ensures AsksBeyond(missing, k, h)
  {
    var i :| 0 <= i < k - 1 && missing[..k - 1][i] == h;
    assert missing[i] == h;
  }

  /** The receiver between two requests: on course, or asking for a block that is not the next one. */
  ghost predicate Expecting(p: Plan, items: seq<Hash>, h: Hash, course: bool, k: nat, j: nat, sender: set<Hash>,
                            receiver: set<Hash>, known: set<Hash>, inTransit: seq<Hash>, inTransitSet: set<Hash>)
    requires PlanOk(p) && k <= |Missing(p)|
  {
    if course then
      j < |items| && h == items[j] && Loading(p, items, k, j, sender, receiver, known, inTransit, inTransitSet)
    else Blocked(Missing(p), k, sender, receiver) && AsksBeyond(Missing(p), k, h)
  }

  lemma WhichAsked(p: Plan, items: seq<Hash>, h: Hash, course: bool, k: nat, j: nat, sender: set<Hash>,
                   receiver: set<Hash>, known: set<Hash>, inTransit: seq<Hash>, inTransitSet: set<Hash>) returns (i: nat)
    requires PlanOk(p) && k <= |Missing(p)|
    requires Expecting(p, items, h, course, k, j, sender, receiver, known, inTransit, inTransitSet)
    ensures i < k && Missing(p)[i] == h
    ensures i == k - 1 <==> course && Missing(p)[k - 1] !in sender
    ensures i == k - 1 ==> items[..j] == Unknown(Missing(p)[..k - 1], sender)
  {
    hide Missing, Unknown;
    if course {
      MissingDistinct(p);
      i := Asked(Missing(p), items, k, j, sender, receiver);
    } else {
      i :| 0 <= i < |Missing(p)| && i + 1 < k && Missing(p)[i] == h;
    }
  }

  /**
   One round: the block asked for arrives. Either one block fewer is missing, or the next one is on
   record as known: then at most one more request is made, for a block that will fail the checks.
   */
  method Deliver(s: Node, r: Node, items: seq<Hash>, h: Hash, ghost course: bool, ghost p: Plan, ghost k: nat, ghost j: nat,
                 ghost sender: set<Hash>, ghost receiver: set<Hash>)
    returns (o: Outcome, ghost k': nat, ghost j': nat)
    requires s != r && s.chain != r.chain && s.Valid() && r.Valid()
    requires PlanOk(p) && p.store == s.chain.store && At(p, k, r.chain.store, r.chain.tip)
    requires Checked(p, r.chain.check)
    requires k <= |Missing(p)| && Expecting(p, items, h, course, k, j, sender, receiver, r.known, r.inTransit, r.inTransitSet)
    modifies r, r.chain
    ensures r.Valid() && o != Crash && k' <= |Missing(p)| && At(p, k', r.chain.store, r.chain.tip)
    ensures k' == k || (k' == k - 1 && Grew(p, k', old(r.chain.store), r.chain.store))
    ensures old(r.known) <= r.known
    ensures k' == k ==> r.chain.store == old(r.chain.store) && Blocked(Missing(p), k, sender, receiver)
    ensures k' < k ==> Missing(p)[k'] !in sender && Missing(p)[k'] !in receiver
    ensures Asking(o) ==> course && (k' < k ==> j' < j)
    ensures Asking(o) ==>
              Expecting(p, items, o.msg.hash, k' < k, k', j', sender, receiver, r.known, r.inTransit, r.inTransitSet)
    ensures !Asking(o) ==> k' == 0 || Blocked(Missing(p), k', sender, receiver)
  {
    hide PlanOk, At, Missing, Linked, Highest, Unknown;
    ghost var missing := Missing(p);
    AtTip(p, k, r.chain.store, r.chain.tip);
    ghost var i := WhichAsked(p, items, h, course, k, j, sender, receiver, r.known, r.inTransit, r.inTransitSet);
    NotStored(p, k, r.chain.store, r.chain.tip, i);
    Advanced(p, k, r.chain.store, r.chain.tip);
    MissingDistinct(p);
    o := Round(s, r, h, p, k, i);
    k', j' := k, j;
    if i == k - 1 {
      assert h !in set x | x in missing[k..];
      k' := if h in receiver then k else k - 1;
      j' := if j > 0 then j - 1 else 0;
      if j > 0 {
        OfferedBeyond(missing, k, items[..j], sender, items[j - 1]);
      }
      if k' < k {
        assert missing[k'..] == [h] + missing[k..];
      }
    }
  }

  lemma Started(p: Plan, store: Store, tip: Hash)
    requires PlanOk(p) && tip == p.base && Highest(store, tip) && Agree(p.store, store)
    ensures At(p, |Missing(p)|, store, tip) && Holds(Missing(p), |Missing(p)|, store, store)
  {
  }

  lemma NothingOffered(missing: seq<Hash>, sender: set<Hash>, receiver: set<Hash>)
    requires Unknown(missing, sender) == []
    ensures missing == [] || Blocked(missing, |missing|, sender, receiver)
  {
    hide Unknown;
    assert missing != [] ==> missing[|missing| - 1] in missing;
  }

  /** The tips are equal exactly when nothing is missing any more, which a recorded block prevents. */
  lemma Finished(p: Plan, k: nat, store: Store, tip: Hash, sender: set<Hash>, receiver: set<Hash>)
    requires PlanOk(p) && At(p, k, store, tip)
    requires k == 0 || Blocked(Missing(p), k, sender, receiver)
    requires forall i :: k <= i < |Missing(p)| ==> Missing(p)[i] !in sender && Missing(p)[i] !in receiver
    ensures tip == p.top <==> k == 0
    ensures k == 0 <==> Unrecorded(p, sender, receiver)
    ensures tip == TipAt(p, k) && Obstacle(p, k, sender, receiver)
  {
    TipHeight(p, k);
    if k == 0 && |Missing(p)| == 0 {
      EmptyMissing(p);
    }
    if k > 0 {
      assert Missing(p)[k - 1] in Missing(p);
    }
  }

  lemma EmptyMissing(p: Plan)
    requires PlanOk(p) && Missing(p) == []
    ensures p.base == p.top
  {
    var path := Path(p.store, p.genesis, p.top);
    if path == [] {
      assert ParentOk(p.store, p.genesis, p.store[p.top]);
    }
  }

  lemma PlanFits(p: Plan)
    requires Linked(p.store, p.genesis) && p.top in p.store
    requires p.base == p.genesis || p.base in Path(p.store, p.genesis, p.top)
    ensures PlanOk(p) && Missing(p) == Until(Path(p.store, p.genesis, p.top), p.base)
  {
  }

  /** The receiver is lower exactly if it lacks something. */
  lemma HeightsDiffer(p: Plan, store: Store)
    requires PlanOk(p) && p.base in store && Agree(p.store, store)
    ensures p.base in p.store && p.top in p.store && store[p.base].height == p.store[p.top].height - |Missing(p)|
  {
    TipHeight(p, |Missing(p)|);
  }

  lemma ReversedNone(missing: seq<Hash>)
    ensures missing == [] ==> Reversed(missing) == []
  {
  }

  lemma BlockedRecorded(p: Plan, k: nat, sender: set<Hash>, receiver: set<Hash>)
    requires PlanOk(p) && k <= |Missing(p)| && Blocked(Missing(p), k, sender, receiver)
    ensures !Unrecorded(p, sender, receiver)
  {
    assert Missing(p)[k - 1] in Missing(p);
  }

  lemma CourseRequests(p: Plan, items: seq<Hash>, k: nat, j: nat, sender: set<Hash>, receiver: set<Hash>,
                       known: set<Hash>, inTransit: seq<Hash>, inTransitSet: set<Hash>)
    requires PlanOk(p) && k <= |Missing(p)|
    requires Loading(p, items, k, j, sender, receiver, known, inTransit, inTransitSet)
    ensures k > 0 && j < |items|
    ensures Unrecorded(p, sender, receiver) ==>
              items[j] == Missing(p)[k - 1] && Reversed(Missing(p)[k - 1..]) == Reversed(Missing(p)[k..]) + [items[j]]
    ensures forall i :: k <= i < |Missing(p)| ==> Missing(p)[i] !in sender && Missing(p)[i] !in receiver
  {
    hide Missing, Unknown, Reversed;
    var missing := Missing(p);
    MissingDistinct(p);
    var i := Asked(missing, items, k, j, sender, receiver);
    assert missing[k - 1] in missing;
    ReversedStep(missing, k);
  }

  lemma Loaded(p: Plan, items: seq<Hash>, sender: set<Hash>, receiver: set<Hash>, transitSet: set<Hash>)
    requires PlanOk(p) && items == Unknown(Missing(p), sender) && items != []
    requires forall h :: h in items && h != items[|items| - 1] ==> h in transitSet
    ensures Loading(p, items, |Missing(p)|, |items| - 1, sender, receiver, receiver, WithoutHash(items, items[|items| - 1]), transitSet)
  {
    hide Unknown, Missing;
    var missing := Missing(p);
    MissingDistinct(p);
    UnknownDistinct(missing, sender);
    WithoutLast(items);
    assert missing[..|missing|] == missing && items[..|items|] == items;
    forall h | h in items[..|items| - 1] ensures h in transitSet {
      assert h in WithoutHash(items, items[|items| - 1]);
    }
  }

  /** The rounds of a download, from the first request on: they go on until the first missing block that is on record. */
  method Fetch(s: Node, r: Node, items: seq<Hash>, first: Outcome, ghost p: Plan, ghost sender: set<Hash>, ghost receiver: set<Hash>)
    returns (requested: seq<Hash>, ghost k: nat)
    requires s != r && s.chain != r.chain && s.Valid() && r.Valid()
    requires PlanOk(p) && p.store == s.chain.store && Checked(p, r.chain.check)
    requires At(p, |Missing(p)|, r.chain.store, r.chain.tip)
    requires Holds(Missing(p), |Missing(p)|, r.chain.store, r.chain.store)
    requires items != [] && first == Reply(GetData(items[|items| - 1]))
    requires Loading(p, items, |Missing(p)|, |items| - 1, sender, receiver, r.known, r.inTransit, r.inTransitSet)
    modifies r, r.chain
    ensures r.Valid() && k <= |Missing(p)| && At(p, k, r.chain.store, r.chain.tip)
    ensures Holds(Missing(p), k, old(r.chain.store), r.chain.store)
    ensures forall i :: k <= i < |Missing(p)| ==> Missing(p)[i] !in sender && Missing(p)[i] !in receiver
    ensures k == 0 || Blocked(Missing(p), k, sender, receiver)
    ensures Unrecorded(p, sender, receiver) ==> requested == Reversed(Missing(p)[k..])
    ensures old(r.known) <= r.known
  {
    hide PlanOk, At, Missing, Linked, Unknown, Checked, Loading, Holds, Reversed, Unrecorded, Path, Until, Blocked, WithoutHash, Distinct;
    ghost var before := r.chain.store;
    ghost var missing := Missing(p);
    ghost var j: nat, course := |items| - 1, true;
    k := |missing|;
    var o := first;
    CourseRequests(p, items, k, j, sender, receiver, r.known, r.inTransit, r.inTransitSet);
    requested := [items[|items| - 1]];
    assert Reversed(missing[k..]) == [] by { ReversedNone(missing[k..]); }
    while Asking(o)
      invariant r.Valid() && k <= |missing| && At(p, k, r.chain.store, r.chain.tip) && Holds(missing, k, before, r.chain.store)
      invariant old(r.known) <= r.known
      invariant forall i :: k <= i < |missing| ==> missing[i] !in sender && missing[i] !in receiver
      invariant Asking(o) ==>
                  Expecting(p, items, o.msg.hash, course, k, j, sender, receiver, r.known, r.inTransit, r.inTransitSet)
      invariant Asking(o) && Unrecorded(p, sender, receiver) ==> course && requested == Reversed(missing[k..]) + [o.msg.hash]
      invariant !Asking(o) ==> k == 0 || Blocked(missing, k, sender, receiver)
      invariant !Asking(o) && Unrecorded(p, sender, receiver) ==> requested == Reversed(missing[k..])
      decreases if !Asking(o) then 0 else if course then j + 2 else 1
    {
      ghost var k0, store0 := k, r.chain.store;
      if course {
        CourseRequests(p, items, k, j, sender, receiver, r.known, r.inTransit, r.inTransitSet);
      }
      o, k, j := Deliver(s, r, items, o.msg.hash, course, p, k, j, sender, receiver);
      if k == k0 {
        course := false;
        BlockedRecorded(p, k, sender, receiver);
      } else {
        HoldsOneMore(missing, k0, before, store0, p.store[missing[k]]);
        if Asking(o) {
          CourseRequests(p, items, k, j, sender, receiver, r.known, r.inTransit, r.inTransitSet);
        }
      }
      if Asking(o) {
        requested := requested + [o.msg.hash];
      }
    }
  }

  /**
   A whole download, of whatever the receiver lacks of a chain that extends its own: it gets as far as the
   last block before the first missing one, oldest first, that either side has on record, and adds exactly
   the blocks up to there. So it ends with equal last blocks exactly if neither record has any of them, and
   then they were requested oldest first. No handler panics on the way.
   */
  method Download(s: Node, r: Node) returns (requested: seq<Hash>, ghost p: Plan, ghost k: nat)
    requires s != r && s.chain != r.chain && s.Valid() && r.Valid() && s.chain.genesis == r.chain.genesis
    requires r.chain.tip == s.chain.genesis || r.chain.tip in Path(s.chain.store, s.chain.genesis, s.chain.tip)
    requires Agree(s.chain.store, r.chain.store)
    requires Checked(Plan(s.chain.store, s.chain.genesis, s.chain.tip, r.chain.tip), r.chain.check)
    modifies s`known, r, r.chain
    ensures r.Valid() && p == Plan(s.chain.store, s.chain.genesis, s.chain.tip, old(r.chain.tip)) && PlanOk(p)
    ensures Obstacle(p, k, old(s.known), old(r.known))
    ensures r.chain.tip == TipAt(p, k) && Holds(Missing(p), k, old(r.chain.store), r.chain.store)
    ensures r.chain.tip == s.chain.tip <==> Unrecorded(p, old(s.known), old(r.known))
    ensures r.chain.tip == s.chain.tip ==> k == 0 && requested == Reversed(Missing(p))
    ensures old(s.known) <= s.known && old(r.known) <= r.known
  {
    hide PlanOk, At, Missing, Linked, Unknown, Checked, Agree, Loading, Holds, Reversed, Unrecorded, Path, Until,
      Blocked, WithoutHash, Distinct, Obstacle;
    p := Plan(s.chain.store, s.chain.genesis, s.chain.tip, r.chain.tip);
    PlanFits(p);
    ghost var sender, receiver := s.known, r.known;
    ghost var missing := Missing(p);
    k := |missing|;
    requested := [];
    Started(p, r.chain.store, r.chain.tip);
    HeightsDiffer(p, r.chain.store);
    ReversedNone(missing);
    var v := s.SendVersion();
    var o := r.HandleVersion(v.height, v.last);
    if !o.Reply? {
      Finished(p, k, r.chain.store, r.chain.tip, sender, receiver);
      return;
    }
    o := s.HandleGetBlocks(o.msg.last);
    if !o.Reply? {
      NothingOffered(missing, sender, receiver);
      Finished(p, k, r.chain.store, r.chain.tip, sender, receiver);
      return;
    }
    var items := o.msg.items;
    o := r.HandleInv(items);
    Loaded(p, items, sender, receiver, r.inTransitSet);
    requested, k := Fetch(s, r, items, o, p, sender, receiver);
    assert missing[0..] == missing;
    Finished(p, k, r.chain.store, r.chain.tip, sender, receiver);
  }

  // ---------------------------------------------------------------- two nodes that meet, and where they get stuck

  /** `to` handles what `from` announces. */
  method Announce(from: Node, to: Node) returns (o: Outcome)
    requires from.Valid() && to.Valid()
    ensures o == if to.chain.store[to.chain.tip].height < from.chain.store[from.chain.tip].height then Reply(GetBlocks(to.chain.tip))
                 else if to.chain.store[to.chain.tip].height > from.chain.store[from.chain.tip].height
                         && from.chain.tip !in to.chain.store then Crash else Quiet
  {
    var v := from.SendVersion();
    o := to.HandleVersion(v.height, v.last);
  }

  /**
   Two nodes announce themselves to each other. Of two of different heights the lower one asks for
   blocks, and it is the higher one that panics, exactly if it does not have the other's last block,
   which it has if its chain extends the other's. Two of one height leave it at that, on a fork too.
   */
  method Meet(a: Node, b: Node) returns (atA: Outcome, atB: Outcome)
    requires a.Valid() && b.Valid()
    ensures var x, y := a.chain.store[a.chain.tip].height, b.chain.store[b.chain.tip].height;
            && (atA.Reply? <==> x < y) && (atA.Reply? ==> atA == Reply(GetBlocks(a.chain.tip)))
            && (atB.Reply? <==> y < x) && (atB.Reply? ==> atB == Reply(GetBlocks(b.chain.tip)))
            && (atA == Crash <==> x > y && b.chain.tip !in a.chain.store)
            && (atB == Crash <==> y > x && a.chain.tip !in b.chain.store)
    ensures b.chain.tip in Path(a.chain.store, a.chain.genesis, a.chain.tip) || b.chain.tip == a.chain.genesis ==> atA != Crash
    ensures a.chain.tip in Path(b.chain.store, b.chain.genesis, b.chain.tip) || a.chain.tip == b.chain.genesis ==> atB != Crash
  {
    PathStoredAll(a.chain.store, a.chain.genesis, a.chain.tip);
    PathStoredAll(b.chain.store, b.chain.genesis, b.chain.tip);
    atB := Announce(a, b);
    atA := Announce(b, a);
  }

  lemma PathStoredAll(store: Store, genesis: Hash, h: Hash)
    requires Linked(store, genesis) && h in store
    ensures forall x :: x in Path(store, genesis, h) ==> x in store
  {
    forall i | 0 <= i < store[h].height ensures Path(store, genesis, h)[i] in store {
      PathDescends(store, genesis, h, i);
    }
  }

  /** A fork right after the genesis block: one block on one side, two on the other. */
  method ForkPanics() returns (atA: Outcome, atB: Outcome)
    ensures atA.Reply? && atB == Crash
  {
    hide Linked, Highest;
    var chainA := new Blockchain(0, _ => 0);
    var _ := chainA.MineBlock(1);
    var chainB := new Blockchain(0, _ => 0);
    var _ := chainB.MineBlock(2);
    var _ := chainB.MineBlock(3);
    var a := new Node(chainA);
    var b := new Node(chainB);
    atA, atB := Meet(a, b);
  }

  lemma EmptyPath(store: Store)
    requires Linked(store, 0)
    ensures Path(store, 0, 0) == []
  {
  }

  lemma {:induction false} AllUnknown(blocks: seq<Hash>, known: set<Hash>)
    requires forall h :: h in blocks ==> h !in known
    ensures Unknown(blocks, known) == blocks
  {
    if blocks != [] {
      var front := blocks[..|blocks| - 1];
      assert blocks == front + [blocks[|blocks| - 1]];
      AllUnknown(front, known);
    }
  }

  /** All of a chain is new to a peer that nothing is on record for and that has the genesis block only. */
  lemma AllOffered(path: seq<Hash>)
    requires 0 !in path
    ensures Unknown(Until(path, 0), {}) == path
  {
    hide Until, Unknown;
    assert path[..|path|] == path;
    UntilAt(path, 0, |path|);
    AllUnknown(path, {});
  }

  /** Only the newest block of a chain is not on record. */
  lemma {:induction false} NewestUnknown(path: seq<Hash>, known: set<Hash>)
    requires path != [] && path[0] !in known && forall i :: 0 < i < |path| ==> path[i] in known
    ensures Unknown(path, known) == [path[0]]
  {
    if |path| > 1 {
      NewestUnknown(path[..|path| - 1], known);
    } else {
      assert path[..0] == [];
    }
  }

  lemma NewestOffered(path: seq<Hash>, known: set<Hash>)
    requires 0 !in path && path != [] && path[0] !in known && forall i :: 0 < i < |path| ==> path[i] in known
    ensures Unknown(Until(path, 0), known) == [path[0]]
  {
    hide Until, Unknown;
    assert path[..|path|] == path;
    UntilAt(path, 0, |path|);
    NewestUnknown(path, known);
  }

  /** A chain of three blocks. */
  method ThreeBlocks() returns (chain: Blockchain)
    ensures fresh(chain) && chain.Valid() && chain.genesis == 0 && chain.tip == 3
    ensures chain.store == map[0 := Block(0, None, 0), 1 := Block(1, Some(0), 1), 2 := Block(2, Some(1), 2), 3 := Block(3, Some(2), 3)]
    ensures Path(chain.store, 0, 3) == [3, 2, 1]
  {
    hide Linked, Highest, Path;
    chain := new Blockchain(0, _ => 0);
    EmptyPath(chain.store);
    var _ := chain.MineBlock(1);
    var _ := chain.MineBlock(2);
    var _ := chain.MineBlock(3);
  }

  /** A fresh node is offered three blocks and asks for the oldest. */
  method Offered(s: Node, r: Node) returns (o: Outcome)
    requires s.Valid() && s.chain.genesis == 0 && s.chain.tip == 3 && 3 in s.chain.store && s.chain.store[3].height == 3
    requires Path(s.chain.store, 0, 3) == [3, 2, 1] && s.known == {}
    requires r.Valid() && r.chain.tip == 0 && 0 in r.chain.store && r.chain.store[0].height == 0 && r != s
    modifies s`known, r`inTransit, r`inTransitSet
    ensures o == Reply(GetData(1)) && s.known == {1, 2, 3} && r.inTransit == [3, 2] && {2, 3} <= r.inTransitSet
  {
    hide Linked, Highest, Path, Until, Unknown, WithoutHash;
    o := Announce(s, r);
    AllOffered([3, 2, 1]);
    o := s.HandleGetBlocks(0);
    assert 3 in o.msg.items;
    o := r.HandleInv([3, 2, 1]);
    WithoutLast([3, 2, 1]);
  }

  /** A fourth block is mined, and the announcement makes the receiver, which still has none of them, ask again. */
  method Mined(s: Node, r: Node) returns (o: Outcome)
    requires s.Valid() && s.chain.genesis == 0 && s.chain.tip == 3 && 3 in s.chain.store && s.chain.store[3].height == 3
    requires 4 !in s.chain.store && Path(s.chain.store, 0, 3) == [3, 2, 1]
    requires r.Valid() && r.chain.tip == 0 && 0 in r.chain.store && r.chain.store[0].height == 0 && r.chain != s.chain
    modifies s.chain
    ensures s.Valid() && s.chain.tip == 4 && s.chain.store == old(s.chain.store)[4 := Block(4, Some(3), 4)]
    ensures Path(s.chain.store, 0, 4) == [4, 3, 2, 1] && o == Reply(GetBlocks(0))
  {
    hide Linked, Highest, Path;
    var _ := s.chain.MineBlock(4);
    o := Announce(s, r);
  }

  /** The sender answers both requests: the new block alone is offered, and it takes the place of the two in transit. */
  method Replaced(s: Node, r: Node) returns (second: Outcome, latest: Outcome)
    requires s != r && s.chain != r.chain && s.Valid() && s.chain.genesis == 0 && s.chain.tip == 4
    requires Path(s.chain.store, 0, 4) == [4, 3, 2, 1] && s.known == {1, 2, 3}
    requires 1 in s.chain.store && s.chain.store[1] == Block(1, Some(0), 1)
    requires r.Valid() && r.chain.tip == 0 && r.chain.store == map[0 := Block(0, None, 0)] && r.known == {}
    requires r.inTransit == [3, 2] && 2 in r.inTransitSet && r.chain.check(Block(1, Some(0), 1)) == 0
    modifies s`known, r, r.chain
    ensures s.Valid() && r.Valid() && s.known == {1, 2, 3, 4} && r.known == {1} && r.inTransit == []
    ensures r.chain.tip == 1 && r.chain.store == map[0 := Block(0, None, 0), 1 := Block(1, Some(0), 1)]
    ensures second == Reply(GetData(2)) && latest == Reply(GetData(4))
  {
    hide Linked, Highest, Path, Until, Unknown, WithoutHash;
    NewestOffered([4, 3, 2, 1], s.known);
    WithoutLast([4]);
    var first := s.HandleGetData(1);
    var offer := s.HandleGetBlocks(0);
    assert offer.msg.items == [4];
    assert 4 in offer.msg.items;
    second := r.HandleBlock(first.msg.block);
    latest := r.HandleInv(offer.msg.items);
  }

  /** The two blocks still asked for arrive: one is stored, and the other does not fit on it. */
  method LastTwo(s: Node, r: Node, second: Outcome, latest: Outcome)
    requires s != r && s.chain != r.chain && s.Valid() && r.Valid()
    requires second == Reply(GetData(2)) && latest == Reply(GetData(4))
    requires 2 in s.chain.store && s.chain.store[2] == Block(2, Some(1), 2)
    requires 4 in s.chain.store && s.chain.store[4] == Block(4, Some(3), 4)
    requires r.chain.tip == 1 && r.chain.store == map[0 := Block(0, None, 0), 1 := Block(1, Some(0), 1)]
    requires 2 !in r.known && r.chain.check(Block(2, Some(1), 2)) == 0
    modifies r, r.chain
    ensures r.Valid() && r.chain.tip == 2
    ensures r.chain.store == map[0 := Block(0, None, 0), 1 := Block(1, Some(0), 1), 2 := Block(2, Some(1), 2)]
  {
    hide Linked, Highest;
    var answer := s.HandleGetData(second.msg.hash);
    var refused := s.HandleGetData(latest.msg.hash);
    var _ := r.HandleBlock(answer.msg.block);
    var _ := r.HandleBlock(refused.msg.block);
  }

  /**
   A block is mined while a download is running, with every message handled in the order it was sent:
   the announcement makes the receiver ask again from its own last block, only the new block is offered,
   the others being on record, and it takes the place of those in transit.
   */
  method MinedMeanwhile() returns (s: Node, r: Node)
    ensures s != r && s.chain != r.chain && s.Valid() && r.Valid() && s.chain.genesis == r.chain.genesis == 0
    ensures s.chain.tip == 4 && r.chain.tip == 2 && Path(s.chain.store, 0, 4) == [4, 3, 2, 1] && s.known == {1, 2, 3, 4}
    ensures Agree(s.chain.store, r.chain.store) && forall b :: r.chain.check(b) == 0
    ensures fresh(s) && fresh(r) && fresh(s.chain) && fresh(r.chain)
  {
    hide Linked, Highest, Path;
    var chain := ThreeBlocks();
    s := new Node(chain);
    var other := new Blockchain(0, _ => 0);
    r := new Node(other);
    var _ := Offered(s, r);
    var _ := Mined(s, r);
    var second, latest := Replaced(s, r);
    LastTwo(s, r, second, latest);
  }

  /** `r` is on `s`'s chain or behind, and may download from it. */
  ghost predicate Behind(s: Node, r: Node)
    reads s, r, s.chain, r.chain
  {
    && s != r && s.chain != r.chain && s.Valid() && r.Valid() && s.chain.genesis == r.chain.genesis
    && (r.chain.tip == s.chain.genesis || r.chain.tip in Path(s.chain.store, s.chain.genesis, s.chain.tip))
    && Agree(s.chain.store, r.chain.store) && Checked(PlanFor(s, r), r.chain.check)
  }

  ghost function PlanFor(s: Node, r: Node): Plan
    reads s, r, s.chain, r.chain
  {
    Plan(s.chain.store, s.chain.genesis, s.chain.tip, r.chain.tip)
  }

  /** The block that `r` needs next is one that `s` believes it has, or one that it believes `s` to have. */
  ghost predicate Stuck(s: Node, r: Node)
    reads s, r, s.chain, r.chain
  {
    Behind(s, r) && var missing := Missing(PlanFor(s, r)); missing != [] && missing[|missing| - 1] in s.known + r.known
  }

  lemma StuckApart(s: Node, r: Node)
    requires Stuck(s, r)
    ensures s.chain.tip != r.chain.tip
  {
    hide Linked;
  }

  /** With an obstacle at the very next block nothing is gained. */
  lemma NothingGained(p: Plan, k: nat, sender: set<Hash>, receiver: set<Hash>, before: Store, after: Store)
    requires PlanOk(p) && Obstacle(p, k, sender, receiver) && Missing(p) != [] && Missing(p)[|Missing(p)| - 1] in sender + receiver
    requires Holds(Missing(p), k, before, after)
    ensures k == |Missing(p)| && TipAt(p, k) == p.base && after == before
  {
    hide Missing;
  }

  method DownloadInVain(s: Node, r: Node)
    requires Stuck(s, r)
    modifies s`known, r, r.chain
    ensures Stuck(s, r) && r.chain.tip == old(r.chain.tip) && r.chain.store == old(r.chain.store) && old(s.known) <= s.known
  {
    hide Linked, Highest, Path, Missing, Holds, Obstacle, Agree, Checked, Unrecorded, TipAt;
    ghost var sender, receiver, before := s.known, r.known, r.chain.store;
    var _, p, k := Download(s, r);
    NothingGained(p, k, sender, receiver, before, r.chain.store);
  }

  /** One more block on the sender's chain is one more that is missing, and the last to be needed. */
  lemma MissingMined(p: Plan, after: Plan, b: Block)
    requires PlanOk(p) && b.hash !in p.store && b == Block(b.hash, Some(p.top), p.store[p.top].height + 1)
    requires after == p.(store := p.store[b.hash := b], top := b.hash) && Linked(after.store, after.genesis)
    requires Path(after.store, after.genesis, b.hash) == [b.hash] + Path(p.store, p.genesis, p.top)
    ensures PlanOk(after) && Missing(after) == [b.hash] + Missing(p)
  {
    hide Linked;
    var path := Path(p.store, p.genesis, p.top);
    PathStoredAll(p.store, p.genesis, p.top);
    assert p.base != b.hash by { GenesisHeight(p.store, p.genesis); }
    assert ([b.hash] + path)[1..] == path;
  }

  /** The sender mines a block that the receiver will take to be valid. */
  method MineMore(s: Node, r: Node, hash: Hash)
    requires Stuck(s, r) && hash !in s.chain.store && hash !in r.chain.store
    requires r.chain.check(Block(hash, Some(s.chain.tip), s.chain.store[s.chain.tip].height + 1)) == 0
    modifies s.chain
    ensures Stuck(s, r) && s.chain.tip == hash
  {
    hide Linked, Path, Missing, PlanOk;
    ghost var p := PlanFor(s, r);
    PlanFits(p);
    assert p.top in p.store;
    var b := s.chain.MineBlock(hash);
    MissingMined(p, PlanFor(s, r), b);
  }

  /**
   Whatever the sender mines and however often the receiver downloads, it never gets any further:
   in each round a block may be mined, if its hash is new, and then there is a download.
   */
  method StuckForGood(s: Node, r: Node, mined: seq<Option<Hash>>)
    requires Stuck(s, r)
    modifies s`known, s.chain, r, r.chain
    ensures Stuck(s, r) && r.chain.tip == old(r.chain.tip) && r.chain.store == old(r.chain.store) && s.chain.tip != r.chain.tip
  {
    hide Linked, Highest, Path, Missing, Agree, Checked;
    for i := 0 to |mined|
      invariant Stuck(s, r) && r.chain.tip == old(r.chain.tip) && r.chain.store == old(r.chain.store)
    {
      if mined[i].Some? {
        var hash := mined[i].value;
        if hash !in s.chain.store && hash !in r.chain.store && s.chain.tip in s.chain.store
           && r.chain.check(Block(hash, Some(s.chain.tip), s.chain.store[s.chain.tip].height + 1)) == 0 {
          MineMore(s, r, hash);
        }
      }
      DownloadInVain(s, r);
    }
    StuckApart(s, r);
  }

  /** So it is after the run above: the last blocks are never equal again. */
  method MinedMeanwhileForGood(mined: seq<Option<Hash>>) returns (s: Node, r: Node)
    ensures Stuck(s, r) && r.chain.tip == 2 && s.chain.tip != r.chain.tip
  {
    hide Linked, Until, Unknown, Path, Agree;
    s, r := MinedMeanwhile();
    ghost var p := PlanFor(s, r);
    assert [4, 3, 2, 1][2] == 2 && [4, 3, 2, 1][..2] == [4, 3];
    PlanFits(p);
    UntilAt([4, 3, 2, 1], 2, 2);
    assert Missing(p) == [4, 3];
    StuckForGood(s, r, mined);
  }
}
