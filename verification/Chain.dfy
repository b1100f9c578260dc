/**
 The block store (`blockchain_go/blockchain.go`): blocks by hash, each naming its parent, and the
 hash of the last block. Hashes are numbers; that a hash stands for one block is a premise where it
 matters. Proof of work and the transaction checks are a function that gives a reason to refuse.
 */
module Chain {
  import opened Collections

  type Hash = nat

  /** Only the genesis block has no parent. */
  datatype Block = Block(hash: Hash, prev: Option<Hash>, height: nat)
  type Store = map<Hash, Block>

  datatype Verdict = Panics | Refused(reason: nat) | Accepted

  ghost predicate ParentOk(store: Store, genesis: Hash, b: Block) {
    match b.prev
    case None => b.hash == genesis && b.height == 0
    case Some(p) => p in store && store[p].height + 1 == b.height
  }

  /** Every block but the genesis block stands on a block of the store that is one lower. */
  ghost predicate Linked(store: Store, genesis: Hash) {
    && genesis in store && store[genesis].prev == None
    && forall h :: h in store ==> store[h].hash == h && ParentOk(store, genesis, store[h])
  }

  ghost predicate Highest(store: Store, tip: Hash) {
    tip in store && forall h :: h in store ==> store[h].height <= store[tip].height
  }

  /** The hashes from a block down to the genesis block, which is left out. */
  ghost function Path(store: Store, genesis: Hash, h: Hash): (path: seq<Hash>)
    requires Linked(store, genesis) && h in store
    ensures |path| == store[h].height
    decreases store[h].height
  {
    if store[h].prev.None? then [] else [h] + Path(store, genesis, store[h].prev.value)
  }

  /** Following parents from any block reaches the genesis block in as many steps as the block is high. */
  lemma {:induction false} PathDescends(store: Store, genesis: Hash, h: Hash, i: nat)
    requires Linked(store, genesis) && h in store && i < store[h].height
    ensures var path := Path(store, genesis, h);
            && path[i] in store && store[path[i]].height == store[h].height - i
            && store[path[i]].prev == Some(if i + 1 < |path| then path[i + 1] else genesis)
    decreases i
  {
    var p := store[h].prev.value;
    if i > 0 {
      PathDescends(store, genesis, p, i - 1);
    } else if store[p].height == 0 {
      assert ParentOk(store, genesis, store[p]);
    }
  }

  lemma PathDistinct(store: Store, genesis: Hash, h: Hash, i: nat, j: nat)
    requires Linked(store, genesis) && h in store && i < j < store[h].height
    ensures Path(store, genesis, h)[i] != Path(store, genesis, h)[j]
  {
    PathDescends(store, genesis, h, i);
    PathDescends(store, genesis, h, j);
  }

  /** The part of a path before a hash, or all of it. */
  function Until(path: seq<Hash>, last: Hash): (r: seq<Hash>)
    ensures r <= path && last !in r
    ensures |r| < |path| ==> path[|r|] == last
  {
    if path == [] || path[0] == last then [] else [path[0]] + Until(path[1..], last)
  }

  /** Whether a block stands on one that the store has. */
  predicate Extends(store: Store, b: Block) {
    b.prev.Some? && b.prev.value in store && store[b.prev.value].height + 1 == b.height
  }

  function Stored(store: Store, b: Block): Store {
    if b.hash in store then store else store[b.hash := b]
  }

  lemma StoredLinked(store: Store, genesis: Hash, b: Block)
    requires Linked(store, genesis)
    ensures Linked(Stored(store, b), genesis) <==> b.hash in store || Extends(store, b)
  {
    if b.hash !in store {
      var after := Stored(store, b);
      assert after[b.hash] == b;
      forall h | h in store ensures ParentOk(after, genesis, after[h]) {
        assert ParentOk(store, genesis, store[h]);
      }
      if Linked(after, genesis) {
        assert ParentOk(after, genesis, after[b.hash]);
      }
    }
  }

  /** Storing a block leaves the paths from the blocks that were there alone. */
  lemma {:induction false} PathStored(store: Store, genesis: Hash, b: Block, h: Hash)
    requires Linked(store, genesis) && Linked(Stored(store, b), genesis) && h in store
    ensures Path(Stored(store, b), genesis, h) == Path(store, genesis, h)
    decreases store[h].height
  {
    if store[h].prev.Some? {
      PathStored(store, genesis, b, store[h].prev.value);
    }
  }

  class Blockchain {
    const genesis: Hash
    const check: Block -> nat    // zero, or the reason for which hash, work or transactions are refused
    var store: Store
    var tip: Hash

    /** Chains lead to the genesis block, and the last block is as high as any. */
    ghost predicate Valid()
      reads this
    {
      Linked(store, genesis) && Highest(store, tip)
    }

    constructor (genesis: Hash, check: Block -> nat)
      ensures Valid() && tip == genesis && this.genesis == genesis && this.check == check
      ensures store == map[genesis := Block(genesis, None, 0)]
    {
      this.genesis, this.check := genesis, check;
      store, tip := map[genesis := Block(genesis, None, 0)], genesis;
    }

    /** `AddBlock`: a block that is not known is stored wherever it stands; it becomes the last if it is higher. */
    method AddBlock(b: Block)
      requires Valid()
      modifies this
      ensures store == Stored(old(store), b)
      ensures tip == if b.hash !in old(store) && b.height > old(store[tip].height) then b.hash else old(tip)
      ensures Valid() <==> b.hash in old(store) || Extends(old(store), b)
    {
      hide Linked;
      StoredLinked(store, genesis, b);
      if b.hash in store {
        return;
      }
      var last := store[tip];
      store := store[b.hash := b];
      if b.height > last.height {
        tip := b.hash;
      }
    }

    /** `MineBlock`; `hash` is what the proof of work finds, which no stored block has. */
    method MineBlock(hash: Hash) returns (b: Block)
      requires Valid() && hash !in store
      modifies this
      ensures Valid() && tip == hash && b == Block(hash, Some(old(tip)), old(store[tip].height) + 1)
      ensures store == old(store)[hash := b]
      ensures Path(store, genesis, tip) == [hash] + old(Path(store, genesis, tip))
    {
      b := Block(hash, Some(tip), store[tip].height + 1);
      StoredLinked(store, genesis, b);
      PathStored(store, genesis, b, tip);
      store := store[hash := b];
      tip := hash;
    }

    method GetBlock(hash: Hash) returns (b: Option<Block>)
      ensures b == if hash in store then Some(store[hash]) else None
    {
      return if hash in store then Some(store[hash]) else None;
    }

    /** `GetBlockHashes`: the chain is walked to its end, but hashes are taken only until `last` comes up. */
    method GetBlockHashes(last: Hash) returns (blocks: seq<Hash>)
      requires Valid()
      ensures blocks == Until(Path(store, genesis, tip), last)
    {
      blocks := [];
      var current := tip;
      var stopBlock := false;
      ghost var path := Path(store, genesis, tip);
      ghost var i := 0;
      while true
        invariant current in store && i <= |path| && path[i..] == Path(store, genesis, current)
        invariant !stopBlock ==> blocks == path[..i] && last !in path[..i]
        invariant stopBlock ==> blocks == Until(path, last)
        decreases store[current].height
      {
        var b := store[current];
        assert ParentOk(store, genesis, b) && b.hash == current;
        if b.prev.None? {
          break;
        }
        current := b.prev.value;
        assert path[i] == b.hash && path[i + 1..] == path[i..][1..];
        i := i + 1;
        if last == b.hash {
          if !stopBlock {
            UntilAt(path, last, i - 1);
          }
          stopBlock := true;
          continue;
        }
        if !stopBlock {
          blocks := blocks + [b.hash];
        }
      }
      if !stopBlock {
        assert path[..i] == path;
        UntilAt(path, last, i);
      }
    }

    /** `IsBlockValid`: for a block that is stored already, the last block is never read, and the node panics. */
    method IsBlockValid(b: Block) returns (v: Verdict)
      requires Valid()
      ensures v == Panics <==> b.hash in store
      ensures v == Accepted <==>
                b.hash !in store && b.height == store[tip].height + 1 && b.prev == Some(tip) && check(b) == 0
      ensures v == Accepted ==> Extends(store, b)
      // the reasons, the first that holds
      ensures b.hash !in store && b.height != store[tip].height + 1 ==> v == Refused(2)
      ensures b.hash !in store && b.height == store[tip].height + 1 && b.prev != Some(tip) ==> v == Refused(3)
      ensures b.hash !in store && b.height == store[tip].height + 1 && b.prev == Some(tip) && check(b) != 0 ==> v == Refused(check(b))
    {
      if b.hash in store {
        return Panics;
      }
      if store[tip].height + 1 != b.height {
        return Refused(2);
      }
      if b.prev != Some(tip) {
        return Refused(3);
      }
      if check(b) != 0 {
        return Refused(check(b));
      }
      return Accepted;
    }
  }

  lemma {:induction false} UntilAt(path: seq<Hash>, last: Hash, i: nat)
    requires i <= |path| && last !in path[..i] && (i < |path| ==> path[i] == last)
    ensures Until(path, last) == path[..i]
  {
    if i > 0 {
      assert path[..i][0] == path[0];
      assert forall h :: h in path[1..][..i - 1] ==> h in path[..i];
      UntilAt(path[1..], last, i - 1);
    }
  }
}
