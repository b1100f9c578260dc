/**
 The iterative lookup (`p2p/discover/table.go`, `lookup`): up to alpha queries in flight to the
 closest nodes not asked yet, until the closest sixteen heard of have all been asked.

 Replies are whatever the network sends: in every round any sequence of nodes of a finite universe.
 */
module Lookup {
  import opened Collections
  import opened Distance
  import opened Closest

  const ALPHA := 3
  const BUCKET_SIZE := 16

  function Ids(s: seq<Node>): (ids: set<nat>) {
    set n | n in s :: n.id
  }

  lemma NoneTwice()
    ensures Distinct<nat>([])
  {
  }

  lemma OneMoreId(s: seq<Node>, i: nat)
    requires i < |s|
    ensures Ids(s[..i + 1]) == Ids(s[..i]) + {s[i].id}
  {
    assert s[..i + 1] == s[..i] + [s[i]];
  }

  lemma OneMoreAsked(queries: seq<nat>, asked: set<nat>, self: nat, id: nat)
    requires Distinct(queries) && asked == (set q | q in queries) + {self} && id !in asked
    ensures Distinct(queries + [id]) && asked + {id} == (set q | q in queries + [id]) + {self}
  {
  }

  /** Of several nodes of one identity the first one told of. */
  ghost function Novel(told: seq<Node>): (news: seq<Node>) {
    if told == [] then []
    else
      var front := told[..|told| - 1];
      Novel(front) + if told[|told| - 1].id in Ids(front) then [] else [told[|told| - 1]]
  }

  lemma NovelStep(told: seq<Node>, n: Node)
    ensures Novel(told + [n]) == if n.id in Ids(told) then Novel(told) else Novel(told) + [n]
    ensures Ids(told + [n]) == Ids(told) + {n.id}
  {
    assert (told + [n])[..|told|] == told;
    OneMoreId(told + [n], |told|);
  }

  /** They have every identity told of, each once. */
  lemma {:induction false} NovelIds(told: seq<Node>)
    ensures Ids(Novel(told)) == Ids(told)
    ensures forall i, j :: 0 <= i < j < |Novel(told)| ==> Novel(told)[i].id != Novel(told)[j].id
  {
    if told != [] {
      hide Novel, Ids;
      var front, last := told[..|told| - 1], told[|told| - 1];
      assert told == front + [last];
      NovelIds(front);
      NovelStep(front, last);
      if last.id !in Ids(front) {
        IdsWith(Novel(front), last);
      }
    } else {
      assert Novel(told) == [];
    }
  }

  lemma IdsWith(s: seq<Node>, n: Node)
    ensures Ids(s + [n]) == Ids(s) + {n.id}
    ensures forall i :: 0 <= i < |s| ==> s[i].id in Ids(s)
  {
    OneMoreId(s + [n], |s|);
    assert (s + [n])[..|s|] == s;
  }

  /** Each of them is the first that was told of with its identity. */
  lemma {:induction false} NovelIsFirst(told: seq<Node>, n: Node)
    requires n in Novel(told)
    ensures exists i :: 0 <= i < |told| && told[i] == n && n.id !in Ids(told[..i])
  {
    hide Ids;
    var k := |told| - 1;
    var front := told[..k];
    if n in Novel(front) {
      NovelIsFirst(front, n);
      var i :| 0 <= i < k && front[i] == n && n.id !in Ids(front[..i]);
      assert told[i] == n && told[..i] == front[..i];
    } else {
      assert told[k] == n && n.id !in Ids(told[..k]);
    }
  }

  /** The first `n` replies, one after the other. */
  ghost function Told(replies: nat -> seq<Node>, n: nat): seq<Node> {
    if n == 0 then [] else Told(replies, n - 1) + replies(n - 1)
  }

  lemma {:induction false} ToldByReplies(replies: nat -> seq<Node>, n: nat)
    ensures forall m :: m in Told(replies, n) <==> exists i: nat :: i < n && m in replies(i)
  {
    if n > 0 {
      ToldByReplies(replies, n - 1);
      forall m ensures m in Told(replies, n) <==> exists i: nat :: i < n && m in replies(i) {
        if m in replies(n - 1) {
          assert n - 1 < n && m in replies(n - 1);
        }
      }
    }
  }

  class Search {
    const target: Hash
    const self: nat
    ghost const universe: set<nat>
    ghost const table: seq<Node>  // the table's nodes
    var result: NodesByDistance
    var asked: set<nat>
    var seen: set<nat>
    var pendingQueries: nat
    var queries: seq<nat>        // whom was asked, in order
    ghost var told: seq<Node>    // the replies, one after the other

    /** The table's nodes, and then every node that a reply was the first to tell of. */
    ghost function Heard(): seq<Node>
      reads this
    {
      table + Novel(told)
    }

    ghost predicate Valid()
      reads this, result
    {
      && result.target == target && |result.entries| <= BUCKET_SIZE && Sorted(target, result.entries)
      && result.entries == Take(SortByDistance(target, Heard()), BUCKET_SIZE)
      && seen == Ids(told) && Ids(Heard()) <= universe && self in universe
      && asked <= universe && asked == (set id | id in queries) + {self}
      && Distinct(queries) && self !in queries && pendingQueries <= ALPHA && pendingQueries <= |queries|
    }

    /** Starts from the table's closest nodes; our own identity counts as asked. */
    constructor (target: Hash, self: nat, buckets: seq<seq<Node>>, ghost universe: set<nat>)
      requires Ids(Flatten(buckets)) <= universe && self in universe
      ensures Valid() && fresh(result) && table == Flatten(buckets) && told == [] && queries == [] && pendingQueries == 0
      ensures this.target == target && this.self == self && this.universe == universe
    {
      this.target, this.self, this.universe := target, self, universe;
      asked, seen, pendingQueries, queries := {self}, {}, 0, [];
      table, told := Flatten(buckets), [];
      result := new NodesByDistance(target);
      new;
      hide Take, SortByDistance, Sorted, Flatten, Ids, Distinct;
      NoneTwice();
      result := ClosestNodes(target, buckets, BUCKET_SIZE);
      assert Heard() == table;
      SortSorts(target, table);
      TakeSorted(target, SortByDistance(target, table), BUCKET_SIZE);
    }

    /** Asks the closest nodes not asked yet, while fewer than alpha queries are in flight. */
    method AskMore() returns (ghost i: nat)
      requires Valid()
      modifies this`asked, this`pendingQueries, this`queries
      ensures Valid() && old(asked) <= asked && (asked == old(asked) ==> pendingQueries == old(pendingQueries))
      ensures pendingQueries < ALPHA ==> Ids(result.entries) <= asked
      // exactly the first `i` entries have been asked by now, and more would be if fewer than alpha were in flight
      ensures i <= |result.entries| && asked == old(asked) + Ids(result.entries[..i])
      ensures i < |result.entries| ==> pendingQueries == ALPHA
      ensures old(queries) <= queries && pendingQueries == old(pendingQueries) + |queries| - |old(queries)|
    {
      hide Take, SortByDistance, Sorted;
      TakenFrom(target, Heard(), BUCKET_SIZE);
      i := Ask();
      assert result.entries[..|result.entries|] == result.entries;
    }

    /** The loop of `lookup` over the entries. */
    method Ask() returns (i: nat)
      requires Valid() && Ids(result.entries) <= universe
      modifies this`asked, this`pendingQueries, this`queries
      ensures Valid() && old(asked) <= asked && (asked == old(asked) ==> pendingQueries == old(pendingQueries))
      ensures i <= |result.entries| && asked == old(asked) + Ids(result.entries[..i])
      ensures i < |result.entries| ==> pendingQueries == ALPHA
      ensures old(queries) <= queries && pendingQueries == old(pendingQueries) + |queries| - |old(queries)|
    {
      hide Take, SortByDistance, Sorted, Distinct;
      i := 0;
      while i < |result.entries| && pendingQueries < ALPHA
        invariant Valid() && i <= |result.entries|
        invariant old(asked) <= asked && (asked == old(asked) ==> pendingQueries == old(pendingQueries))
        invariant asked == old(asked) + Ids(result.entries[..i])
        invariant old(queries) <= queries && pendingQueries == old(pendingQueries) + |queries| - |old(queries)|
      {
        var n := result.entries[i];
        OneMoreId(result.entries, i);
        if n.id !in asked {
          assert n.id in Ids(result.entries);
          OneMoreAsked(queries, asked, self, n.id);
          asked, queries, pendingQueries := asked + {n.id}, queries + [n.id], pendingQueries + 1;
        }
        i := i + 1;
      }
    }

    /** Takes in one reply: of every identity not seen yet its first node is pushed. */
    method TakeReply(reply: seq<Node>)
      requires Valid() && pendingQueries > 0 && Ids(reply) <= universe
      modifies this`pendingQueries, this`seen, this`told, result`entries
      ensures Valid() && pendingQueries == old(pendingQueries) - 1
      ensures told == old(told) + reply && seen == old(seen) + Ids(reply)
    {
      hide Take, SortByDistance, Sorted, Novel, Distinct;
      for i := 0 to |reply|
        invariant Valid() && pendingQueries == old(pendingQueries)
        invariant told == old(told) + reply[..i] && seen == old(seen) + Ids(reply[..i])
      {
        assert reply[i].id in Ids(reply);
        OneMoreId(reply, i);
        TakeNode(reply[i]);
      }
      assert reply[..|reply|] == reply;
      pendingQueries := pendingQueries - 1;
    }

    /** One node of a reply. */
    method TakeNode(n: Node)
      requires Valid() && n.id in universe
      modifies this`seen, this`told, result`entries
      ensures Valid() && told == old(told) + [n] && seen == old(seen) + {n.id}
    {
      hide Take, SortByDistance, Sorted, Insert, Novel, Distinct, Ids;
      NovelStep(told, n);
      if n.id !in seen {
        PushSorts(target, Heard(), n, BUCKET_SIZE);
        IdsWith(Heard(), n);
        assert table + (Novel(told) + [n]) == Heard() + [n];
        seen := seen + {n.id};
        result.Push(n, BUCKET_SIZE);
      }
      told := told + [n];
    }
  }

  lemma TakenFrom(t: Hash, all: seq<Node>, k: nat)
    ensures Ids(Take(SortByDistance(t, all), k)) <= Ids(all)
  {
    SortSorts(t, all);
    var close := Take(SortByDistance(t, all), k);
    forall n | n in close ensures n in all {
      assert n in multiset(SortByDistance(t, all));
    }
  }

  /**
   The whole lookup terminates whatever is replied, asks nobody twice and never ourselves, takes in one reply
   for each query, and returns exactly the sixteen closest of all the nodes heard of, from the table or from
   a reply, every one of which was asked (or is us).
   */
  method RunLookup(target: Hash, self: nat, buckets: seq<seq<Node>>, replies: nat -> seq<Node>, ghost universe: set<nat>)
      returns (entries: seq<Node>, queries: seq<nat>)
    requires Ids(Flatten(buckets)) <= universe && self in universe
    requires forall i :: Ids(replies(i)) <= universe
    ensures Distinct(queries) && self !in queries
    ensures Ids(entries) <= (set id | id in queries) + {self}
    ensures |entries| <= BUCKET_SIZE && Sorted(target, entries)
    ensures entries == Take(SortByDistance(target, Flatten(buckets) + Novel(Told(replies, |queries|))), BUCKET_SIZE)
  {
    hide Take, SortByDistance, Sorted, Flatten, Novel;
    var s := new Search(target, self, buckets, universe);
    var round: nat := 0;
    while true
      invariant s.Valid() && fresh(s) && fresh(s.result)
      invariant s.target == target && s.self == self && s.universe == universe
      invariant s.table == Flatten(buckets) && s.told == Told(replies, round)
      invariant round + s.pendingQueries == |s.queries|
      decreases s.universe - s.asked, s.pendingQueries
    {
      var _ := s.AskMore();
      if s.pendingQueries == 0 {
        break;
      }
      s.TakeReply(replies(round));
      round := round + 1;
    }
    entries, queries := s.result.entries, s.queries;
  }

  /**
   What that means for any node of any reply: the first node told of with its identity is returned, or
   sixteen are that are no farther from the target.
   */
  lemma NoCloserLeftOut(target: Hash, buckets: seq<seq<Node>>, replies: nat -> seq<Node>, rounds: nat, i: nat, n: Node) returns (m: Node)
    requires i < rounds && n in replies(i)
    ensures m.id == n.id && m in Novel(Told(replies, rounds))
    ensures var entries := Take(SortByDistance(target, Flatten(buckets) + Novel(Told(replies, rounds))), BUCKET_SIZE);
            m in entries || (|entries| == BUCKET_SIZE && forall e :: e in entries ==> DistanceOrder(target, e.sha, m.sha) <= 0)
  {
    hide SortByDistance, Flatten, Novel, DistanceOrder, Sorted;
    var told := Told(replies, rounds);
    ToldByReplies(replies, rounds);
    NovelIds(told);
    assert n.id in Ids(Novel(told));
    m :| m in Novel(told) && m.id == n.id;
    var all := Flatten(buckets) + Novel(told);
    assert m in all;
    ClosestAreClosest(target, all, BUCKET_SIZE);
    var entries := Take(SortByDistance(target, all), BUCKET_SIZE);
    if m !in entries {
      assert m in multiset(all) - multiset(entries);
      if |all| <= BUCKET_SIZE {
        AllReturned(multiset(entries), multiset(all));
      }
    }
  }

  lemma AllReturned(some: multiset<Node>, all: multiset<Node>)
    requires some <= all && |some| == |all|
    ensures all - some == multiset{}
  {
    assert all == some + (all - some);
    assert |all| == |some| + |all - some|;
  }
}
