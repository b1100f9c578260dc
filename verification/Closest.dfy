/**
 The bounded list of the nodes closest to a target (`p2p/discover/table.go`, `nodesByDistance`):
 a binary search for the slot, then a slide that drops what no longer fits.
 */
module Closest {
  import opened Distance

  datatype Node = Node(id: nat, sha: Hash)

  ghost predicate Sorted(t: Hash, s: seq<Node>) {
    forall i, j :: 0 <= i < j < |s| ==> DistanceOrder(t, s[i].sha, s[j].sha) <= 0
  }

  /** `n` goes behind every node that is at least as close. */
  function Insert(t: Hash, s: seq<Node>, n: Node): (r: seq<Node>)
    ensures |r| == |s| + 1
  {
    if s == [] then [n]
    else if DistanceOrder(t, s[0].sha, n.sha) > 0 then [n] + s
    else [s[0]] + Insert(t, s[1..], n)
  }

  /** The stable insertion sort by distance. */
  function SortByDistance(t: Hash, s: seq<Node>): (r: seq<Node>)
    ensures |r| == |s|
  {
    if s == [] then [] else Insert(t, SortByDistance(t, s[..|s| - 1]), s[|s| - 1])
  }

  function Take(s: seq<Node>, k: nat): (r: seq<Node>) {
    if |s| <= k then s else s[..k]
  }

  lemma {:induction false} InsertAt(t: Hash, s: seq<Node>, n: Node, ix: nat)
    requires ix <= |s|
    requires forall i :: 0 <= i < ix ==> DistanceOrder(t, s[i].sha, n.sha) <= 0
    requires ix < |s| ==> DistanceOrder(t, s[ix].sha, n.sha) > 0
    ensures Insert(t, s, n) == s[..ix] + [n] + s[ix..]
  {
    hide DistanceOrder;
    if ix == 0 {
      assert s[..0] + [n] + s[0..] == [n] + s;
    } else {
      InsertAt(t, s[1..], n, ix - 1);
      assert s[..ix] + [n] + s[ix..] == [s[0]] + (s[1..][..ix - 1] + [n] + s[1..][ix - 1..]);
    }
  }

  /** Where `n` goes in a sorted list: everything before is at least as close, everything after farther. */
  lemma SlotSplits(t: Hash, s: seq<Node>, n: Node) returns (ix: nat)
    requires Sorted(t, s)
    ensures ix <= |s|
    ensures forall i :: 0 <= i < ix ==> DistanceOrder(t, s[i].sha, n.sha) <= 0
    ensures forall i :: ix <= i < |s| ==> DistanceOrder(t, s[i].sha, n.sha) > 0
  {
    hide DistanceOrder;
    ix := 0;
    while ix < |s| && DistanceOrder(t, s[ix].sha, n.sha) <= 0
      invariant ix <= |s| && forall i :: 0 <= i < ix ==> DistanceOrder(t, s[i].sha, n.sha) <= 0
    {
      ix := ix + 1;
    }
    forall i | ix <= i < |s| ensures DistanceOrder(t, s[i].sha, n.sha) > 0 {
      FartherThanFarther(t, s, ix, i, n);
    }
  }

  lemma FartherThanFarther(t: Hash, s: seq<Node>, i: nat, j: nat, n: Node)
    requires Sorted(t, s) && i <= j < |s| && DistanceOrder(t, s[i].sha, n.sha) > 0
    ensures DistanceOrder(t, s[j].sha, n.sha) > 0
  {
    DistanceOrderIsTotal(t, n.sha, s[i].sha, s[j].sha);
    DistanceOrderIsTotal(t, s[i].sha, n.sha, s[j].sha);
    DistanceOrderIsTotal(t, s[j].sha, n.sha, s[j].sha);
  }

  lemma InsertSorted(t: Hash, s: seq<Node>, n: Node)
    requires Sorted(t, s)
    ensures Sorted(t, Insert(t, s, n)) && multiset(Insert(t, s, n)) == multiset(s) + multiset{n}
  {
    hide DistanceOrder, Sorted, Insert;
    var ix := SlotSplits(t, s, n);
    InsertAt(t, s, n, ix);
    assert s == s[..ix] + s[ix..];
    SplicedSorted(t, s, n, ix);
  }

  lemma SplicedSorted(t: Hash, s: seq<Node>, n: Node, ix: nat)
    requires Sorted(t, s) && ix <= |s|
    requires forall i :: 0 <= i < ix ==> DistanceOrder(t, s[i].sha, n.sha) <= 0
    requires forall i :: ix <= i < |s| ==> DistanceOrder(t, s[i].sha, n.sha) > 0
    ensures Sorted(t, s[..ix] + [n] + s[ix..])
  {
    hide DistanceOrder;
    var r := s[..ix] + [n] + s[ix..];
    forall i, j | 0 <= i < j < |r| ensures DistanceOrder(t, r[i].sha, r[j].sha) <= 0 {
      if i == ix {
        assert r[j] == s[j - 1];
        FlipCmp(t, s[j - 1].sha, n.sha);
      } else if j == ix {
        assert r[i] == s[i];
      } else {
        assert r[i] == s[if i < ix then i else i - 1] && r[j] == s[if j < ix then j else j - 1];
      }
    }
  }

  lemma FlipCmp(t: Hash, a: Hash, b: Hash)
    ensures DistanceOrder(t, a, b) == -DistanceOrder(t, b, a)
  {
    DistanceOrderIsTotal(t, a, b, a);
  }

  /** Sorting gives a sorted permutation. */
  lemma {:induction false} SortSorts(t: Hash, s: seq<Node>)
    ensures Sorted(t, SortByDistance(t, s)) && multiset(SortByDistance(t, s)) == multiset(s)
  {
    if s != [] {
      var front := s[..|s| - 1];
      SortSorts(t, front);
      InsertSorted(t, SortByDistance(t, front), s[|s| - 1]);
      assert s == front + [s[|s| - 1]];
    }
  }

  /** Dropping all but the first `k` before an insertion loses nothing of the first `k` after it. */
  lemma TakeInsert(t: Hash, s: seq<Node>, n: Node, k: nat)
    requires Sorted(t, s)
    ensures Take(Insert(t, Take(s, k), n), k) == Take(Insert(t, s, n), k)
  {
    hide DistanceOrder;
    if |s| > k {
      var ix := SlotSplits(t, s, n);
      InsertAt(t, s, n, ix);
      if ix < k {
        InsertAt(t, s[..k], n, ix);
        assert (s[..ix] + [n] + s[ix..])[..k] == (s[..k][..ix] + [n] + s[..k][ix..])[..k];
      } else {
        InsertAt(t, s[..k], n, k);
        assert (s[..ix] + [n] + s[ix..])[..k] == (s[..k][..k] + [n] + s[..k][k..])[..k];
      }
    }
  }

  class NodesByDistance {
    var entries: seq<Node>
    const target: Hash

    constructor (target: Hash)
      ensures entries == [] && this.target == target
    {
      entries, this.target := [], target;
    }

    /** `sort.Search`: the first slot whose node is farther than `n`. */
    method Search(n: Node) returns (ix: nat)
      requires Sorted(target, entries)
      ensures ix <= |entries|
      ensures forall i :: 0 <= i < ix ==> DistanceOrder(target, entries[i].sha, n.sha) <= 0
      ensures forall i :: ix <= i < |entries| ==> DistanceOrder(target, entries[i].sha, n.sha) > 0
    {
      hide DistanceOrder, Sorted;
      var lo, hi := 0, |entries|;
      while lo < hi
        invariant lo <= hi <= |entries|
        invariant forall i :: 0 <= i < lo ==> DistanceOrder(target, entries[i].sha, n.sha) <= 0
        invariant forall i :: hi <= i < |entries| ==> DistanceOrder(target, entries[i].sha, n.sha) > 0
      {
        var h := (lo + hi) / 2;
        var c := Distcmp(target, entries[h].sha, n.sha);
        if c > 0 {
          forall i | h <= i < |entries| ensures DistanceOrder(target, entries[i].sha, n.sha) > 0 {
            FartherThanFarther(target, entries, h, i, n);
          }
          hi := h;
        } else {
          forall i | 0 <= i <= h ensures DistanceOrder(target, entries[i].sha, n.sha) <= 0 {
            if DistanceOrder(target, entries[i].sha, n.sha) > 0 {
              FartherThanFarther(target, entries, i, h, n);
            }
          }
          lo := h + 1;
        }
      }
      ix := lo;
    }

    method Push(n: Node, maxElems: nat)
      requires Sorted(target, entries) && |entries| <= maxElems
      modifies this`entries
      ensures entries == Take(Insert(target, old(entries), n), maxElems)
      ensures Sorted(target, entries) && |entries| <= maxElems
    {
      hide DistanceOrder, Sorted;
      var ix := Search(n);
      InsertAt(target, entries, n, ix);
      InsertSorted(target, entries, n);
      TakeSorted(target, Insert(target, entries, n), maxElems);
      SlidDown(entries, n, ix, maxElems);
      if |entries| < maxElems {
        entries := entries + [n];
      }
      if ix != |entries| {
        // slide the entries behind the slot down by one; the last one falls off
        entries := entries[..ix] + [n] + entries[ix..|entries| - 1];
      }
    }
  }

  /** Growing a list that is not full, and then sliding what is behind the slot down by one, is insertion cut to the bound. */
  lemma SlidDown(entries: seq<Node>, n: Node, ix: nat, k: nat)
    requires ix <= |entries| <= k
    ensures var grown := if |entries| < k then entries + [n] else entries;
            Take(entries[..ix] + [n] + entries[ix..], k) ==
              if ix != |grown| then grown[..ix] + [n] + grown[ix..|grown| - 1] else grown
  {
    if |entries| < k {
      assert (entries + [n])[..ix] == entries[..ix] && (entries + [n])[ix..|entries|] == entries[ix..];
    } else if ix < k {
      assert entries[ix..] == entries[ix..|entries| - 1] + [entries[|entries| - 1]];
    }
  }

  lemma TakeSorted(t: Hash, s: seq<Node>, k: nat)
    requires Sorted(t, s)
    ensures Sorted(t, Take(s, k)) && |Take(s, k)| <= k
  {
  }

  /** One more push is one more node sorted. */
  lemma PushSorts(t: Hash, before: seq<Node>, n: Node, k: nat)
    ensures Take(Insert(t, Take(SortByDistance(t, before), k), n), k) == Take(SortByDistance(t, before + [n]), k)
  {
    hide DistanceOrder, Sorted, Insert;
    SortSorts(t, before);
    TakeInsert(t, SortByDistance(t, before), n, k);
    assert (before + [n])[..|before|] == before;
  }

  lemma NothingSorted(t: Hash, k: nat)
    ensures Sorted(t, []) && Take(SortByDistance(t, []), k) == []
  {
  }

  /** `closest`: every table entry is pushed, bucket after bucket. */
  method ClosestNodes(target: Hash, buckets: seq<seq<Node>>, k: nat) returns (close: NodesByDistance)
    ensures fresh(close) && close.target == target
    ensures close.entries == Take(SortByDistance(target, Flatten(buckets)), k)
  {
    hide DistanceOrder, Sorted, Insert, Take, SortByDistance;
    close := new NodesByDistance(target);
    NothingSorted(target, k);
    for b := 0 to |buckets|
      invariant close.entries == Take(SortByDistance(target, Flatten(buckets[..b])), k)
      invariant Sorted(target, close.entries) && |close.entries| <= k
    {
      ghost var start := Flatten(buckets[..b]);
      assert start + buckets[b][..0] == start;
      for i := 0 to |buckets[b]|
        invariant close.entries == Take(SortByDistance(target, start + buckets[b][..i]), k)
        invariant Sorted(target, close.entries) && |close.entries| <= k
      {
        PushSorts(target, start + buckets[b][..i], buckets[b][i], k);
        close.Push(buckets[b][i], k);
        assert start + buckets[b][..i + 1] == start + buckets[b][..i] + [buckets[b][i]];
      }
      assert buckets[..b + 1][..b] == buckets[..b] && buckets[b][..|buckets[b]|] == buckets[b];
    }
    assert buckets[..|buckets|] == buckets;
  }

  function Flatten(buckets: seq<seq<Node>>): (r: seq<Node>) {
    if buckets == [] then [] else Flatten(buckets[..|buckets| - 1]) + buckets[|buckets| - 1]
  }

  lemma SortedSplit(t: Hash, sorted: seq<Node>, c: nat, a: Node, b: Node)
    requires c <= |sorted| && Sorted(t, sorted) && a in sorted[..c] && b in sorted[c..]
    ensures DistanceOrder(t, a.sha, b.sha) <= 0
  {
    hide DistanceOrder;
    var i :| 0 <= i < c && sorted[..c][i] == a;
    var j :| 0 <= j < |sorted| - c && sorted[c..][j] == b;
    assert sorted[i] == a && sorted[c + j] == b;
  }

  /** What the result means: at most `k` nodes of the table, and none left out is closer than one returned. */
  lemma ClosestAreClosest(t: Hash, all: seq<Node>, k: nat)
    ensures var close := Take(SortByDistance(t, all), k);
            var rest := multiset(all) - multiset(close);
            && |close| == (if |all| <= k then |all| else k) && Sorted(t, close) && multiset(close) <= multiset(all)
            && forall a, b :: a in close && b in rest ==> DistanceOrder(t, a.sha, b.sha) <= 0
  {
    hide DistanceOrder, SortByDistance, Sorted;
    SortSorts(t, all);
    var sorted := SortByDistance(t, all);
    var close := Take(sorted, k);
    TakeSorted(t, sorted, k);
    assert sorted == close + sorted[|close|..];
    var rest := multiset(sorted[|close|..]);
    assert multiset(sorted) == multiset(close) + rest;
    assert multiset(all) - multiset(close) == rest;
    forall a, b | a in close && b in rest ensures DistanceOrder(t, a.sha, b.sha) <= 0 {
      SortedSplit(t, sorted, |close|, a, b);
    }
  }
}
