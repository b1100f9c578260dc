/**
 Binary min-heap order over the first `n` of a sequence of priorities, and the two sifting
 steps of Go's `container/heap` (the standard library is not part of this model): the
 registrar's request queue and the dialer's history both sift by these steps.
 */
module Heap {

  function Parent(i: int): int {
    (i - 1) / 2
  }

  ghost predicate Ordered(p: seq<int>, n: nat)
    requires n <= |p|
  {
    forall i {:trigger Parent(i)} :: 0 < i < n ==> p[Parent(i)] <= p[i]
  }

  ghost predicate GrandparentBelow(p: seq<int>, j: nat, n: nat)
    requires n <= |p|
  {
    0 < j < n ==> forall i {:trigger Parent(i)} :: 0 < i < n && Parent(i) == j ==> p[Parent(j)] <= p[i]
  }

  /** Heap order, except that slot `j` may be smaller than its parent. */
  ghost predicate OrderedAbove(p: seq<int>, j: nat, n: nat)
    requires n <= |p|
  {
    && (forall i {:trigger Parent(i)} :: 0 < i < n && i != j ==> p[Parent(i)] <= p[i])
    && GrandparentBelow(p, j, n)
  }

  /** Heap order, except that slot `j` may be larger than its children. */
  ghost predicate OrderedBelow(p: seq<int>, j: nat, n: nat)
    requires n <= |p|
  {
    && (forall i {:trigger Parent(i)} :: 0 < i < n && Parent(i) != j ==> p[Parent(i)] <= p[i])
    && GrandparentBelow(p, j, n)
  }

  ghost predicate OrderedAround(p: seq<int>, j: nat, n: nat)
    requires n <= |p|
  {
    OrderedAbove(p, j, n) || OrderedBelow(p, j, n)
  }

  function Exchange<T>(s: seq<T>, i: nat, j: nat): (r: seq<T>)
    requires i < |s| && j < |s|
    ensures |r| == |s|
  {
    s[i := s[j]][j := s[i]]
  }

  lemma SiftUpStep(p: seq<int>, j: nat, n: nat)
    requires 0 < j < n <= |p| && OrderedAbove(p, j, n) && p[j] < p[Parent(j)]
    ensures OrderedAbove(Exchange(p, Parent(j), j), Parent(j), n)
  {
    var i := Parent(j);
    var q := Exchange(p, i, j);
    forall k {:trigger Parent(k)} | 0 < k < n && k != i ensures q[Parent(k)] <= q[k] {
    }
    if 0 < i {
      assert p[Parent(i)] <= p[i];
    }
  }

  lemma SiftDownStep(p: seq<int>, i: nat, j: nat, n: nat)
    requires i < j < n <= |p| && Parent(j) == i && OrderedAround(p, i, n)
    requires p[j] < p[i]
    requires 2 * i + 1 < n ==> p[j] <= p[2 * i + 1]
    requires 2 * i + 2 < n ==> p[j] <= p[2 * i + 2]
    ensures OrderedBelow(Exchange(p, i, j), j, n)
  {
    var q := Exchange(p, i, j);
    forall k {:trigger Parent(k)} | 0 < k < n && Parent(k) != j ensures q[Parent(k)] <= q[k] {
      if Parent(k) == i {
        assert k == 2 * i + 1 || k == 2 * i + 2;
      } else if k == i {
        assert p[Parent(i)] <= p[j];
      }
    }
  }

  lemma Appended(p: seq<int>, v: int)
    requires Ordered(p, |p|)
    ensures OrderedAbove(p + [v], |p|, |p| + 1)
  {
    assert forall i {:trigger Parent(i)} :: 0 < i < |p| ==> (p + [v])[Parent(i)] == p[Parent(i)];
  }

  lemma SettledAbove(p: seq<int>, j: nat, n: nat)
    requires n <= |p| && OrderedAbove(p, j, n)
    requires 0 < j < n ==> p[Parent(j)] <= p[j]
    ensures Ordered(p, n)
  {
  }

  ghost predicate NoSmallerChild(p: seq<int>, i: nat, n: nat)
    requires n <= |p|
  {
    && (2 * i + 1 < n ==> p[i] <= p[2 * i + 1])
    && (2 * i + 2 < n ==> p[i] <= p[2 * i + 2])
  }

  lemma SettledBelow(p: seq<int>, i: nat, n: nat)
    requires n <= |p| && OrderedBelow(p, i, n) && NoSmallerChild(p, i, n)
    ensures Ordered(p, n)
  {
    forall k {:trigger Parent(k)} | 0 < k < n ensures p[Parent(k)] <= p[k] {
      assert Parent(k) == i ==> k == 2 * i + 1 || k == 2 * i + 2;
    }
  }

  lemma UnmovedIsAbove(p: seq<int>, i: nat, n: nat)
    requires i < n <= |p| && OrderedAround(p, i, n) && NoSmallerChild(p, i, n)
    ensures OrderedAbove(p, i, n)
  {
    if OrderedBelow(p, i, n) {
      SettledBelow(p, i, n);
      ChangedAt(p, i, p[i], n);
      assert p[i := p[i]] == p;
    }
  }

  /** The root of a heap is a minimum. */
  lemma {:induction false} RootIsLeast(p: seq<int>, i: nat)
    requires Ordered(p, |p|) && i < |p|
    ensures p[0] <= p[i]
  {
    if i > 0 {
      RootIsLeast(p, Parent(i));
    }
  }

  /** Whatever slot `j` is changed to, the heap is broken at most around `j`. */
  lemma ChangedAt(p: seq<int>, j: nat, v: int, n: nat)
    requires n <= |p| && Ordered(p, n) && j < n
    ensures v <= p[j] ==> OrderedAbove(p[j := v], j, n)
    ensures p[j] <= v ==> OrderedBelow(p[j := v], j, n)
  {
    var q := p[j := v];
    if 0 < j {
      assert p[Parent(j)] <= p[j];
    }
  }

  /** Moving the last slot to slot `i` breaks the rest of the heap at most around `i`. */
  lemma LastMovedTo(p: seq<int>, i: nat)
    requires i < |p| - 1 && Ordered(p, |p|)
    ensures var n := |p| - 1; var q := Exchange(p, i, n); OrderedAround(q, i, n)
  {
    var n := |p| - 1;
    ChangedAt(p, i, p[n], n);
    assert Exchange(p, i, n) == p[i := p[n]][n := p[i]];
  }
}
