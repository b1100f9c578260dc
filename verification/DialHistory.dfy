/**
 The dialer's history of recent dials (`p2p/dial.go`): a heap by expiry time, of which only the
 earliest can be seen directly. What it holds is a multiset; its IDs are unique if its users add
 no ID that is still in it.
 */
module DialHistory {
  import opened Heap

  type NodeId = nat
  type Time = int

  datatype PastDial = PastDial(id: NodeId, exp: Time)

  function Expiries(h: seq<PastDial>): (p: seq<int>)
    ensures |p| == |h| && forall i :: 0 <= i < |h| ==> p[i] == h[i].exp
  {
    seq(|h|, i requires 0 <= i < |h| => h[i].exp)
  }

  lemma ExpiriesExchanged(h: seq<PastDial>, i: nat, j: nat)
    requires i < |h| && j < |h|
    ensures Expiries(Exchange(h, i, j)) == Exchange(Expiries(h), i, j)
    ensures multiset(Exchange(h, i, j)) == multiset(h)
  {
  }

  lemma OrderedPrefix(h: seq<PastDial>)
    requires |h| > 0 && Ordered(Expiries(h), |h|)
    ensures Ordered(Expiries(h), |h| - 1)
  {
  }

  lemma MovedLast(h: seq<PastDial>, i: nat)
    requires i < |h|
    ensures Exchange(h, i, |h| - 1)[|h| - 1] == h[i]
  {
  }

  lemma DropLast(h: seq<PastDial>)
    requires |h| > 0 && Ordered(Expiries(h), |h| - 1)
    ensures var n := |h| - 1;
            Ordered(Expiries(h[..n]), n) && multiset(h[..n]) == multiset(h) - multiset{h[n]}
  {
    var n := |h| - 1;
    assert h == h[..n] + [h[n]];
    assert Expiries(h[..n]) == Expiries(h)[..n];
  }

  predicate Lists(m: multiset<PastDial>, id: NodeId) {
    exists e :: e in m && e.id == id
  }

  class History {
    var h: seq<PastDial>

    ghost predicate Valid()
      reads this
    {
      Ordered(Expiries(h), |h|)
    }

    constructor ()
      ensures Valid() && h == []
    {
      h := [];
    }

    method Swap(i: nat, j: nat)
      requires i < |h| && j < |h|
      modifies this
      ensures h == Exchange(old(h), i, j) && multiset(h) == multiset(old(h))
      ensures Expiries(h) == Exchange(Expiries(old(h)), i, j)
    {
      ExpiriesExchanged(h, i, j);
      h := h[i := h[j]][j := h[i]];
    }

    /** `up` of `container/heap`, within the first `n` slots. */
    method Up(start: nat, n: nat)
      requires start < n && |h| - 1 <= n <= |h| && OrderedAbove(Expiries(h), start, n)
      modifies this
      ensures multiset(h) == multiset(old(h)) && |h| == |old(h)|
      ensures n < |h| ==> h[n] == old(h)[n]
      ensures Ordered(Expiries(h), n)
    {
      var j: nat := start;
      while 0 < j && h[j].exp < h[(j - 1) / 2].exp
        invariant j < n <= |h| == |old(h)|
        invariant multiset(h) == multiset(old(h))
        invariant OrderedAbove(Expiries(h), j, n)
        invariant n < |h| ==> h[n] == old(h)[n]
      {
        SiftUpStep(Expiries(h), j, n);
        Swap((j - 1) / 2, j);
        j := (j - 1) / 2;
      }
      SettledAbove(Expiries(h), j, n);
    }

    method SmallerChild(i: nat, n: nat) returns (j: nat)
      requires n <= |h|
      ensures i < j && Parent(j) == i
      ensures j < n ==> (2 * i + 1 < n ==> h[j].exp <= h[2 * i + 1].exp) && (2 * i + 2 < n ==> h[j].exp <= h[2 * i + 2].exp)
      ensures n <= j ==> n <= 2 * i + 1
    {
      j := 2 * i + 1;
      if j + 1 < n && h[j + 1].exp < h[j].exp {
        j := j + 1;
      }
    }

    /** `down` of `container/heap`, within the first `n` slots. */
    method Down(start: nat, n: nat) returns (moved: bool)
      requires start < n && |h| - 1 <= n <= |h|
      requires OrderedAround(Expiries(h), start, n)
      modifies this
      ensures multiset(h) == multiset(old(h)) && |h| == |old(h)|
      ensures n < |h| ==> h[n] == old(h)[n]
      ensures moved ==> Ordered(Expiries(h), n)
      ensures !moved ==> h == old(h) && NoSmallerChild(Expiries(h), start, n)
    {
      var i := start;
      while true
        invariant start <= i < n <= |h| == |old(h)|
        invariant multiset(h) == multiset(old(h))
        invariant if i == start then h == old(h) else OrderedBelow(Expiries(h), i, n)
        invariant n < |h| ==> h[n] == old(h)[n]
        decreases n - i
      {
        var j := SmallerChild(i, n);
        if n <= j || h[i].exp <= h[j].exp {
          break;
        }
        SiftDownStep(Expiries(h), i, j, n);
        Swap(i, j);
        i := j;
      }
      moved := i > start;
      if moved {
        SettledBelow(Expiries(h), i, n);
      }
    }

    method Repair(i: nat, n: nat)
      requires i < n && |h| - 1 <= n <= |h|
      requires OrderedAround(Expiries(h), i, n)
      modifies this
      ensures multiset(h) == multiset(old(h)) && |h| == |old(h)|
      ensures n < |h| ==> h[n] == old(h)[n]
      ensures Ordered(Expiries(h), n)
    {
      var moved := Down(i, n);
      if !moved {
        UnmovedIsAbove(Expiries(h), i, n);
        Up(i, n);
      }
    }

    /** `heap.Remove`, of which `heap.Pop` is the case of slot 0. */
    method RemoveAt(i: nat)
      requires Valid() && i < |h|
      modifies this
      ensures Valid() && multiset(h) == multiset(old(h)) - multiset{old(h)[i]}
    {
      hide Ordered, OrderedAround, Exchange, Expiries;
      var n := |h| - 1;
      if i == n {
        OrderedPrefix(h);
      }
      if n != i {
        LastMovedTo(Expiries(h), i);
        MovedLast(h, i);
        Swap(i, n);
        Repair(i, n);
      }
      DropLast(h);
      h := h[..n];
    }

    method Add(id: NodeId, exp: Time)
      requires Valid()
      modifies this
      ensures Valid() && multiset(h) == multiset(old(h)) + multiset{PastDial(id, exp)}
    {
      var n := |h|;
      ghost var before := Expiries(h);
      h := h + [PastDial(id, exp)];
      assert Expiries(h) == before + [exp];
      Up(n, n + 1);
    }

    method Contains(id: NodeId) returns (found: bool)
      ensures found <==> Lists(multiset(h), id)
    {
      for i := 0 to |h|
        invariant forall j :: 0 <= j < i ==> h[j].id != id
      {
        if h[i].id == id {
          assert h[i] in multiset(h);
          return true;
        }
      }
      return false;
    }

    method Remove(id: NodeId) returns (found: bool)
      requires Valid()
      modifies this
      ensures Valid()
      ensures found <==> Lists(multiset(old(h)), id)
      ensures !found ==> h == old(h)
      ensures found ==> exists e :: e in old(h) && e.id == id && multiset(h) == multiset(old(h)) - multiset{e}
    {
      for i := 0 to |h|
        invariant h == old(h)
        invariant forall j :: 0 <= j < i ==> h[j].id != id
      {
        if h[i].id == id {
          assert h[i] in multiset(h);
          RemoveAt(i);
          return true;
        }
      }
      return false;
    }

    /** `expire`: exactly the dials that expired before `now` are gone, for the heap shows them first. */
    method Expire(now: Time)
      requires Valid()
      modifies this
      ensures Valid()
      ensures forall e: PastDial :: multiset(h)[e] == if e.exp < now then 0 else multiset(old(h))[e]
    {
      while |h| > 0 && h[0].exp < now
        invariant Valid()
        invariant forall e: PastDial :: multiset(h)[e] <= multiset(old(h))[e]
        invariant forall e: PastDial :: e.exp >= now ==> multiset(h)[e] == multiset(old(h))[e]
        decreases |multiset(h)|
      {
        RemoveAt(0);
      }
      forall e | e in multiset(h) ensures e.exp >= now {
        var i :| 0 <= i < |h| && h[i] == e;
        RootIsLeast(Expiries(h), i);
      }
    }

    /** `min`: the dial that expires first. */
    method Min() returns (e: PastDial)
      requires Valid() && |h| > 0
      ensures e in h && forall f :: f in h ==> e.exp <= f.exp
    {
      e := h[0];
      forall f | f in h ensures e.exp <= f.exp {
        var i :| 0 <= i < |h| && h[i] == f;
        RootIsLeast(Expiries(h), i);
      }
    }
  }
}
