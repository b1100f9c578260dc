/**
 The registrar's request queue: a heap of topics ordered by the request counter at their
 last request, in which every item records its own slot so that it can be found again.
 Each item belongs to exactly one tabled topic, so the topic stands for the item.
 */
module TopicQueue {
  import opened Heap

  type Topic = string

  /** Exact back-pointers: the recorded slots are a bijection between topics and slots. */
  ghost predicate Linked(items: seq<Topic>, priority: map<Topic, nat>, index: map<Topic, int>, keys: seq<int>) {
    && priority.Keys == index.Keys
    && |keys| == |items|
    && (forall i :: 0 <= i < |items| ==> items[i] in priority && keys[i] == priority[items[i]])
    && (forall i :: 0 <= i < |items| ==> items[i] in index && index[items[i]] == i)
    && (forall t :: t in index ==> 0 <= index[t] < |items| && items[index[t]] == t)
  }

  lemma DropLast(items: seq<Topic>, priority: map<Topic, nat>, index: map<Topic, int>, keys: seq<int>)
    requires Linked(items, priority, index, keys) && |items| > 0
    requires Ordered(keys, |items| - 1)
    ensures var n, t := |items| - 1, items[|items| - 1];
            Linked(items[..n], priority - {t}, index - {t}, keys[..n]) && Ordered(keys[..n], n)
  {
    var n, t := |items| - 1, items[|items| - 1];
    assert index[t] == n;
    assert forall i :: 0 <= i < n ==> index[items[i]] == i;
  }

  lemma LinkedWith(items: seq<Topic>, priority: map<Topic, nat>, index: map<Topic, int>, keys: seq<int>, t: Topic, prio: nat)
    requires Linked(items, priority, index, keys) && t !in index
    ensures Linked(items + [t], priority[t := prio], index[t := |items|], keys + [prio])
  {
    assert forall i :: 0 <= i < |items| ==> items[i] in index && items[i] != t;
  }

  lemma OrderedPrefix(keys: seq<int>)
    requires |keys| > 0 && Ordered(keys, |keys|)
    ensures Ordered(keys, |keys| - 1)
  {
  }

  lemma MovedLast(items: seq<Topic>, i: nat)
    requires i < |items|
    ensures Exchange(items, i, |items| - 1)[|items| - 1] == items[i]
  {
  }

  class RequestQueue {
    var items: seq<Topic>
    var priority: map<Topic, nat>
    var index: map<Topic, int>
    ghost var keys: seq<int>  // the priorities, slot by slot

    ghost predicate IsLinked()
      reads this
    {
      Linked(items, priority, index, keys)
    }

    ghost predicate Valid()
      reads this
    {
      IsLinked() && Ordered(keys, |items|)
    }

    constructor ()
      ensures Valid() && items == [] && index == map[]
    {
      items, priority, index, keys := [], map[], map[], [];
    }

    method Swap(i: nat, j: nat)
      requires IsLinked() && i < |items| && j < |items|
      modifies this`items, this`index, this`keys
      ensures IsLinked() && index.Keys == old(index.Keys)
      ensures items == Exchange(old(items), i, j)
      ensures keys == Exchange(old(keys), i, j)
    {
      items := items[i := items[j]][j := items[i]];
      index := index[items[i] := i][items[j] := j];
      keys := Exchange(keys, i, j);
    }

    /** `up` of `container/heap`, within the first `n` slots. */
    method Up(start: nat, n: nat)
      requires IsLinked() && start < n && |items| - 1 <= n <= |items| && OrderedAbove(keys, start, n)
      modifies this`items, this`index, this`keys
      ensures IsLinked() && index.Keys == old(index.Keys) && |items| == old(|items|)
      ensures n < |items| ==> items[n] == old(items[n])
      ensures Ordered(keys, n)
      ensures start == 0 || old(keys[Parent(start)] <= keys[start]) ==> items == old(items)
    {
      hide Linked, OrderedAbove, Ordered;
      LinkedSizes();
      var j: nat := start;
      while true
        invariant j < n <= |items| == |keys| == old(|items|)
        invariant IsLinked() && index.Keys == old(index.Keys)
        invariant OrderedAbove(keys, j, n)
        invariant start == 0 || old(keys[Parent(start)] <= keys[start]) ==> j == start && items == old(items) && keys == old(keys)
        invariant n < |items| ==> items[n] == old(items[n])
        decreases j
      {
        KeyAt(j);
        if j == 0 {
          break;
        }
        KeyAt((j - 1) / 2);
        if priority[items[j]] >= priority[items[(j - 1) / 2]] {
          break;
        }
        SiftUpStep(keys, j, n);
        Swap((j - 1) / 2, j);
        j := (j - 1) / 2;
      }
      SettledAbove(keys, j, n);
    }

    lemma KeyAt(i: nat)
      requires IsLinked() && i < |items|
      ensures items[i] in priority && items[i] in index && |keys| == |items| && keys[i] == priority[items[i]]
    {
    }

    /** The slot that `down` compares slot `i` with: the smaller of its children, if it has any. */
    method SmallerChild(i: nat, n: nat) returns (j: nat)
      requires IsLinked() && n <= |items|
      ensures i < j && Parent(j) == i && |keys| == |items|
      ensures j < n ==> (2 * i + 1 < n ==> keys[j] <= keys[2 * i + 1]) && (2 * i + 2 < n ==> keys[j] <= keys[2 * i + 2])
      ensures n <= j ==> n <= 2 * i + 1
    {
      j := 2 * i + 1;
      if j + 1 < n && priority[items[j + 1]] < priority[items[j]] {
        j := j + 1;
      }
    }

    /** `down` of `container/heap`, within the first `n` slots. */
    method Down(start: nat, n: nat) returns (moved: bool)
      requires IsLinked() && start < n && |items| - 1 <= n <= |items|
      requires OrderedAround(keys, start, n)
      modifies this`items, this`index, this`keys
      ensures IsLinked() && index.Keys == old(index.Keys) && |items| == old(|items|)
      ensures n < |items| ==> items[n] == old(items[n])
      ensures moved ==> Ordered(keys, n)
      ensures !moved ==> keys == old(keys) && NoSmallerChild(keys, start, n)
    {
      hide Linked, OrderedAbove, OrderedBelow, Ordered;
      LinkedSizes();
      var i := start;
      while true
        invariant start <= i < n <= |items| == |keys| == old(|items|)
        invariant IsLinked() && index.Keys == old(index.Keys)
        invariant OrderedAround(keys, i, n) && if i == start then keys == old(keys) else OrderedBelow(keys, i, n)
        invariant n < |items| ==> items[n] == old(items[n])
        decreases n - i
      {
        var j := SmallerChild(i, n);
        if n <= j {
          break;
        }
        KeyAt(i);
        KeyAt(j);
        if priority[items[i]] <= priority[items[j]] {
          break;
        }
        SiftDownStep(keys, i, j, n);
        Swap(i, j);
        i := j;
      }
      moved := i > start;
      if moved {
        SettledBelow(keys, i, n);
      }
    }

    /** `if !down(i, n) { up(i) }`: repairs the first `n` slots after slot `i` was changed. */
    method Repair(i: nat, n: nat)
      requires IsLinked() && i < n && |items| - 1 <= n <= |items|
      requires OrderedAround(keys, i, n)
      modifies this`items, this`index, this`keys
      ensures IsLinked() && index.Keys == old(index.Keys) && |items| == old(|items|)
      ensures n < |items| ==> items[n] == old(items[n])
      ensures Ordered(keys, n)
    {
      var moved := Down(i, n);
      if !moved {
        UnmovedIsAbove(keys, i, n);
        Up(i, n);
      }
    }

    /** `heap.Push` */
    method Push(topic: Topic, prio: nat)
      requires Valid() && topic !in index
      modifies this
      ensures Valid() && index.Keys == old(index.Keys) + {topic}
      ensures priority == old(priority)[topic := prio]
      ensures (forall t :: t in old(priority) ==> old(priority[t]) <= prio) ==> items == old(items) + [topic]
    {
      hide Linked, Ordered, OrderedAbove;
      LinkedSizes();
      var n := |items|;
      if n > 0 {
        KeyAt(Parent(n));
      }
      LinkedWith(items, priority, index, keys, topic, prio);
      Appended(keys, prio);
      items, priority, index := items + [topic], priority[topic := prio], index[topic := n];
      keys := keys + [prio];
      Up(n, n + 1);
    }

    /** `Pop` of the heap interface: drops the last slot. */
    method TakeLast() returns (topic: Topic)
      requires IsLinked() && |items| > 0 && Ordered(keys, |items| - 1)
      modifies this
      ensures topic == old(items[|items| - 1])
      ensures Valid() && index.Keys == old(index.Keys) - {topic} && priority == old(priority) - {topic}
    {
      var n := |items| - 1;
      topic := items[n];
      DropLast(items, priority, index, keys);
      items, priority, index, keys := items[..n], priority - {topic}, index - {topic}, keys[..n];
    }

    /** `heap.Remove`, of which `heap.Pop` is the case of slot 0. */
    method RemoveAt(i: nat) returns (topic: Topic)
      requires Valid() && i < |items|
      modifies this
      ensures topic == old(items[i])
      ensures Valid() && index.Keys == old(index.Keys) - {topic}
      ensures priority == old(priority) - {topic}
    {
      hide Linked, Ordered, OrderedAround, Exchange;
      LinkedSizes();
      var n := |items| - 1;
      OrderedPrefix(keys);
      if n != i {
        LastMovedTo(keys, i);
        MovedLast(items, i);
        Swap(i, n);
        Repair(i, n);
      }
      topic := TakeLast();
    }

    lemma LinkedSizes()
      requires IsLinked()
      ensures |keys| == |items|
    {
    }

    /** `heap.Remove` at the slot that the topic's own item records. */
    method Remove(topic: Topic)
      requires Valid() && topic in index
      modifies this
      ensures Valid() && index.Keys == old(index.Keys) - {topic}
      ensures priority == old(priority) - {topic}
    {
      var _ := RemoveAt(index[topic]);
    }

    /** The requests-seen counter of a topic moved on: store it and restore the heap. */
    method Update(topic: Topic, prio: nat)
      requires Valid() && topic in index
      modifies this
      ensures Valid() && index.Keys == old(index.Keys)
      ensures priority == old(priority)[topic := prio]
    {
      ghost var p := keys;
      priority := priority[topic := prio];
      var i := index[topic];
      keys := p[i := prio];
      ChangedAt(p, i, prio, |items|);
      Repair(i, |items|);
    }

    /** The head of the queue is a least-requested topic. */
    lemma HeadIsLeastRequested(t: Topic)
      requires Valid() && t in index
      ensures |items| > 0 && items[0] in index && items[0] in priority && t in priority
      ensures priority[items[0]] <= priority[t]
    {
      RootIsLeast(keys, index[t]);
    }
  }
}
