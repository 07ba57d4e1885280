/**
 * The `priority_queue` adaptor of priority_queue.h: a container kept as a max-heap
 * with the heap.h algorithms.  The container is modelled by its elements, front
 * first; what matters about it here is only its sequence of values.
 */
module PriorityQueue {
  import Heap

  datatype PQueue = PQueue(con: seq<int>)

  /** The adaptor's invariant: the whole container is a max-heap. */
  ghost predicate Valid(q: PQueue)
  {
    Heap.IsHeap(q.con, |q.con|)
  }

  /** Whether `a` and `b` agree on their first `n` elements. */
  ghost predicate SamePrefix(a: seq<int>, b: seq<int>, n: nat)
  {
    n <= |a| && n <= |b| && forall i :: 0 <= i < n ==> a[i] == b[i]
  }

  /** The heap property of a prefix depends only on that prefix. */
  lemma HeapOfSamePrefix(a: seq<int>, b: seq<int>, n: nat)
    requires SamePrefix(a, b, n)
    requires Heap.IsHeap(a, n)
    ensures Heap.IsHeap(b, n)
  {
    forall j | 0 < j < n
      ensures b[Heap.Parent(j)] >= b[j]
    {
      assert a[Heap.Parent(j)] >= a[j];
    }
  }

  /** The default constructor: an empty container is trivially a heap. */
  function EmptyQueue(): (q: PQueue)
    ensures Valid(q) && Size(q) == 0 && IsEmpty(q)
  {
    PQueue([])
  }

  /** `size()`: the number of stored elements. */
  function Size(q: PQueue): (n: nat)
    ensures n == |multiset(q.con)|
  {
    |q.con|
  }

  /** `empty()`: whether no element is stored. */
  function IsEmpty(q: PQueue): (b: bool)
    ensures b <==> multiset(q.con) == multiset{}
  {
    |q.con| == 0
  }

  /** The root of a valid queue dominates every stored element. */
  lemma RootDominates(q: PQueue)
    requires |q.con| > 0
    ensures Valid(q) ==> forall x | x in q.con :: x <= q.con[0]
  {
    if Valid(q) {
      forall x | x in q.con
        ensures x <= q.con[0]
      {
        var i :| 0 <= i < |q.con| && q.con[i] == x;
        Heap.RootIsMax(q.con, |q.con|, i);
      }
    }
  }

  /** `top()`: the front of the container, which is a largest stored element. */
  function Top(q: PQueue): (t: int)
    requires |q.con| > 0
    ensures t in multiset(q.con)
    ensures Valid(q) ==> forall x | x in q.con :: x <= t
  {
    RootDominates(q);
    q.con[0]
  }

  /** The range constructor: copy the input, then `make_heap` over it. */
  method FromRange(s: seq<int>) returns (q: PQueue)
    ensures Valid(q)
    ensures multiset(q.con) == multiset(s)
    ensures Size(q) == |s|
    ensures |s| > 0 ==> forall x | x in s :: x <= Top(q)
  {
    var c := Heap.MakeHeap(s);
    q := PQueue(c);
    if |s| > 0 {
      forall x | x in s
        ensures x <= Top(q)
      {
        assert x in multiset(s);
        assert x in q.con;
      }
    }
  }

  /** `push(v)`: append `v` to the container, then `push_heap` over the whole of it. */
  method Push(q: PQueue, v: int) returns (q': PQueue)
    requires Valid(q)
    ensures Valid(q')
    ensures multiset(q'.con) == multiset(q.con) + multiset{v}
    ensures Size(q') == Size(q) + 1
  {
    var c := q.con + [v];
    HeapOfSamePrefix(q.con, c, |q.con|);
    c := Heap.PushHeap(c, |c|);
    q' := PQueue(c);
  }

  /**
   * `pop()`: `pop_heap` moves the maximum to the back, which `pop_back` then
   * removes: exactly one occurrence of the maximum leaves the queue.
   */
  method Pop(q: PQueue) returns (q': PQueue)
    requires Valid(q) && !IsEmpty(q)
    ensures Valid(q')
    ensures multiset(q'.con) == multiset(q.con) - multiset{Top(q)}
    ensures Size(q') == Size(q) - 1
  {
    var n := |q.con|;
    var c := Heap.PopHeap(q.con, n);
    q' := PQueue(c[..n - 1]);
    HeapOfSamePrefix(c, q'.con, n - 1);
    assert c == c[..n - 1] + [c[n - 1]];
  }

  /** Every element of `s` is at most `b`. */
  ghost predicate AllAtMost(s: seq<int>, b: int)
  {
    forall i :: 0 <= i < |s| ==> s[i] <= b
  }

  /** A valid queue containing a bound on its elements has that bound on top. */
  lemma TopIsBound(q: PQueue, b: int)
    requires Valid(q) && b in q.con && AllAtMost(q.con, b)
    ensures Top(q) == b
  {
    var i :| 0 <= i < |q.con| && q.con[i] == Top(q);
  }

  /** Adding `v` to a collection bounded by `b`, with `v <= b`, keeps the bound and contains `v`. */
  lemma AddKeepsBound(s: seq<int>, t: seq<int>, v: int, b: int)
    requires multiset(t) == multiset(s) + multiset{v}
    requires AllAtMost(s, b) && v <= b
    ensures AllAtMost(t, b) && v in t
    ensures forall x | x in s :: x in t
  {
    assert v in multiset(t);
    forall i | 0 <= i < |t|
      ensures t[i] <= b
    {
      assert t[i] in multiset(t);
      if t[i] != v {
        assert t[i] in multiset(s);
        var j :| 0 <= j < |s| && s[j] == t[i];
      }
    }
    forall x | x in s
      ensures x in t
    {
      assert x in multiset(s);
      assert x in multiset(t);
    }
  }

  /** Sequences with the same elements share their bounds. */
  lemma SameElementsBound(s: seq<int>, t: seq<int>, b: int)
    requires multiset(t) == multiset(s) && AllAtMost(s, b)
    ensures AllAtMost(t, b)
  {
    forall i | 0 <= i < |t|
      ensures t[i] <= b
    {
      assert t[i] in multiset(s);
      var j :| 0 <= j < |s| && s[j] == t[i];
    }
  }

  /**
   * The scenario of test/test_priority_queue.h:18-31: from {1, 2, 3, 4, 5} the top is 5; pushing 1 gives
   * size 6; pushing 7 and 6 puts 7 on top; one pop leaves 6 on top.
   */
  method Scenario() returns (empty0: bool, top0: int, size1: nat, top2: int, top3: int)
    ensures !empty0 && top0 == 5 && size1 == 6 && top2 == 7 && top3 == 6
  {
    var q0 := FromRange([1, 2, 3, 4, 5]);
    empty0 := IsEmpty(q0);
    SameElementsBound([1, 2, 3, 4, 5], q0.con, 5);
    assert 5 in multiset([1, 2, 3, 4, 5]);
    TopIsBound(q0, 5);
    top0 := Top(q0);

    var q1 := Push(q0, 1);
    size1 := Size(q1);
    AddKeepsBound(q0.con, q1.con, 1, 5);

    var q2 := Push(q1, 7);
    assert AllAtMost(q1.con, 7);
    AddKeepsBound(q1.con, q2.con, 7, 7);
    var q3 := Push(q2, 6);
    AddKeepsBound(q2.con, q3.con, 6, 7);
    TopIsBound(q3, 7);
    top2 := Top(q3);

    var q4 := Pop(q3);
    assert multiset(q4.con) == multiset(q1.con) + multiset{6};
    assert AllAtMost(q1.con, 6);
    AddKeepsBound(q1.con, q4.con, 6, 6);
    TopIsBound(q4, 6);
    top3 := Top(q4);
  }
}
