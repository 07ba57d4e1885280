/**
 * The `queue` adapter of queue.h over its default container, a `deque`: every
 * member forwards to one container operation; elements join at the back and
 * leave from the front.
 */
module Queue {
  import Deque
  import Lexicographic

  datatype Queue = Queue(con: Deque.Deque)

  predicate Valid(q: Queue)
  {
    Deque.Valid(q.con)
  }

  /** The elements, front to back. */
  function Elems(q: Queue): seq<int>
    requires Valid(q)
  {
    Deque.Elems(q.con)
  }

  /** A queue over a fresh `deque` with buffers of `b` elements. */
  function New(b: nat): (q: Queue)
    requires b >= 1
    ensures Valid(q) && Elems(q) == []
  {
    Queue(Deque.EmptyDeque(b))
  }

  /** `empty()` is `con.empty()`. */
  function Empty(q: Queue): (e: bool)
    requires Valid(q)
    ensures e <==> Elems(q) == []
  {
    Deque.IsEmpty(q.con)
  }

  /** `size()` is `con.size()`. */
  function Size(q: Queue): (n: int)
    requires Valid(q)
    ensures n == |Elems(q)|
  {
    Deque.Size(q.con)
  }

  /** `front()` is `con.front()`: the oldest element still there. */
  function Front(q: Queue): (x: int)
    requires Valid(q) && Elems(q) != []
    ensures x == Elems(q)[0]
  {
    Deque.Front(q.con)
  }

  /** `back()` is `con.back()`: the newest element. */
  function Back(q: Queue): (x: int)
    requires Valid(q) && Elems(q) != []
    ensures x == Elems(q)[|Elems(q)| - 1]
  {
    Deque.Back(q.con)
  }

  /** `push(v)` is `con.push_back(v)`. */
  function Push(q: Queue, v: int): (r: Queue)
    requires Valid(q)
    ensures Valid(r) && Elems(r) == Elems(q) + [v]
  {
    Queue(Deque.PushBack(q.con, v))
  }

  /** `pop()` is `con.pop_front()`. */
  function Pop(q: Queue): (r: Queue)
    requires Valid(q) && Elems(q) != []
    ensures Valid(r) && Elems(r) == Elems(q)[1..]
  {
    Queue(Deque.PopFront(q.con))
  }

  /** After `push(v)`, `back()` is `v`, and `front()` is unchanged unless the queue was empty. */
  lemma PushThenBack(q: Queue, v: int)
    requires Valid(q)
    ensures Back(Push(q, v)) == v
    ensures Front(Push(q, v)) == if Elems(q) == [] then v else Front(q)
  {
  }

  /**
   * First in, first out: on a queue that is not empty, `push` then `pop` leaves
   * what `pop` then `push` leaves.
   */
  lemma PushPopCommute(q: Queue, v: int)
    requires Valid(q) && Elems(q) != []
    ensures Elems(Pop(Push(q, v))) == Elems(Push(Pop(q), v))
  {
    assert (Elems(q) + [v])[1..] == Elems(q)[1..] + [v];
  }

  /**
   * A fresh `queue<int>` (whatever its buffer size; 128 elements for 4-byte `int`s) is empty;
   * after `push(1)` its size is 1; after `push(2)` and `push(3)` its front is 1
   * and its back 3, and after `pop()` its front is 2.
   */
  lemma Scenario(b: nat)
    requires b >= 1
    ensures var q0 := New(b);
      var q1 := Push(q0, 1);
      var q3 := Push(Push(q1, 2), 3);
      && Empty(q0) && Size(q1) == 1 && Front(q3) == 1 && Back(q3) == 3 && Front(Pop(q3)) == 2
  {
    var q0 := New(b);
    var q1 := Push(q0, 1);
    assert Elems(q1) == [1];
    var q2 := Push(q1, 2);
    assert Elems(q2) == [1, 2];
    var q3 := Push(q2, 3);
    assert Elems(q3) == [1, 2, 3];
    var q4 := Pop(q3);
    assert Elems(q4) == [2, 3];
  }

  // The comparisons compare the containers: element-wise `==` and lexicographic `<`.

  /** `lhs == rhs` is `lhs.con == rhs.con`. */
  function Equal(a: Queue, b: Queue): (r: bool)
    requires Valid(a) && Valid(b)
    ensures r <==> Elems(a) == Elems(b)
  {
    Lexicographic.EqualIsSame(Elems(a), Elems(b));
    Lexicographic.Equal(Elems(a), Elems(b))
  }

  /** `lhs != rhs` is `!(rhs == lhs)`. */
  function NotEqual(a: Queue, b: Queue): (r: bool)
    requires Valid(a) && Valid(b)
    ensures r <==> Elems(a) != Elems(b)
  {
    !Equal(b, a)
  }

  /** `lhs < rhs` is `lhs.con < rhs.con`. */
  function Less(a: Queue, b: Queue): (r: bool)
    requires Valid(a) && Valid(b)
    ensures r ==> Elems(a) != Elems(b)
    ensures r <==> !Lexicographic.LessEq(Elems(b), Elems(a))
  {
    Lexicographic.Trichotomy(Elems(a), Elems(b));
    Lexicographic.Less(Elems(a), Elems(b))
  }

  /** `lhs > rhs` is `rhs < lhs`. */
  function Greater(a: Queue, b: Queue): (r: bool)
    requires Valid(a) && Valid(b)
    ensures r <==> !(Less(a, b) || Elems(a) == Elems(b))
  {
    Lexicographic.Trichotomy(Elems(a), Elems(b));
    Less(b, a)
  }

  /** `lhs <= rhs` is `!(rhs < lhs)`. */
  function LessEq(a: Queue, b: Queue): (r: bool)
    requires Valid(a) && Valid(b)
    ensures r <==> Less(a, b) || Elems(a) == Elems(b)
  {
    Lexicographic.Trichotomy(Elems(a), Elems(b));
    !Less(b, a)
  }

  /** `lhs >= rhs` is `!(lhs < rhs)`. */
  function GreaterEq(a: Queue, b: Queue): (r: bool)
    requires Valid(a) && Valid(b)
    ensures r <==> Less(b, a) || Elems(a) == Elems(b)
  {
    Lexicographic.Trichotomy(Elems(a), Elems(b));
    !Less(a, b)
  }
}
