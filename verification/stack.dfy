/**
 * The `stack` adapter of stack.h over its default container, a `deque`: every
 * member forwards to one container operation, with the top of the stack at the
 * container's back.
 */
module Stack {
  import Deque
  import Lexicographic

  datatype Stack = Stack(con: Deque.Deque)

  predicate Valid(s: Stack)
  {
    Deque.Valid(s.con)
  }

  /** The elements, bottom to top. */
  function Elems(s: Stack): seq<int>
    requires Valid(s)
  {
    Deque.Elems(s.con)
  }

  /** A stack over a fresh `deque` with buffers of `b` elements. */
  function New(b: nat): (s: Stack)
    requires b >= 1
    ensures Valid(s) && Elems(s) == []
  {
    Stack(Deque.EmptyDeque(b))
  }

  /** `top()` is `con.back()`: the most recently pushed element still there. */
  function Top(s: Stack): (x: int)
    requires Valid(s) && Elems(s) != []
    ensures x == Elems(s)[|Elems(s)| - 1]
  {
    Deque.Back(s.con)
  }

  /** `empty()` is `con.empty()`. */
  function Empty(s: Stack): (e: bool)
    requires Valid(s)
    ensures e <==> Elems(s) == []
  {
    Deque.IsEmpty(s.con)
  }

  /** `size()` is `con.size()`. */
  function Size(s: Stack): (n: int)
    requires Valid(s)
    ensures n == |Elems(s)|
  {
    Deque.Size(s.con)
  }

  /** `push(v)` is `con.push_back(v)`. */
  function Push(s: Stack, v: int): (r: Stack)
    requires Valid(s)
    ensures Valid(r) && Elems(r) == Elems(s) + [v]
  {
    Stack(Deque.PushBack(s.con, v))
  }

  /** `pop()` is `con.pop_back()`. */
  function Pop(s: Stack): (r: Stack)
    requires Valid(s) && Elems(s) != []
    ensures Valid(r) && Elems(r) == Elems(s)[..|Elems(s)| - 1]
  {
    Stack(Deque.PopBack(s.con))
  }

  /** After `push(v)`, `top()` is `v`. */
  lemma PushThenTop(s: Stack, v: int)
    requires Valid(s)
    ensures Top(Push(s, v)) == v
  {
  }

  /** `pop()` undoes `push(v)`: last in, first out. */
  lemma PushThenPop(s: Stack, v: int)
    requires Valid(s)
    ensures Elems(Pop(Push(s, v))) == Elems(s)
    ensures Size(Pop(Push(s, v))) == Size(s)
  {
    assert (Elems(s) + [v])[..|Elems(s)|] == Elems(s);
  }

  /**
   * A fresh `stack<int>` (whatever its buffer size; 128 elements for 4-byte `int`s) is empty;
   * after `push(1)` its size is 1; after `push(2)` and `push(3)` its top is 3,
   * and after `pop()` its top is 2.
   */
  lemma Scenario(b: nat)
    requires b >= 1
    ensures var s0 := New(b);
      var s1 := Push(s0, 1);
      var s3 := Push(Push(s1, 2), 3);
      && Empty(s0) && Size(s1) == 1 && Top(s3) == 3 && Top(Pop(s3)) == 2
  {
    var s0 := New(b);
    var s1 := Push(s0, 1);
    assert Elems(s1) == [1];
    var s2 := Push(s1, 2);
    assert Elems(s2) == [1, 2];
    var s3 := Push(s2, 3);
    assert Elems(s3) == [1, 2, 3];
    var s4 := Pop(s3);
    assert Elems(s4) == [1, 2];
  }

  // The comparisons compare the containers: element-wise `==` and lexicographic `<`.

  /** `lhs == rhs` is `lhs.con == rhs.con`. */
  function Equal(a: Stack, b: Stack): (r: bool)
    requires Valid(a) && Valid(b)
    ensures r <==> Elems(a) == Elems(b)
  {
    Lexicographic.EqualIsSame(Elems(a), Elems(b));
    Lexicographic.Equal(Elems(a), Elems(b))
  }

  /** `lhs != rhs` is `!(rhs == lhs)`. */
  function NotEqual(a: Stack, b: Stack): (r: bool)
    requires Valid(a) && Valid(b)
    ensures r <==> Elems(a) != Elems(b)
  {
    !Equal(b, a)
  }

  /** `lhs < rhs` is `lhs.con < rhs.con`. */
  function Less(a: Stack, b: Stack): (r: bool)
    requires Valid(a) && Valid(b)
    ensures r ==> Elems(a) != Elems(b)
    ensures r <==> !Lexicographic.LessEq(Elems(b), Elems(a))
  {
    Lexicographic.Trichotomy(Elems(a), Elems(b));
    Lexicographic.Less(Elems(a), Elems(b))
  }

  /** `lhs > rhs` is `rhs < lhs`. */
  function Greater(a: Stack, b: Stack): (r: bool)
    requires Valid(a) && Valid(b)
    ensures r <==> !(Less(a, b) || Elems(a) == Elems(b))
  {
    Lexicographic.Trichotomy(Elems(a), Elems(b));
    Less(b, a)
  }

  /** `lhs <= rhs` is `!(rhs < lhs)`. */
  function LessEq(a: Stack, b: Stack): (r: bool)
    requires Valid(a) && Valid(b)
    ensures r <==> Less(a, b) || Elems(a) == Elems(b)
  {
    Lexicographic.Trichotomy(Elems(a), Elems(b));
    !Less(b, a)
  }

  /** `lhs >= rhs` is `!(lhs < rhs)`. */
  function GreaterEq(a: Stack, b: Stack): (r: bool)
    requires Valid(a) && Valid(b)
    ensures r <==> Less(b, a) || Elems(a) == Elems(b)
  {
    Lexicographic.Trichotomy(Elems(a), Elems(b));
    !Less(a, b)
  }
}
