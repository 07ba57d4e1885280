/**
 * The `vector` of vector.h.  The three pointers `start`, `finish` and
 * `end_of_storage` become a buffer whose length is the capacity and the index of
 * `finish` in it; the elements are the buffer's first `finish` slots, and the
 * slots after them are raw storage.  Allocation and release through the pool are
 * not modelled here (the pool has its own model); a reallocation is a fresh
 * buffer.
 */
module Vector {
  import opened SeqAlgorithms

  datatype Vector = Vector(buf: seq<int>, finish: nat)

  /** `start <= finish <= end_of_storage`. */
  predicate Valid(v: Vector)
  {
    v.finish <= |v.buf|
  }

  /** The abstraction function: the elements in `[start, finish)`. */
  function Elems(v: Vector): (s: seq<int>)
    requires Valid(v)
    ensures |s| == v.finish
  {
    v.buf[..v.finish]
  }

  /** `size()`: `finish - start`. */
  function Size(v: Vector): (n: nat)
    requires Valid(v)
    ensures n == |Elems(v)| && n <= Capacity(v)
  {
    v.finish
  }

  /** `capacity()`: `end_of_storage - start`, the elements plus the raw slots after them. */
  function Capacity(v: Vector): (c: nat)
    ensures Valid(v) ==> c == |Elems(v)| + |v.buf[v.finish..]|
  {
    |v.buf|
  }

  /** `empty()`: `start == finish`. */
  function IsEmpty(v: Vector): (b: bool)
    requires Valid(v)
    ensures b <==> Elems(v) == []
  {
    v.finish == 0
  }

  // ---- reference definitions ----

  /** `s` with `n` copies of `x` inserted before index `i`. */
  function InsertSpec(s: seq<int>, i: nat, n: nat, x: int): seq<int>
    requires i <= |s|
  {
    s[..i] + Repeat(x, n) + s[i..]
  }

  /** `s` without the elements at indices `[f, l)`. */
  function EraseSpec(s: seq<int>, f: nat, l: nat): seq<int>
    requires f <= l <= |s|
  {
    s[..f] + s[l..]
  }

  /** Erasing what was just inserted gives the original sequence back. */
  lemma EraseUndoesInsert(s: seq<int>, i: nat, n: nat, x: int)
    requires i <= |s|
    ensures |InsertSpec(s, i, n, x)| == |s| + n
    ensures EraseSpec(InsertSpec(s, i, n, x), i, i + n) == s
  {
    var t := InsertSpec(s, i, n, x);
    assert t[..i] == s[..i];
    assert t[i + n..] == s[i..];
  }

  /** Inserting zero elements changes nothing. */
  lemma InsertNothing(s: seq<int>, i: nat, x: int)
    requires i <= |s|
    ensures InsertSpec(s, i, 0, x) == s
  {
    assert s[..i] + s[i..] == s;
  }

  /** Pointwise description of an insertion, for the buffer-level proofs. */
  lemma InsertSpecAt(s: seq<int>, i: nat, n: nat, x: int)
    requires i <= |s|
    ensures |InsertSpec(s, i, n, x)| == |s| + n
    ensures forall k :: 0 <= k < i ==> InsertSpec(s, i, n, x)[k] == s[k]
    ensures forall k :: i <= k < i + n ==> InsertSpec(s, i, n, x)[k] == x
    ensures forall k :: i + n <= k < |s| + n ==> InsertSpec(s, i, n, x)[k] == s[k - n]
  {
  }

  // ---- construction ----

  /** The default constructor: no storage at all. */
  function EmptyVector(): (v: Vector)
    ensures Valid(v) && Elems(v) == [] && Capacity(v) == 0
  {
    Vector([], 0)
  }

  /** `fill_initialize(n, x)`: exactly `n` slots, all holding `x`. */
  method FillInitialize(n: nat, x: int) returns (v: Vector)
    ensures Valid(v)
    ensures Elems(v) == Repeat(x, n)
    ensures Size(v) == Capacity(v) == n
  {
    var b := Fill(Raw(n), 0, n, x);
    v := Vector(b, n);
    assert Elems(v) == Repeat(x, n);
  }

  // ---- erasure ----

  /** `erase(first, last)`: the tail moves down over the range; returns `first`. */
  method EraseRange(v: Vector, f: nat, l: nat) returns (r: Vector, ret: nat)
    requires Valid(v) && f <= l <= Size(v)
    ensures Valid(r) && Capacity(r) == Capacity(v)
    ensures Elems(r) == EraseSpec(Elems(v), f, l)
    ensures Size(r) == Size(v) - (l - f)
    ensures ret == f
  {
    var b, newFinish := Copy(v.buf, l, v.finish, f);
    r := Vector(b, newFinish);
    ret := f;
    forall k | 0 <= k < newFinish
      ensures Elems(r)[k] == EraseSpec(Elems(v), f, l)[k]
    {
      if k >= f {
        assert b[k] == v.buf[l + (k - f)];
      }
    }
  }

  /** `erase(pos)`: the elements after `pos` move down by one; returns `pos`. */
  method Erase(v: Vector, pos: nat) returns (r: Vector, ret: nat)
    requires Valid(v) && pos < Size(v)
    ensures Valid(r) && Capacity(r) == Capacity(v)
    ensures Elems(r) == EraseSpec(Elems(v), pos, pos + 1)
    ensures Size(r) == Size(v) - 1
    ensures ret == pos
  {
    var b := v.buf;
    if pos != v.finish - 1 {
      var end;
      b, end := Copy(v.buf, pos + 1, v.finish, pos);
    }
    r := Vector(b, v.finish - 1);
    ret := pos;
    forall k | 0 <= k < v.finish - 1
      ensures Elems(r)[k] == EraseSpec(Elems(v), pos, pos + 1)[k]
    {
      if k >= pos {
        assert b[k] == v.buf[k + 1];
      }
    }
  }

  /** `pop_back()`: `finish` steps back over the last element. */
  function PopBack(v: Vector): (r: Vector)
    requires Valid(v) && Size(v) > 0
    ensures Valid(r) && Capacity(r) == Capacity(v)
    ensures Elems(r) + [Elems(v)[Size(v) - 1]] == Elems(v)
  {
    Vector(v.buf, v.finish - 1)
  }

  // ---- growth policy ----

  /** The new capacity `insert` and `insert_aux` ask for, as written: 10 when empty, else twice the size. */
  function GrowthAsWritten(oldSize: nat): nat
  {
    if oldSize == 0 then 10 else 2 * oldSize
  }

  /** The as-written capacity holds `n` more elements exactly when `n` is at most 10 (empty) or the old size. */
  lemma GrowthAsWrittenCovers(oldSize: nat, n: nat)
    ensures GrowthAsWritten(oldSize) >= oldSize + n <==> (if oldSize == 0 then n <= 10 else n <= oldSize)
  {
  }


  /** The corrected policy: the as-written capacity, raised to `oldSize + n` when that is not enough. */
  function Growth(oldSize: nat, n: nat): (c: nat)
    ensures c >= oldSize + n
    ensures GrowthAsWritten(oldSize) >= oldSize + n ==> c == GrowthAsWritten(oldSize)
  {
    var grown := GrowthAsWritten(oldSize);
    if grown < oldSize + n then oldSize + n else grown
  }

  // ---- insertion ----

  /** The in-place path of `insert(pos, n, x)` when more elements follow `pos` than are inserted. */
  method InsertShiftMany(buf: seq<int>, fin: nat, i: nat, n: nat, x: int) returns (b: seq<int>)
    requires i + n < fin && fin + n <= |buf|
    ensures |b| == |buf|
    ensures b[..fin + n] == InsertSpec(buf[..fin], i, n, x)
  {
    var b1, _ := Copy(buf, fin - n, fin, fin);
    var b2 := CopyBackward(b1, i, fin - n, fin);
    b := Fill(b2, i, i + n, x);
    InsertSpecAt(buf[..fin], i, n, x);
    forall k | 0 <= k < fin + n
      ensures b[k] == InsertSpec(buf[..fin], i, n, x)[k]
    {
      if i + n <= k < fin {
        assert b2[k] == b1[k - n];
      } else if fin <= k {
        assert b1[k] == buf[k - n];
      }
    }
  }

  /** The in-place path of `insert(pos, n, x)` when at most `n` elements follow `pos`. */
  method InsertShiftFew(buf: seq<int>, fin: nat, i: nat, n: nat, x: int) returns (b: seq<int>)
    requires i <= fin <= i + n && fin + n <= |buf|
    ensures |b| == |buf|
    ensures b[..fin + n] == InsertSpec(buf[..fin], i, n, x)
  {
    var b1 := Fill(buf, fin, i + n, x);
    var b2, _ := Copy(b1, i, fin, i + n);
    b := Fill(b2, i, i + n, x);
    InsertSpecAt(buf[..fin], i, n, x);
    forall k | 0 <= k < fin + n
      ensures b[k] == InsertSpec(buf[..fin], i, n, x)[k]
    {
      if i + n <= k {
        assert b2[k] == b1[k - n];
      }
    }
  }

  /** The reallocating path of `insert(pos, n, x)` into a fresh buffer of `cap` slots. */
  method InsertRealloc(buf: seq<int>, fin: nat, i: nat, n: nat, x: int, cap: nat) returns (b: seq<int>)
    requires i <= fin <= |buf| && fin + n <= cap
    ensures |b| == cap
    ensures b[..fin + n] == InsertSpec(buf[..fin], i, n, x)
  {
    var b1, e1 := CopyAcross(buf, 0, i, Raw(cap), 0);
    var b2 := Fill(b1, i, i + n, x);
    var b3, e3 := CopyAcross(buf, i, fin, b2, i + n);
    b := b3;
    InsertSpecAt(buf[..fin], i, n, x);
    forall k | 0 <= k < fin + n
      ensures b[k] == InsertSpec(buf[..fin], i, n, x)[k]
    {
      if k < i {
        assert b1[k] == buf[k];
      }
    }
  }

  /**
   * `insert(pos, n, x)` with the growth corrected: nothing for `n == 0`; in place
   * when `size() + n < capacity()`; otherwise into a fresh buffer sized by
   * `Growth`, which always has room.
   */
  method InsertN(v: Vector, pos: nat, n: nat, x: int) returns (r: Vector)
    requires Valid(v) && pos <= Size(v)
    ensures Valid(r)
    ensures Elems(r) == InsertSpec(Elems(v), pos, n, x)
    ensures n == 0 ==> r == v
    ensures 0 < n && Size(v) + n < Capacity(v) ==> Capacity(r) == Capacity(v)
    ensures 0 < n && Size(v) + n >= Capacity(v) ==> Capacity(r) == Growth(Size(v), n)
  {
    if n == 0 {
      InsertNothing(Elems(v), pos, x);
      return v;
    }
    var b;
    if v.finish + n < |v.buf| {
      if v.finish - pos > n {
        b := InsertShiftMany(v.buf, v.finish, pos, n, x);
      } else {
        b := InsertShiftFew(v.buf, v.finish, pos, n, x);
      }
    } else {
      b := InsertRealloc(v.buf, v.finish, pos, n, x, Growth(v.finish, n));
    }
    r := Vector(b, v.finish + n);
  }

  /**
   * The reallocating path of `insert(pos, n, x)` as written: a fresh buffer of
   * `GrowthAsWritten(size())` slots, and `finish` set `size() + n` past its start.
   * The slots that exist hold the start of the intended sequence; whatever was
   * written beyond `end_of_storage` is not part of the vector.
   */
  function ReallocAsWritten(v: Vector, pos: nat, n: nat, x: int): (r: Vector)
    requires Valid(v) && pos <= Size(v)
    ensures Capacity(r) == GrowthAsWritten(Size(v)) && r.finish == Size(v) + n
    ensures Valid(r) <==> Size(v) + n <= GrowthAsWritten(Size(v))
    ensures Valid(r) ==> Elems(r) == InsertSpec(Elems(v), pos, n, x)
    ensures !Valid(r) ==> r.buf == InsertSpec(Elems(v), pos, n, x)[..Capacity(r)]
  {
    var cap := GrowthAsWritten(v.finish);
    var w := InsertSpec(Elems(v), pos, n, x);
    if |w| <= cap then Vector(w + Raw(cap - |w|), v.finish + n)
    else Vector(w[..cap], v.finish + n)
  }

  /** As written, inserting 3 elements into a full vector of 1 gives a buffer of 2 slots with `finish` at 4. */
  lemma InsertNAsWrittenOverflows()
    ensures var r := ReallocAsWritten(Vector([7], 1), 1, 3, 0);
      && Capacity(r) == 2 && r.finish == 4 && !Valid(r)
  {
  }

  /**
   * `insert(pos, n, x)` as written: the in-place paths as in `InsertN`, and the
   * reallocating path of `ReallocAsWritten`, which leaves `finish` beyond
   * `end_of_storage` whenever `n` exceeds the old size (or 10, when empty).
   */
  method InsertNAsWritten(v: Vector, pos: nat, n: nat, x: int) returns (r: Vector)
    requires Valid(v) && pos <= Size(v)
    ensures n == 0 ==> r == v
    ensures r.finish == Size(v) + n
    ensures Valid(r) <==> n == 0 || Size(v) + n < Capacity(v) || Size(v) + n <= GrowthAsWritten(Size(v))
    ensures Valid(r) ==> Elems(r) == InsertSpec(Elems(v), pos, n, x)
    ensures 0 < n && Size(v) + n >= Capacity(v) ==> Capacity(r) == GrowthAsWritten(Size(v))
  {
    if n == 0 {
      InsertNothing(Elems(v), pos, x);
      return v;
    }
    if v.finish + n < |v.buf| {
      var b;
      if v.finish - pos > n {
        b := InsertShiftMany(v.buf, v.finish, pos, n, x);
      } else {
        b := InsertShiftFew(v.buf, v.finish, pos, n, x);
      }
      r := Vector(b, v.finish + n);
    } else {
      r := ReallocAsWritten(v, pos, n, x);
    }
  }

  /**
   * `insert_aux(pos, x)`: with room, the last element is duplicated one slot up,
   * the rest of the tail moves up by one and `x` lands at `pos`; when full, a fresh
   * buffer of 10 or twice the size receives the prefix, `x` and the tail.  Its
   * callers reach the in-place path only with `pos` before the last element.
   */
  method InsertAux(v: Vector, pos: nat, x: int) returns (r: Vector)
    requires Valid(v) && pos <= Size(v)
    requires Size(v) == Capacity(v) || pos < Size(v)
    ensures Valid(r)
    ensures Elems(r) == InsertSpec(Elems(v), pos, 1, x)
    ensures Size(v) < Capacity(v) ==> Capacity(r) == Capacity(v)
    ensures Size(v) == Capacity(v) ==> Capacity(r) == GrowthAsWritten(Size(v))
  {
    var fin := v.finish;
    if fin != |v.buf| {
      var b := v.buf[fin := v.buf[fin - 1]];
      var b2 := CopyBackward(b, pos, fin - 1, fin);
      var b3 := b2[pos := x];
      r := Vector(b3, fin + 1);
      InsertSpecAt(Elems(v), pos, 1, x);
      forall k | 0 <= k < fin + 1
        ensures b3[k] == InsertSpec(Elems(v), pos, 1, x)[k]
      {
        if pos < k < fin {
          assert b2[k] == b[k - 1];
        }
      }
      assert Elems(r) == InsertSpec(Elems(v), pos, 1, x);
    } else {
      var newCap := GrowthAsWritten(fin);
      var b := InsertRealloc(v.buf, fin, pos, 1, x, newCap);
      r := Vector(b, fin + 1);
    }
  }

  /**
   * `insert(pos, x)` as written: with room and `pos == end()`, `x` is constructed
   * in the first raw slot but `finish` is not advanced, so the element is lost.
   */
  method InsertAsWritten(v: Vector, pos: nat, x: int) returns (r: Vector, ret: nat)
    requires Valid(v) && pos <= Size(v)
    ensures Valid(r) && ret == pos
    ensures Size(v) < Capacity(v) && pos == Size(v) ==> Elems(r) == Elems(v)
    ensures !(Size(v) < Capacity(v) && pos == Size(v)) ==> Elems(r) == InsertSpec(Elems(v), pos, 1, x)
  {
    if v.finish != |v.buf| && pos == v.finish {
      r := Vector(v.buf[v.finish := x], v.finish);
      assert Elems(r) == Elems(v);
    } else {
      r := InsertAux(v, pos, x);
    }
    ret := pos;
  }

  /** `insert(pos, x)` corrected: appending into spare room also advances `finish`. */
  method Insert(v: Vector, pos: nat, x: int) returns (r: Vector, ret: nat)
    requires Valid(v) && pos <= Size(v)
    ensures Valid(r) && ret == pos
    ensures Elems(r) == InsertSpec(Elems(v), pos, 1, x)
    ensures Size(v) < Capacity(v) ==> Capacity(r) == Capacity(v)
  {
    if v.finish != |v.buf| && pos == v.finish {
      r := Vector(v.buf[v.finish := x], v.finish + 1);
      assert Elems(r) == InsertSpec(Elems(v), pos, 1, x);
    } else {
      r := InsertAux(v, pos, x);
    }
    ret := pos;
  }

  /** `push_back(x)` as written: with room, `x` is constructed at `finish`, which is not advanced. */
  method PushBackAsWritten(v: Vector, x: int) returns (r: Vector)
    requires Valid(v)
    ensures Valid(r)
    ensures Size(v) < Capacity(v) ==> Elems(r) == Elems(v)
    ensures Size(v) == Capacity(v) ==> Elems(r) == Elems(v) + [x]
  {
    if v.finish != |v.buf| {
      r := Vector(v.buf[v.finish := x], v.finish);
      assert Elems(r) == Elems(v);
    } else {
      r := InsertAux(v, v.finish, x);
      assert InsertSpec(Elems(v), v.finish, 1, x) == Elems(v) + [x];
    }
  }

  /** `push_back(x)` corrected: the element is appended whether or not the buffer is full. */
  method PushBack(v: Vector, x: int) returns (r: Vector)
    requires Valid(v)
    ensures Valid(r)
    ensures Elems(r) == Elems(v) + [x]
    ensures Size(v) < Capacity(v) ==> Capacity(r) == Capacity(v)
    ensures Size(v) == Capacity(v) ==> Capacity(r) == GrowthAsWritten(Size(v))
  {
    if v.finish != |v.buf| {
      r := Vector(v.buf[v.finish := x], v.finish + 1);
      assert Elems(r) == Elems(v) + [x];
    } else {
      r := InsertAux(v, v.finish, x);
      assert InsertSpec(Elems(v), v.finish, 1, x) == Elems(v) + [x];
    }
  }

  /** `pop_back` undoes `push_back`. */
  lemma PopBackUndoesPushBack(v: Vector, r: Vector, x: int)
    requires Valid(v) && Valid(r) && Elems(r) == Elems(v) + [x]
    ensures Elems(PopBack(r)) == Elems(v)
  {
    assert Elems(PopBack(r)) == Elems(r)[..Size(v)];
  }

  // ---- capacity and size changes ----

  /** `reserve(c)`: grows the buffer to exactly `c` slots when it is smaller, keeping the elements. */
  method Reserve(v: Vector, c: nat) returns (r: Vector)
    requires Valid(v)
    ensures Valid(r) && Elems(r) == Elems(v)
    ensures Capacity(v) < c ==> Capacity(r) == c
    ensures Capacity(v) >= c ==> r == v
  {
    if |v.buf| < c {
      var b, e := CopyAcross(v.buf, 0, v.finish, Raw(c), 0);
      r := Vector(b, e);
      assert Elems(r) == Elems(v);
    } else {
      r := v;
    }
  }

  /** `resize(count, x)`: truncate to `count` elements, or append `count - size()` copies of `x`. */
  method Resize(v: Vector, count: nat, x: int) returns (r: Vector)
    requires Valid(v)
    ensures Valid(r) && Size(r) == count
    ensures count < Size(v) ==> Elems(r) == Elems(v)[..count]
    ensures count >= Size(v) ==> Elems(r) == Elems(v) + Repeat(x, count - Size(v))
  {
    if count < v.finish {
      var first;
      r, first := EraseRange(v, count, v.finish);
      assert EraseSpec(Elems(v), count, v.finish) == Elems(v)[..count];
    } else {
      r := InsertN(v, v.finish, count - v.finish, x);
      assert InsertSpec(Elems(v), v.finish, count - v.finish, x) == Elems(v) + Repeat(x, count - v.finish);
    }
  }

  /** `swap(other)`: the two vectors exchange their three pointers, so each takes the other's elements and capacity. */
  function Swap(a: Vector, b: Vector): (r: (Vector, Vector))
    requires Valid(a) && Valid(b)
    ensures Valid(r.0) && Valid(r.1)
    ensures Elems(r.0) == Elems(b) && Elems(r.1) == Elems(a)
    ensures Capacity(r.0) == Capacity(b) && Capacity(r.1) == Capacity(a)
  {
    (b, a)
  }

  /** Swapping twice restores both vectors. */
  lemma SwapTwice(a: Vector, b: Vector)
    requires Valid(a) && Valid(b)
    ensures var s := Swap(a, b);
      Swap(s.0, s.1) == (a, b)
  {
  }
}
