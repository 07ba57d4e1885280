/**
 * The buffer size rule and the `deque_iterator` arithmetic of deque.h.  An
 * iterator is the index of its node in the map and the offset of `cur` within that
 * node's buffer (`first` is offset 0, `last` is offset `b`); its abstract position
 * is `node * b + cur`.
 */
module DequeIterator {

  /**
   * `deque_buf_size(bufSize, valSize)`: a requested size wins; by default a buffer
   * holds as many elements as fit in 512 bytes, and at least one.
   */
  function BufSize(bufSize: nat, valSize: nat): (r: nat)
    requires valSize > 0
    ensures r >= 1
    ensures bufSize != 0 ==> r == bufSize
    ensures bufSize == 0 && valSize <= 512 ==> r * valSize <= 512 < (r + 1) * valSize
    ensures bufSize == 0 && valSize > 512 ==> r == 1
  {
    if bufSize != 0 then bufSize
    else if valSize < 512 then
      DivBounds(512, valSize);
      512 / valSize
    else 1
  }

  /** The quotient brackets the dividend. */
  lemma DivBounds(a: nat, d: nat)
    requires d > 0
    ensures (a / d) * d <= a < (a / d + 1) * d
  {
  }

  datatype Iter = Iter(node: int, cur: int)

  /** `first <= cur < last`. */
  predicate InBuffer(it: Iter, b: nat)
  {
    0 <= it.cur < b
  }

  /** The abstract position of an iterator. */
  function Pos(it: Iter, b: nat): int
  {
    it.node * b + it.cur
  }

  /**
   * `operator+=(n)`: stay in the buffer when the new offset fits, otherwise jump
   * `offset / b` nodes forward, or for a negative offset `-((-offset - 1) / b) - 1`
   * nodes back (floor division written with C's truncating one on non-negatives).
   */
  function Advance(it: Iter, n: int, b: nat): (r: Iter)
    requires b >= 1 && InBuffer(it, b)
    ensures InBuffer(r, b)
    ensures Pos(r, b) == Pos(it, b) + n
  {
    var offset := n + it.cur;
    if 0 <= offset < b then
      Iter(it.node, it.cur + n)
    else
      var nodeOffset := if offset > 0 then offset / b else -((-offset - 1) / b) - 1;
      FloorStep(offset, b, nodeOffset);
      Iter(it.node + nodeOffset, offset - nodeOffset * b)
  }

  /** The node offset `Advance` computes leaves a remainder in `[0, b)`. */
  lemma FloorStep(offset: int, b: nat, q: int)
    requires b >= 1 && (offset < 0 || offset >= b)
    requires q == if offset > 0 then offset / b else -((-offset - 1) / b) - 1
    ensures 0 <= offset - q * b < b
  {
    if offset > 0 {
      DivBounds(offset, b);
    } else {
      var m: nat := -offset - 1;
      DivBounds(m, b);
      assert q * b == -(m / b) * b - b;
    }
  }

  /** `operator-=(n)`: `+= -n`. */
  function Retreat(it: Iter, n: int, b: nat): (r: Iter)
    requires b >= 1 && InBuffer(it, b)
    ensures InBuffer(r, b)
    ensures Pos(r, b) == Pos(it, b) - n
  {
    Advance(it, -n, b)
  }

  /** `operator++`: one step forward, onto the next node's first slot at the end of a buffer. */
  function Next(it: Iter, b: nat): (r: Iter)
    requires b >= 1 && InBuffer(it, b)
    ensures InBuffer(r, b)
    ensures Pos(r, b) == Pos(it, b) + 1
  {
    if it.cur + 1 == b then Iter(it.node + 1, 0) else Iter(it.node, it.cur + 1)
  }

  /** `operator--`: one step back, onto the previous node's last slot at the start of a buffer. */
  function Prev(it: Iter, b: nat): (r: Iter)
    requires b >= 1 && InBuffer(it, b)
    ensures InBuffer(r, b)
    ensures Pos(r, b) == Pos(it, b) - 1
  {
    if it.cur == 0 then Iter(it.node - 1, b - 1) else Iter(it.node, it.cur - 1)
  }

  /** `++` and `--` undo each other. */
  lemma NextPrev(it: Iter, b: nat)
    requires b >= 1 && InBuffer(it, b)
    ensures Prev(Next(it, b), b) == it
    ensures Next(Prev(it, b), b) == it
  {
  }

  /** `x - y`: whole buffers between the two nodes plus the two partial buffers. */
  function Distance(x: Iter, y: Iter, b: nat): (d: int)
    ensures d == Pos(x, b) - Pos(y, b)
  {
    b * (x.node - y.node - 1) + x.cur + (b - y.cur)
  }

  /** `operator<`: by node, then by `cur` within one node. */
  function Less(x: Iter, y: Iter): bool
  {
    if x.node == y.node then x.cur < y.cur else x.node < y.node
  }

  /** A positive multiple of `b` is at least `b`. */
  lemma MulAtLeast(k: int, b: nat)
    requires k >= 1
    ensures k * b >= b
  {
  }

  /** Positions differ by whole buffers between the nodes plus the offsets. */
  lemma PosDifference(x: Iter, y: Iter, b: nat)
    ensures Pos(y, b) - Pos(x, b) == (y.node - x.node) * b + (y.cur - x.cur)
  {
    assert y.node * b - x.node * b == (y.node - x.node) * b;
  }

  /** For iterators inside their buffers, `<` is the order of positions. */
  lemma LessIsPositionOrder(x: Iter, y: Iter, b: nat)
    requires b >= 1 && InBuffer(x, b) && InBuffer(y, b)
    ensures Less(x, y) <==> Pos(x, b) < Pos(y, b)
  {
    PosDifference(x, y, b);
    if x.node < y.node {
      MulAtLeast(y.node - x.node, b);
    } else if x.node > y.node {
      PosDifference(y, x, b);
      MulAtLeast(x.node - y.node, b);
    }
  }

  /** Advancing by `n` then by `m` is advancing by `n + m`. */
  lemma AdvanceAdds(it: Iter, n: int, m: int, b: nat)
    requires b >= 1 && InBuffer(it, b)
    ensures Pos(Advance(Advance(it, n, b), m, b), b) == Pos(Advance(it, n + m, b), b)
  {
  }

  /** An in-buffer iterator is determined by its position. */
  lemma PosDetermines(x: Iter, y: Iter, b: nat)
    requires b >= 1 && InBuffer(x, b) && InBuffer(y, b)
    requires Pos(x, b) == Pos(y, b)
    ensures x == y
  {
    LessIsPositionOrder(x, y, b);
    LessIsPositionOrder(y, x, b);
  }

  /** `it + n` lands on the same iterator as `n` increments, for small `n`. */
  lemma AdvanceOneIsNext(it: Iter, b: nat)
    requires b >= 1 && InBuffer(it, b)
    ensures Advance(it, 1, b) == Next(it, b)
    ensures Advance(it, -1, b) == Prev(it, b)
  {
    PosDetermines(Advance(it, 1, b), Next(it, b), b);
    PosDetermines(Advance(it, -1, b), Prev(it, b), b);
  }
}
