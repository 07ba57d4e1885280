/**
 * The `deque` of deque.h: a map (an array of node slots) whose slots from
 * `start.node` to `finish.node` each hold a buffer of `b` elements.  The elements
 * run from `start.cur` in the first buffer to just before `finish.cur` in the last.
 * A slot is `Free` until `allocate_node` gives it a buffer and again after
 * `deallocate_node`; a slot outside the window may still name a released buffer,
 * which the deque never reads.
 */
module Deque {
  import opened DequeIterator
  import SeqAlgorithms

  datatype Slot = Free | Buffer(data: seq<int>)

  datatype Deque = Deque(b: nat, nodes: seq<Slot>, start: Iter, finish: Iter)

  /** The elements a slot holds, none for a free slot. */
  function Data(s: Slot): seq<int>
  {
    if s.Buffer? then s.data else []
  }

  /** The buffers of `w` laid end to end. */
  function Flatten(w: seq<Slot>): seq<int>
  {
    if |w| == 0 then [] else Flatten(w[..|w| - 1]) + Data(w[|w| - 1])
  }

  /** Every slot of `w` holds a buffer of exactly `b` elements. */
  predicate AllBuffers(w: seq<Slot>, b: nat)
  {
    forall i :: 0 <= i < |w| ==> w[i].Buffer? && |w[i].data| == b
  }

  /** The slots from `start.node` to `finish.node`, both included. */
  function Window(d: Deque): seq<Slot>
    requires 0 <= d.start.node <= d.finish.node < |d.nodes|
  {
    d.nodes[d.start.node..d.finish.node + 1]
  }

  /**
   * The deque's invariant: both iterators inside their buffers, `start` not after
   * `finish`, and an allocated buffer of `b` elements in every slot between them.
   */
  predicate Valid(d: Deque)
  {
    && d.b >= 1
    && 0 <= d.start.node <= d.finish.node < |d.nodes|
    && InBuffer(d.start, d.b) && InBuffer(d.finish, d.b)
    && (d.start.node == d.finish.node ==> d.start.cur <= d.finish.cur)
    && AllBuffers(Window(d), d.b)
  }

  /** The number of buffers the deque owns. */
  function NodeCount(d: Deque): int
  {
    d.finish.node - d.start.node + 1
  }

  /** Where `finish` falls in the flattened window: `finish.cur` into its last buffer. */
  function Off(d: Deque): int
    requires 0 <= d.start.node <= d.finish.node < |d.nodes|
  {
    |Flatten(Window(d))| - d.b + d.finish.cur
  }

  /** `(n + 1) * b` unfolded. */
  lemma MulSucc(n: int, b: int)
    ensures (n + 1) * b == n * b + b
  {
  }

  /** A window of `n` full buffers flattens to `n * b` elements. */
  lemma {:induction false} FlattenLength(w: seq<Slot>, b: nat)
    requires AllBuffers(w, b)
    ensures |Flatten(w)| == |w| * b
  {
    if |w| > 0 {
      FlattenLength(w[..|w| - 1], b);
      MulSucc(|w| - 1, b);
    }
  }

  /** Flattening distributes over concatenation of windows. */
  lemma {:induction false} FlattenAppend(u: seq<Slot>, v: seq<Slot>)
    ensures Flatten(u + v) == Flatten(u) + Flatten(v)
  {
    if |v| == 0 {
      assert u + v == u;
    } else {
      assert (u + v)[..|u + v| - 1] == u + v[..|v| - 1];
      FlattenAppend(u, v[..|v| - 1]);
    }
  }

  /** Flattening a window with one more slot at its back. */
  lemma FlattenSnoc(w: seq<Slot>, x: Slot)
    ensures Flatten(w + [x]) == Flatten(w) + Data(x)
  {
    assert (w + [x])[..|w|] == w;
  }

  /** Flattening a window with one more slot at its front. */
  lemma FlattenCons(x: Slot, w: seq<Slot>)
    ensures Flatten([x] + w) == Data(x) + Flatten(w)
  {
    FlattenAppend([x], w);
    assert [x][..0] == [];
  }

  /** The window flattens to the buffers before `j`, buffer `j`, and the buffers after it. */
  lemma FlattenSplit(w: seq<Slot>, j: nat)
    requires j < |w|
    ensures Flatten(w) == Flatten(w[..j]) + (Data(w[j]) + Flatten(w[j + 1..]))
  {
    FlattenPrefixSuffix(w, j);
    FlattenFrom(w, j);
  }

  /** The buffers from `j` on flatten to buffer `j` followed by those after it. */
  lemma FlattenFrom(w: seq<Slot>, j: nat)
    requires j < |w|
    ensures Flatten(w[j..]) == Data(w[j]) + Flatten(w[j + 1..])
  {
    assert w[j..] == [w[j]] + w[j + 1..];
    FlattenCons(w[j], w[j + 1..]);
  }

  /** The window flattens to its first `j` buffers followed by the rest. */
  lemma FlattenPrefixSuffix(w: seq<Slot>, j: nat)
    requires j <= |w|
    ensures Flatten(w) == Flatten(w[..j]) + Flatten(w[j..])
  {
    assert w == w[..j] + w[j..];
    FlattenAppend(w[..j], w[j..]);
  }

  /**
   * Writing element `k` of buffer `j` writes the element that many places past the
   * buffers before `j` in the flattened window.
   */
  lemma FlattenUpdate(w: seq<Slot>, b: nat, j: nat, k: nat, x: int)
    requires AllBuffers(w, b) && j < |w| && k < b
    ensures var at := |Flatten(w[..j])| + k;
      at < |Flatten(w)| && Flatten(w[j := Buffer(w[j].data[k := x])]) == Flatten(w)[at := x]
  {
    var y := Buffer(w[j].data[k := x]);
    var w' := w[j := y];
    FlattenSplit(w, j);
    FlattenSplit(w', j);
    assert w'[..j] == w[..j];
    assert w'[j + 1..] == w[j + 1..];
    SplitUpdate(Flatten(w[..j]), w[j].data, Flatten(w[j + 1..]), k, x);
  }

  /** Writing inside the middle part of a concatenation. */
  lemma SplitUpdate(a: seq<int>, m: seq<int>, c: seq<int>, k: nat, x: int)
    requires k < |m|
    ensures (a + (m + c))[|a| + k := x] == a + (m[k := x] + c)
  {
  }

  /** Writing into the last buffer of a window of full buffers. */
  lemma FlattenUpdateLast(w: seq<Slot>, b: nat, k: nat, x: int)
    requires AllBuffers(w, b) && |w| > 0 && k < b
    ensures var n := |w|;
      b <= |Flatten(w)| &&
      Flatten(w[n - 1 := Buffer(w[n - 1].data[k := x])]) == Flatten(w)[|Flatten(w)| - b + k := x]
  {
    FlattenUpdate(w, b, |w| - 1, k, x);
  }

  /** Writing into the first buffer of a window. */
  lemma FlattenUpdateFirst(w: seq<Slot>, b: nat, k: nat, x: int)
    requires AllBuffers(w, b) && |w| > 0 && k < b
    ensures k < |Flatten(w)| && Flatten(w[0 := Buffer(w[0].data[k := x])]) == Flatten(w)[k := x]
  {
    assert w[..0] == [];
    FlattenUpdate(w, b, 0, k, x);
  }

  /** The element range of a valid deque lies inside its flattened window. */
  lemma ElemsBounds(d: Deque)
    requires Valid(d)
    ensures d.start.cur <= Off(d) < |Flatten(Window(d))|
  {
    var w := Window(d);
    var n := |w|;
    if n == 1 {
      assert w[..0] == [];
    } else {
      assert Flatten(w[..n - 1]) == Flatten(w[..n - 1][..n - 2]) + Data(w[n - 2]);
    }
  }

  /** The abstract contents: from `start` up to, not including, `finish`. */
  function Elems(d: Deque): seq<int>
    requires Valid(d)
  {
    ElemsBounds(d);
    Flatten(Window(d))[d.start.cur..Off(d)]
  }

  /** `size()`: `finish - start`, which is the number of stored elements. */
  function Size(d: Deque): (n: int)
    requires Valid(d)
    ensures n == |Elems(d)|
  {
    var n := Distance(d.finish, d.start, d.b);
    SizeIsLength(d);
    n
  }

  /** `finish - start` counts the elements of the buffers between them. */
  lemma SizeIsLength(d: Deque)
    requires Valid(d)
    ensures Distance(d.finish, d.start, d.b) == |Elems(d)|
  {
    ElemsBounds(d);
    FlattenLength(Window(d), d.b);
    assert d.b * (d.finish.node - d.start.node - 1) + d.b == (d.finish.node - d.start.node + 1) * d.b - d.b;
  }

  /** `empty()`: `finish == start`, which holds exactly when nothing is stored. */
  function IsEmpty(d: Deque): (e: bool)
    requires Valid(d)
    ensures e <==> Elems(d) == []
  {
    if Size(d) == 0 then
      PosDetermines(d.start, d.finish, d.b);
      d.finish == d.start
    else
      d.finish == d.start
  }

  /** Element `k` of window buffer `j` sits `j` whole buffers plus `k` into the flattened window. */
  lemma FlattenAt(w: seq<Slot>, b: nat, j: nat, k: nat)
    requires AllBuffers(w, b) && j < |w| && k < b
    ensures j * b + k < |Flatten(w)| && Flatten(w)[j * b + k] == w[j].data[k]
  {
    FlattenSplit(w, j);
    AllBuffersSlice(w, 0, j, b);
    assert w[0..j] == w[..j];
    FlattenLength(w[..j], b);
  }

  /** `front()`: the element at `start`, which is the first element. */
  function Front(d: Deque): (x: int)
    requires Valid(d) && Elems(d) != []
    ensures x == Elems(d)[0]
  {
    var w := Window(d);
    ElemsBounds(d);
    FlattenAt(w, d.b, 0, d.start.cur);
    w[0].data[d.start.cur]
  }

  /**
   * `back()`: the element at `finish - 1`, which is the last element; when
   * `finish` is at the front of its buffer that is the last slot of the buffer
   * before.
   */
  function Back(d: Deque): (x: int)
    requires Valid(d) && Elems(d) != []
    ensures x == Elems(d)[|Elems(d)| - 1]
  {
    var F := Flatten(Window(d));
    ElemsShape(d, F, Off(d));
    if d.finish.cur > 0 then
      BackAtLast(d);
      d.nodes[d.finish.node].data[d.finish.cur - 1]
    else
      BackAtPrevious(d);
      d.nodes[d.finish.node - 1].data[d.b - 1]
  }

  /** With `finish` past the front of its buffer, `finish - 1` is in the same buffer. */
  lemma BackAtLast(d: Deque)
    requires Valid(d) && d.finish.cur > 0
    ensures Off(d) >= 1 && Off(d) - 1 < |Flatten(Window(d))|
    ensures Flatten(Window(d))[Off(d) - 1] == d.nodes[d.finish.node].data[d.finish.cur - 1]
  {
    var w := Window(d);
    FlattenLength(w, d.b);
    MulSucc(|w| - 1, d.b);
    BackInLast(w, d.b, d.finish.cur);
  }

  /** With `finish` at the front of its buffer and something stored, `finish - 1` is the last slot of the buffer before. */
  lemma BackAtPrevious(d: Deque)
    requires Valid(d) && d.finish.cur == 0 && d.start.cur < Off(d)
    ensures d.start.node < d.finish.node && Off(d) - 1 < |Flatten(Window(d))|
    ensures Flatten(Window(d))[Off(d) - 1] == d.nodes[d.finish.node - 1].data[d.b - 1]
  {
    var w := Window(d);
    FlattenLength(w, d.b);
    MulSucc(|w| - 1, d.b);
    if |w| >= 2 {
      BackInPrevious(w, d.b);
    }
  }

  /** Offset `cur` of the last buffer, stepped back once, in the flattened window. */
  lemma BackInLast(w: seq<Slot>, b: nat, cur: nat)
    requires AllBuffers(w, b) && |w| > 0 && 0 < cur < b && |Flatten(w)| == (|w| - 1) * b + b
    ensures |Flatten(w)| - b + cur - 1 >= 0
    ensures Flatten(w)[|Flatten(w)| - b + cur - 1] == w[|w| - 1].data[cur - 1]
  {
    FlattenAt(w, b, |w| - 1, cur - 1);
  }

  /** The last slot of the buffer before the last one, in the flattened window. */
  lemma BackInPrevious(w: seq<Slot>, b: nat)
    requires AllBuffers(w, b) && |w| >= 2 && b >= 1 && |Flatten(w)| == (|w| - 1) * b + b
    ensures |Flatten(w)| - b - 1 >= 0
    ensures Flatten(w)[|Flatten(w)| - b - 1] == w[|w| - 2].data[b - 1]
  {
    MulSucc(|w| - 2, b);
    FlattenAt(w, b, |w| - 2, b - 1);
  }

  /** `std::max`. */
  function Max(x: int, y: int): int
  {
    if x < y then y else x
  }

  /**
   * `create_map_nodes(n)`: `n / b + 1` fresh buffers centred in a map of
   * `max(8, nodes + 2)` slots; `start` at the front of the first, `finish` at
   * offset `n % b` of the last.
   */
  function CreateMapNodes(n: nat, b: nat): (d: Deque)
    requires b >= 1
    ensures Valid(d) && d.b == b
    ensures Size(d) == n
    ensures NodeCount(d) == n / b + 1
    ensures |d.nodes| == Max(8, n / b + 3)
    ensures d.start.node >= 1 && |d.nodes| - (d.finish.node + 1) >= 1
  {
    FreshMapValid(n, b);
    FreshMapSize(n, b);
    FreshMap(n, b)
  }

  /** The map `create_map_nodes(n)` builds, with its iterators. */
  function FreshMap(n: nat, b: nat): Deque
    requires b >= 1
  {
    var numNodes := n / b + 1;
    var mapSize := Max(8, numNodes + 2);
    var nstart := (mapSize - numNodes) / 2;
    var nfinish := nstart + numNodes - 1;
    var nodes := seq(mapSize, i => if nstart <= i <= nfinish then Buffer(SeqAlgorithms.Raw(b)) else Free);
    Deque(b, nodes, Iter(nstart, 0), Iter(nfinish, n % b))
  }

  lemma FreshMapValid(n: nat, b: nat)
    requires b >= 1
    ensures var d := FreshMap(n, b);
      && Valid(d) && d.b == b && NodeCount(d) == n / b + 1
      && |d.nodes| == Max(8, n / b + 3)
      && d.start.node >= 1 && |d.nodes| - (d.finish.node + 1) >= 1
  {
    var d := FreshMap(n, b);
    assert Window(d) == seq(n / b + 1, _ => Buffer(SeqAlgorithms.Raw(b)));
  }

  lemma FreshMapSize(n: nat, b: nat)
    requires b >= 1
    ensures Distance(FreshMap(n, b).finish, FreshMap(n, b).start, b) == n
  {
    DivMod(n, b);
  }

  /** Whole buffers and the remainder make up `n`. */
  lemma DivMod(n: nat, b: nat)
    requires b >= 1
    ensures b * (n / b - 1) + n % b + b == n
  {
  }

  /** The default constructor `deque()`: `create_map_nodes(0)`. */
  function EmptyDeque(b: nat): (d: Deque)
    requires b >= 1
    ensures Valid(d) && d.b == b
    ensures Elems(d) == [] && IsEmpty(d)
    ensures NodeCount(d) == 1
  {
    CreateMapNodes(0, b)
  }

  /**
   * `dst` with `count` slots of `src` from `from` written at `at`: what
   * `std::copy(from, from + count, at)` leaves when the destination starts at or
   * before the source, and what `std::copy_backward(from, from + count, at + count)`
   * leaves when it starts at or after it.
   */
  function Place(dst: seq<Slot>, src: seq<Slot>, from: nat, count: nat, at: nat): (r: seq<Slot>)
    requires from + count <= |src| && at + count <= |dst|
    ensures |r| == |dst|
    ensures r[at..at + count] == src[from..from + count]
    ensures forall i :: 0 <= i < |dst| && !(at <= i < at + count) ==> r[i] == dst[i]
  {
    seq(|dst|, i requires 0 <= i < |dst| => if at <= i < at + count then src[from + (i - at)] else dst[i])
  }

  /** `std::copy_backward(from, from + count, destLast)` within one map. */
  function CopyBackward(m: seq<Slot>, from: nat, count: nat, destLast: nat): (r: seq<Slot>)
    requires from + count <= |m| && count <= destLast <= |m|
    ensures |r| == |m|
    ensures r[destLast - count..destLast] == m[from..from + count]
  {
    Place(m, m, from, count, destLast - count)
  }

  /** `count` fresh slots of a newly allocated map. */
  function Frees(count: nat): (r: seq<Slot>)
    ensures |r| == count && forall i :: 0 <= i < count ==> r[i] == Free
  {
    seq(count, _ => Free)
  }

  /** The deque moved onto map `m`, its iterators `set_node` to `nstart` onwards (offsets kept). */
  function Rebase(d: Deque, m: seq<Slot>, nstart: nat): Deque
  {
    Deque(d.b, m, Iter(nstart, d.start.cur), Iter(nstart + NodeCount(d) - 1, d.finish.cur))
  }

  /** Where `reallocate_map` puts the first node in a map of `mapSize` slots. */
  function NewStart(d: Deque, mapSize: nat, k: nat, atFront: bool): int
  {
    (mapSize - (NodeCount(d) + k)) / 2 + (if atFront then k else 0)
  }

  /** Whether `reallocate_map` recentres within the current map rather than allocating one. */
  function InPlace(d: Deque, k: nat): bool
  {
    |d.nodes| > 2 * (NodeCount(d) + k)
  }

  /** The size of the map `reallocate_map` allocates when it does not recentre. */
  function GrownMapSize(d: Deque, k: nat): int
  {
    |d.nodes| + Max(|d.nodes|, k) + 2
  }

  /** `d` moved onto map `m`, its nodes copied as a block to slots `nstart` onwards. */
  lemma RebaseKeeps(d: Deque, m: seq<Slot>, nstart: nat)
    requires Valid(d)
    requires nstart + NodeCount(d) <= |m| && m[nstart..nstart + NodeCount(d)] == Window(d)
    ensures var r := Rebase(d, m, nstart);
      Valid(r) && r.b == d.b && Window(r) == Window(d) && Elems(r) == Elems(d)
  {
    var r := Rebase(d, m, nstart);
    assert Window(r) == Window(d);
    assert Off(r) == Off(d);
  }

  /**
   * `reallocate_map(k, atFront)`, with the in-place `copy_backward` ending at
   * `nstart + old_nodes_num`: the nodes keep their order, the contents are kept, and
   * at least `k` spare slots are left on the requested side.  When the map is more
   * than twice the nodes needed it is recentred in place; otherwise a map of
   * `map_size + max(map_size, k) + 2` slots replaces it.
   */
  function ReallocateMap(d: Deque, k: nat, atFront: bool): (r: Deque)
    requires Valid(d)
    ensures Valid(r) && r.b == d.b
    ensures Window(r) == Window(d) && r.start.cur == d.start.cur && r.finish.cur == d.finish.cur
    ensures Elems(r) == Elems(d)
    ensures atFront ==> r.start.node >= k
    ensures !atFront ==> |r.nodes| - (r.finish.node + 1) >= k
    ensures |r.nodes| == if InPlace(d, k) then |d.nodes| else GrownMapSize(d, k)
  {
    if InPlace(d, k) then Recentre(d, k, atFront) else Regrow(d, k, atFront)
  }

  /** The first node lands where the map still has room for all nodes and `k` spare slots on the requested side. */
  lemma NewStartFits(d: Deque, size: int, k: nat, atFront: bool)
    requires 1 <= NodeCount(d) && NodeCount(d) + k <= size
    ensures var ns := NewStart(d, size, k, atFront);
      && 0 <= ns && ns + NodeCount(d) <= size
      && (atFront ==> ns >= k) && (!atFront ==> size - (ns + NodeCount(d)) >= k)
  {
  }

  /** The in-place branch of `reallocate_map`: the nodes slide within the map to be recentred. */
  function Recentre(d: Deque, k: nat, atFront: bool): (r: Deque)
    requires Valid(d) && InPlace(d, k)
    ensures Valid(r) && r.b == d.b && |r.nodes| == |d.nodes|
    ensures Window(r) == Window(d) && r.start.cur == d.start.cur && r.finish.cur == d.finish.cur
    ensures Elems(r) == Elems(d)
    ensures atFront ==> r.start.node >= k
    ensures !atFront ==> |r.nodes| - (r.finish.node + 1) >= k
  {
    var nstart := NewStart(d, |d.nodes|, k, atFront);
    NewStartFits(d, |d.nodes|, k, atFront);
    var m := RecentredMap(d, nstart);
    RebaseKeeps(d, m, nstart);
    Rebase(d, m, nstart)
  }

  /**
   * The map after moving the nodes to start at `nstart`: `std::copy` when they move
   * toward the front, `std::copy_backward` ending at `nstart + old_nodes_num` otherwise.
   */
  function RecentredMap(d: Deque, nstart: nat): (m: seq<Slot>)
    requires Valid(d) && nstart + NodeCount(d) <= |d.nodes|
    ensures |m| == |d.nodes| && m[nstart..nstart + NodeCount(d)] == Window(d)
  {
    var oldNodes := NodeCount(d);
    if nstart < d.start.node then Place(d.nodes, d.nodes, d.start.node, oldNodes, nstart)
    else CopyBackward(d.nodes, d.start.node, oldNodes, nstart + oldNodes)
  }

  /** The growing branch of `reallocate_map`: the nodes are copied into a larger, fresh map. */
  function Regrow(d: Deque, k: nat, atFront: bool): (r: Deque)
    requires Valid(d)
    ensures Valid(r) && r.b == d.b && |r.nodes| == GrownMapSize(d, k)
    ensures Window(r) == Window(d) && r.start.cur == d.start.cur && r.finish.cur == d.finish.cur
    ensures Elems(r) == Elems(d)
    ensures atFront ==> r.start.node >= k
    ensures !atFront ==> |r.nodes| - (r.finish.node + 1) >= k
  {
    var size := GrownMapSize(d, k);
    var nstart := NewStart(d, size, k, atFront);
    NewStartFits(d, size, k, atFront);
    var m := Place(Frees(size), d.nodes, d.start.node, NodeCount(d), nstart);
    RebaseKeeps(d, m, nstart);
    Rebase(d, m, nstart)
  }

  /**
   * `reallocate_map` as written: the in-place `copy_backward` ends at
   * `nstart + new_nodes_num`, so the nodes land `k` slots past where `start` and
   * `finish` are then set.  A front request larger than the node count would write
   * past the map; `push_front` asks for one node.
   */
  function ReallocateMapAsWritten(d: Deque, k: nat, atFront: bool): (r: Deque)
    requires Valid(d)
    requires atFront ==> k <= NodeCount(d)
    ensures |r.nodes| == if InPlace(d, k) then |d.nodes| else GrownMapSize(d, k)
    ensures InPlace(d, k) && NewStart(d, |d.nodes|, k, atFront) >= d.start.node ==>
      0 <= r.start.node && r.start.node + k + NodeCount(d) <= |r.nodes| &&
      r.nodes[r.start.node + k..r.start.node + k + NodeCount(d)] == Window(d)
  {
    if InPlace(d, k) then RecentreAsWritten(d, k, atFront) else Regrow(d, k, atFront)
  }

  /** The in-place branch as written: a backward copy ending `k` slots past the corrected end. */
  function RecentreAsWritten(d: Deque, k: nat, atFront: bool): (r: Deque)
    requires Valid(d) && InPlace(d, k)
    requires atFront ==> k <= NodeCount(d)
    ensures |r.nodes| == |d.nodes| && r.start.node == NewStart(d, |d.nodes|, k, atFront)
    ensures r.start.node >= d.start.node ==>
      0 <= r.start.node && r.start.node + k + NodeCount(d) <= |r.nodes| &&
      r.nodes[r.start.node + k..r.start.node + k + NodeCount(d)] == Window(d)
  {
    var nstart := NewStart(d, |d.nodes|, k, atFront);
    NewStartFitsAsWritten(d, k, atFront);
    Rebase(d, RecentredMapAsWritten(d, nstart, k), nstart)
  }

  /** Recentring in place leaves room for the nodes `k` slots past the new start. */
  lemma NewStartFitsAsWritten(d: Deque, k: nat, atFront: bool)
    requires 1 <= NodeCount(d) && InPlace(d, k)
    requires atFront ==> k <= NodeCount(d)
    ensures var ns := NewStart(d, |d.nodes|, k, atFront);
      0 <= ns && ns + NodeCount(d) + k <= |d.nodes|
  {
  }

  /** The map after the as-written moves: the backward copy ends at `nstart + new_nodes_num`. */
  function RecentredMapAsWritten(d: Deque, nstart: nat, k: nat): (m: seq<Slot>)
    requires 0 <= d.start.node <= d.finish.node < |d.nodes| && nstart + NodeCount(d) + k <= |d.nodes|
    ensures |m| == |d.nodes|
    ensures nstart >= d.start.node ==> m[nstart + k..nstart + k + NodeCount(d)] == Window(d)
  {
    var oldNodes := NodeCount(d);
    if nstart < d.start.node then Place(d.nodes, d.nodes, d.start.node, oldNodes, nstart)
    else
      CopyBackwardWindow(d, nstart + k);
      CopyBackward(d.nodes, d.start.node, oldNodes, nstart + k + oldNodes)
  }

  /** Copying the window backward to end at `at + NodeCount(d)` puts the window at `at`. */
  lemma CopyBackwardWindow(d: Deque, at: nat)
    requires 0 <= d.start.node <= d.finish.node < |d.nodes| && at + NodeCount(d) <= |d.nodes|
    ensures var m := CopyBackward(d.nodes, d.start.node, NodeCount(d), at + NodeCount(d));
      m[at..at + NodeCount(d)] == Window(d)
  {
    var n := NodeCount(d);
    assert d.start.node + n == d.finish.node + 1;
    assert (at + n) - n == at;
  }

  /**
   * One buffer at map slot 0 holding `[7]`: `push_front` finds no spare slot in front
   * and recentres the eight-slot map in place.  As written, `start` and `finish` end
   * on slot 4, which holds no buffer, while the buffer sits in slot 5; corrected,
   * the contents survive.
   */
  lemma ReallocateMapAsWrittenLosesBuffer()
    ensures var d := Deque(2, [Buffer([7, 0])] + Frees(7), Iter(0, 0), Iter(0, 1));
      && Valid(d) && Elems(d) == [7]
      && var w := ReallocateMapAsWritten(d, 1, true);
      w.start.node == w.finish.node == 4 && w.nodes[4] == Free && w.nodes[5] == d.nodes[0] && !Valid(w)
      && Elems(ReallocateMap(d, 1, true)) == [7]
  {
    var d := Deque(2, [Buffer([7, 0])] + Frees(7), Iter(0, 0), Iter(0, 1));
    assert Window(d) == [Buffer([7, 0])];
    assert Flatten([Buffer([7, 0])]) == [7, 0] by {
      assert [Buffer([7, 0])][..0] == [];
    }
  }

  /** `reserve_map_at_back(k)`: reallocate only when fewer than `k` slots follow `finish.node`. */
  function ReserveMapAtBack(d: Deque, k: nat): (r: Deque)
    requires Valid(d)
    ensures Valid(r) && r.b == d.b
    ensures Window(r) == Window(d) && r.start.cur == d.start.cur && r.finish.cur == d.finish.cur
    ensures Elems(r) == Elems(d)
    ensures |r.nodes| - (r.finish.node + 1) >= k
    ensures k <= |d.nodes| - (d.finish.node + 1) ==> r == d
  {
    if k > |d.nodes| - (d.finish.node + 1) then ReallocateMap(d, k, false) else d
  }

  /** `reserve_map_at_front(k)`: reallocate only when fewer than `k` slots precede `start.node`. */
  function ReserveMapAtFront(d: Deque, k: nat): (r: Deque)
    requires Valid(d)
    ensures Valid(r) && r.b == d.b
    ensures Window(r) == Window(d) && r.start.cur == d.start.cur && r.finish.cur == d.finish.cur
    ensures Elems(r) == Elems(d)
    ensures r.start.node >= k
    ensures k <= d.start.node ==> r == d
  {
    if k > d.start.node then ReallocateMap(d, k, true) else d
  }

  /** The map with `v` constructed at offset `cur` of the buffer in slot `node`. */
  function Write(m: seq<Slot>, node: nat, cur: nat, v: int): seq<Slot>
    requires node < |m| && m[node].Buffer? && cur < |m[node].data|
  {
    m[node := Buffer(m[node].data[cur := v])]
  }

  /** Slot `node` of `m` holding a buffer with `cur` replaced by `v`. */
  function Written(m: seq<Slot>, node: nat, cur: nat, v: int): Slot
    requires node < |m| && m[node].Buffer? && cur < |m[node].data|
  {
    Buffer(m[node].data[cur := v])
  }

  /** Contents of a valid deque, read off a flattened window and an end offset it has. */
  lemma ElemsShape(d: Deque, F: seq<int>, off: int)
    requires Valid(d) && Flatten(Window(d)) == F && Off(d) == off
    ensures d.start.cur <= off < |F| && Elems(d) == F[d.start.cur..off]
  {
    ElemsBounds(d);
  }

  /** Writing just past the end of a slice extends it by that element. */
  lemma SliceUpdateEnd(s: seq<int>, t: seq<int>, i: nat, j: nat, v: int)
    requires i <= j < |s|
    ensures (s[j := v] + t)[i..j + 1] == s[i..j] + [v]
  {
  }

  /** Writing just before the start of a slice prepends that element. */
  lemma SliceUpdateStart(s: seq<int>, i: nat, j: nat, v: int)
    requires 0 < i <= j <= |s|
    ensures s[i - 1 := v][i - 1..j] == [v] + s[i..j]
  {
  }

  /** A slice from the last element of `a` into `a + g`. */
  lemma SliceAcross(a: seq<int>, g: seq<int>, j: nat)
    requires |a| > 0 && j <= |g|
    ensures (a + g)[|a| - 1..|a| + j] == [a[|a| - 1]] + g[..j]
  {
  }

  /** A slice of `p + t` that stays inside `p`. */
  lemma SliceInside(p: seq<int>, t: seq<int>, i: nat, j: nat)
    requires i <= j <= |p|
    ensures (p + t)[i..j] == p[i..j]
  {
  }

  /** A full buffer added at either end keeps a window of full buffers. */
  lemma AllBuffersExtend(w: seq<Slot>, x: Slot, b: nat)
    requires AllBuffers(w, b) && x.Buffer? && |x.data| == b
    ensures AllBuffers(w + [x], b) && AllBuffers([x] + w, b)
  {
  }

  /** Replacing one buffer by a full one keeps a window of full buffers. */
  lemma AllBuffersUpdate(w: seq<Slot>, j: nat, x: Slot, b: nat)
    requires AllBuffers(w, b) && j < |w| && x.Buffer? && |x.data| == b
    ensures AllBuffers(w[j := x], b)
  {
  }

  /** Dropping buffers from either end keeps a window of full buffers. */
  lemma AllBuffersSlice(w: seq<Slot>, i: nat, j: nat, b: nat)
    requires AllBuffers(w, b) && i <= j <= |w|
    ensures AllBuffers(w[i..j], b)
  {
  }

  // push_back with room in the last buffer: construct at `finish`, then `++finish`.

  function PushBackHere(d: Deque, v: int): Deque
    requires Valid(d) && d.finish.cur < d.b - 1
  {
    Deque(d.b, Write(d.nodes, d.finish.node, d.finish.cur, v), d.start, Iter(d.finish.node, d.finish.cur + 1))
  }

  lemma PushBackHereWindow(d: Deque, v: int)
    requires Valid(d) && d.finish.cur < d.b - 1
    ensures var r := PushBackHere(d, v);
      && Valid(r)
      && 0 <= r.start.node <= r.finish.node < |r.nodes|
      && Window(r) == Window(d)[NodeCount(d) - 1 := Written(d.nodes, d.finish.node, d.finish.cur, v)]
  {
    AllBuffersUpdate(Window(d), NodeCount(d) - 1, Written(d.nodes, d.finish.node, d.finish.cur, v), d.b);
    assert Window(PushBackHere(d, v)) == Window(d)[NodeCount(d) - 1 := Written(d.nodes, d.finish.node, d.finish.cur, v)];
  }

  lemma PushBackHereFlat(d: Deque, v: int)
    requires Valid(d) && d.finish.cur < d.b - 1
    ensures var r := PushBackHere(d, v);
      && 0 <= r.start.node <= r.finish.node < |r.nodes|
      && Off(d) < |Flatten(Window(d))|
      && Flatten(Window(r)) == Flatten(Window(d))[Off(d) := v]
  {
    PushBackHereWindow(d, v);
    FlattenUpdateLast(Window(d), d.b, d.finish.cur, v);
  }

  lemma PushBackHereOk(d: Deque, v: int)
    requires Valid(d) && d.finish.cur < d.b - 1
    ensures Valid(PushBackHere(d, v)) && Elems(PushBackHere(d, v)) == Elems(d) + [v]
  {
    var r := PushBackHere(d, v);
    PushBackHereWindow(d, v);
    PushBackHereFlat(d, v);
    var F := Flatten(Window(d));
    ElemsShape(d, F, Off(d));
    ElemsShape(r, F[Off(d) := v], Off(d) + 1);
    SliceUpdateEnd(F, [], d.start.cur, Off(d), v);
  }

  // push_back on a full last buffer, after `reserve_map_at_back`: a new buffer in the
  // next slot, construct at `finish`, and `finish` to the new buffer's front.

  function PushBackGrow(e: Deque, v: int): Deque
    requires Valid(e) && e.finish.cur == e.b - 1 && e.finish.node + 1 < |e.nodes|
  {
    var f := e.finish.node;
    Deque(e.b, Write(e.nodes[f + 1 := Buffer(SeqAlgorithms.Raw(e.b))], f, e.finish.cur, v), e.start, Iter(f + 1, 0))
  }

  lemma PushBackGrowWindow(e: Deque, v: int)
    requires Valid(e) && e.finish.cur == e.b - 1 && e.finish.node + 1 < |e.nodes|
    ensures var r := PushBackGrow(e, v);
      && Valid(r)
      && 0 <= r.start.node <= r.finish.node < |r.nodes|
      && Window(r) == Window(e)[NodeCount(e) - 1 := Written(e.nodes, e.finish.node, e.finish.cur, v)]
        + [Buffer(SeqAlgorithms.Raw(e.b))]
  {
    var w' := Window(e)[NodeCount(e) - 1 := Written(e.nodes, e.finish.node, e.finish.cur, v)];
    AllBuffersUpdate(Window(e), NodeCount(e) - 1, Written(e.nodes, e.finish.node, e.finish.cur, v), e.b);
    AllBuffersExtend(w', Buffer(SeqAlgorithms.Raw(e.b)), e.b);
    assert Window(PushBackGrow(e, v)) == w' + [Buffer(SeqAlgorithms.Raw(e.b))];
  }

  lemma PushBackGrowFlat(e: Deque, v: int)
    requires Valid(e) && e.finish.cur == e.b - 1 && e.finish.node + 1 < |e.nodes|
    ensures var r := PushBackGrow(e, v);
      && 0 <= r.start.node <= r.finish.node < |r.nodes|
      && Off(e) < |Flatten(Window(e))|
      && Flatten(Window(r)) == Flatten(Window(e))[Off(e) := v] + SeqAlgorithms.Raw(e.b)
  {
    var w := Window(e);
    var x := Written(e.nodes, e.finish.node, e.finish.cur, v);
    var w' := w[NodeCount(e) - 1 := x];
    PushBackGrowWindow(e, v);
    assert |w| == NodeCount(e) && x == Buffer(w[|w| - 1].data[e.finish.cur := v]);
    FlattenUpdateLast(w, e.b, e.finish.cur, v);
    assert Flatten(w') == Flatten(w)[Off(e) := v];
    FlattenSnoc(w', Buffer(SeqAlgorithms.Raw(e.b)));
    assert Data(Buffer(SeqAlgorithms.Raw(e.b))) == SeqAlgorithms.Raw(e.b);
  }

  lemma PushBackGrowOk(e: Deque, v: int)
    requires Valid(e) && e.finish.cur == e.b - 1 && e.finish.node + 1 < |e.nodes|
    ensures Valid(PushBackGrow(e, v)) && Elems(PushBackGrow(e, v)) == Elems(e) + [v]
  {
    var r := PushBackGrow(e, v);
    PushBackGrowWindow(e, v);
    PushBackGrowFlat(e, v);
    var F := Flatten(Window(e));
    ElemsShape(e, F, Off(e));
    ElemsShape(r, F[Off(e) := v] + SeqAlgorithms.Raw(e.b), Off(e) + 1);
    SliceUpdateEnd(F, SeqAlgorithms.Raw(e.b), e.start.cur, Off(e), v);
  }

  /**
   * `push_back(v)`: construct at `finish` and step it; only when `finish` is on the
   * last slot of its buffer is a new buffer allocated after it (reserving a map
   * slot first), `finish` moving to that buffer's front.
   */
  function PushBack(d: Deque, v: int): (r: Deque)
    requires Valid(d)
    ensures Valid(r) && r.b == d.b
    ensures Elems(r) == Elems(d) + [v]
    ensures NodeCount(r) == NodeCount(d) + (if d.finish.cur == d.b - 1 then 1 else 0)
  {
    if d.finish.cur != d.b - 1 then
      PushBackHereOk(d, v);
      PushBackHere(d, v)
    else
      var e := ReserveMapAtBack(d, 1);
      PushBackGrowOk(e, v);
      PushBackGrow(e, v)
  }

  // push_front with room before `start` in its buffer: `--start`, then construct there.

  function PushFrontHere(d: Deque, v: int): Deque
    requires Valid(d) && d.start.cur > 0
  {
    Deque(d.b, Write(d.nodes, d.start.node, d.start.cur - 1, v), Iter(d.start.node, d.start.cur - 1), d.finish)
  }

  lemma PushFrontHereWindow(d: Deque, v: int)
    requires Valid(d) && d.start.cur > 0
    ensures var r := PushFrontHere(d, v);
      && Valid(r)
      && 0 <= r.start.node <= r.finish.node < |r.nodes|
      && Window(r) == Window(d)[0 := Written(d.nodes, d.start.node, d.start.cur - 1, v)]
  {
    AllBuffersUpdate(Window(d), 0, Written(d.nodes, d.start.node, d.start.cur - 1, v), d.b);
    assert Window(PushFrontHere(d, v)) == Window(d)[0 := Written(d.nodes, d.start.node, d.start.cur - 1, v)];
  }

  lemma PushFrontHereFlat(d: Deque, v: int)
    requires Valid(d) && d.start.cur > 0
    ensures var r := PushFrontHere(d, v);
      && 0 <= r.start.node <= r.finish.node < |r.nodes|
      && d.start.cur - 1 < |Flatten(Window(d))|
      && Flatten(Window(r)) == Flatten(Window(d))[d.start.cur - 1 := v]
  {
    PushFrontHereWindow(d, v);
    FlattenUpdateFirst(Window(d), d.b, d.start.cur - 1, v);
  }

  lemma PushFrontHereOk(d: Deque, v: int)
    requires Valid(d) && d.start.cur > 0
    ensures Valid(PushFrontHere(d, v)) && Elems(PushFrontHere(d, v)) == [v] + Elems(d)
  {
    var r := PushFrontHere(d, v);
    PushFrontHereWindow(d, v);
    PushFrontHereFlat(d, v);
    var F := Flatten(Window(d));
    ElemsShape(d, F, Off(d));
    ElemsShape(r, F[d.start.cur - 1 := v], Off(d));
    SliceUpdateStart(F, d.start.cur, Off(d), v);
  }

  // push_front on a full first buffer, after `reserve_map_at_front`: a new buffer in
  // the previous slot, `start` to its last slot, and construct there.

  function PushFrontGrow(e: Deque, v: int): Deque
    requires Valid(e) && e.start.cur == 0 && e.start.node >= 1
  {
    var s := e.start.node;
    Deque(e.b, Write(e.nodes[s - 1 := Buffer(SeqAlgorithms.Raw(e.b))], s - 1, e.b - 1, v), Iter(s - 1, e.b - 1), e.finish)
  }

  /** The new first buffer `push_front` fills from the back. */
  function FreshLast(b: nat, v: int): Slot
    requires b >= 1
  {
    Buffer(SeqAlgorithms.Raw(b)[b - 1 := v])
  }

  lemma PushFrontGrowWindow(e: Deque, v: int)
    requires Valid(e) && e.start.cur == 0 && e.start.node >= 1
    ensures var r := PushFrontGrow(e, v);
      && Valid(r)
      && 0 <= r.start.node <= r.finish.node < |r.nodes|
      && Window(r) == [FreshLast(e.b, v)] + Window(e)
  {
    AllBuffersExtend(Window(e), FreshLast(e.b, v), e.b);
    assert Window(PushFrontGrow(e, v)) == [FreshLast(e.b, v)] + Window(e);
  }

  lemma PushFrontGrowFlat(e: Deque, v: int)
    requires Valid(e) && e.start.cur == 0 && e.start.node >= 1
    ensures var r := PushFrontGrow(e, v);
      && 0 <= r.start.node <= r.finish.node < |r.nodes|
      && Flatten(Window(r)) == FreshLast(e.b, v).data + Flatten(Window(e))
  {
    PushFrontGrowWindow(e, v);
    FlattenCons(FreshLast(e.b, v), Window(e));
  }

  lemma PushFrontGrowOk(e: Deque, v: int)
    requires Valid(e) && e.start.cur == 0 && e.start.node >= 1
    ensures Valid(PushFrontGrow(e, v)) && Elems(PushFrontGrow(e, v)) == [v] + Elems(e)
  {
    var r := PushFrontGrow(e, v);
    PushFrontGrowWindow(e, v);
    PushFrontGrowFlat(e, v);
    var a := FreshLast(e.b, v).data;
    assert |a| == e.b && a[e.b - 1] == v;
    assert r.start.cur == e.b - 1 && Off(r) == Off(e) + e.b;
    ElemsPrepend(r, e, a, Flatten(Window(e)));
  }

  /** A deque whose flattened window gains `a` in front, with `start` on the last slot of `a`. */
  lemma ElemsPrepend(r: Deque, e: Deque, a: seq<int>, F: seq<int>)
    requires Valid(r) && Valid(e) && |a| > 0
    requires Flatten(Window(e)) == F && Flatten(Window(r)) == a + F
    requires e.start.cur == 0 && r.start.cur == |a| - 1 && Off(r) == Off(e) + |a|
    ensures Elems(r) == [a[|a| - 1]] + Elems(e)
  {
    ElemsShape(e, F, Off(e));
    ElemsShape(r, a + F, Off(e) + |a|);
    SliceAcross(a, F, Off(e));
    assert F[0..Off(e)] == F[..Off(e)];
  }

  /**
   * `push_front(v)`: step `start` back and construct there; only when `start` is on
   * the first slot of its buffer is a new buffer allocated before it (reserving a
   * map slot first), `start` moving to that buffer's last slot.
   */
  function PushFront(d: Deque, v: int): (r: Deque)
    requires Valid(d)
    ensures Valid(r) && r.b == d.b
    ensures Elems(r) == [v] + Elems(d)
    ensures NodeCount(r) == NodeCount(d) + (if d.start.cur == 0 then 1 else 0)
  {
    if d.start.cur != 0 then
      PushFrontHereOk(d, v);
      PushFrontHere(d, v)
    else
      var e := ReserveMapAtFront(d, 1);
      PushFrontGrowOk(e, v);
      PushFrontGrow(e, v)
  }

  // pop_back when `finish` is past the front of its buffer: `--finish.cur`.

  function PopBackHere(d: Deque): Deque
    requires Valid(d) && d.finish.cur > 0
  {
    Deque(d.b, d.nodes, d.start, Iter(d.finish.node, d.finish.cur - 1))
  }

  lemma PopBackHereOk(d: Deque)
    requires Valid(d) && d.finish.cur > 0 && Elems(d) != []
    ensures Valid(PopBackHere(d)) && Elems(PopBackHere(d)) == Elems(d)[..|Elems(d)| - 1]
  {
    var r := PopBackHere(d);
    var F := Flatten(Window(d));
    assert Window(r) == Window(d);
    ElemsShape(d, F, Off(d));
    ElemsShape(r, F, Off(d) - 1);
  }

  // pop_back when `finish` is at the front of its buffer: release that buffer and
  // move `finish` to the last slot of the one before.

  function PopBackRelease(d: Deque): Deque
    requires Valid(d) && d.finish.cur == 0 && d.start.node < d.finish.node
  {
    Deque(d.b, d.nodes[d.finish.node := Free], d.start, Iter(d.finish.node - 1, d.b - 1))
  }

  lemma PopBackReleaseWindow(d: Deque)
    requires Valid(d) && d.finish.cur == 0 && d.start.node < d.finish.node
    ensures var r := PopBackRelease(d);
      && Valid(r)
      && 0 <= r.start.node <= r.finish.node < |r.nodes|
      && Window(r) == Window(d)[..NodeCount(d) - 1]
  {
    AllBuffersSlice(Window(d), 0, NodeCount(d) - 1, d.b);
    assert Window(PopBackRelease(d)) == Window(d)[..NodeCount(d) - 1];
  }

  lemma PopBackReleaseFlat(d: Deque)
    requires Valid(d) && d.finish.cur == 0 && d.start.node < d.finish.node
    ensures var r := PopBackRelease(d);
      && 0 <= r.start.node <= r.finish.node < |r.nodes|
      && Flatten(Window(d)) == Flatten(Window(r)) + Data(Window(d)[NodeCount(d) - 1])
  {
    PopBackReleaseWindow(d);
  }

  lemma PopBackReleaseOk(d: Deque)
    requires Valid(d) && d.finish.cur == 0 && d.start.node < d.finish.node && Elems(d) != []
    ensures Valid(PopBackRelease(d)) && Elems(PopBackRelease(d)) == Elems(d)[..|Elems(d)| - 1]
  {
    var r := PopBackRelease(d);
    var p := Flatten(Window(r));
    var t := Data(Window(d)[NodeCount(d) - 1]);
    PopBackReleaseWindow(d);
    PopBackReleaseFlat(d);
    ElemsShape(d, p + t, |p|);
    ElemsShape(r, p, |p| - 1);
    SliceInside(p, t, d.start.cur, |p|);
  }

  /**
   * `pop_back()`: step `finish` back; when it was at the front of its buffer, that
   * buffer is released and `finish` moves to the last slot of the one before.
   */
  function PopBack(d: Deque): (r: Deque)
    requires Valid(d) && !IsEmpty(d)
    ensures Valid(r) && r.b == d.b
    ensures Elems(r) == Elems(d)[..|Elems(d)| - 1]
    ensures |r.nodes| == |d.nodes|
    ensures NodeCount(r) == NodeCount(d) - (if d.finish.cur == 0 then 1 else 0)
    ensures d.finish.cur == 0 ==> r.nodes[d.finish.node] == Free
  {
    if d.finish.cur != 0 then
      PopBackHereOk(d);
      PopBackHere(d)
    else
      ElemsShape(d, Flatten(Window(d)), Off(d));
      PopBackReleaseOk(d);
      PopBackRelease(d)
  }

  // pop_front when `start` is before the last slot of its buffer: `++start.cur`.

  function PopFrontHere(d: Deque): Deque
    requires Valid(d) && d.start.cur < d.b - 1
  {
    Deque(d.b, d.nodes, Iter(d.start.node, d.start.cur + 1), d.finish)
  }

  lemma PopFrontHereOk(d: Deque)
    requires Valid(d) && d.start.cur < d.b - 1 && Elems(d) != []
    ensures Valid(PopFrontHere(d)) && Elems(PopFrontHere(d)) == Elems(d)[1..]
  {
    var r := PopFrontHere(d);
    var F := Flatten(Window(d));
    assert Window(r) == Window(d);
    ElemsShape(d, F, Off(d));
    ElemsShape(r, F, Off(d));
  }

  // pop_front when `start` is on the last slot of its buffer: release that buffer
  // and move `start` to the front of the next.

  function PopFrontRelease(d: Deque): Deque
    requires Valid(d) && d.start.cur == d.b - 1 && d.start.node < d.finish.node
  {
    Deque(d.b, d.nodes[d.start.node := Free], Iter(d.start.node + 1, 0), d.finish)
  }

  lemma PopFrontReleaseWindow(d: Deque)
    requires Valid(d) && d.start.cur == d.b - 1 && d.start.node < d.finish.node
    ensures var r := PopFrontRelease(d);
      && Valid(r)
      && 0 <= r.start.node <= r.finish.node < |r.nodes|
      && Window(r) == Window(d)[1..] && Window(d) == [Window(d)[0]] + Window(d)[1..]
  {
    AllBuffersSlice(Window(d), 1, NodeCount(d), d.b);
    assert Window(PopFrontRelease(d)) == Window(d)[1..];
  }

  lemma PopFrontReleaseFlat(d: Deque)
    requires Valid(d) && d.start.cur == d.b - 1 && d.start.node < d.finish.node
    ensures var r := PopFrontRelease(d);
      && 0 <= r.start.node <= r.finish.node < |r.nodes|
      && Flatten(Window(d)) == Window(d)[0].data + Flatten(Window(r))
  {
    PopFrontReleaseWindow(d);
    FlattenCons(Window(d)[0], Window(d)[1..]);
  }

  lemma PopFrontReleaseOk(d: Deque)
    requires Valid(d) && d.start.cur == d.b - 1 && d.start.node < d.finish.node && Elems(d) != []
    ensures Valid(PopFrontRelease(d)) && Elems(PopFrontRelease(d)) == Elems(d)[1..]
  {
    var r := PopFrontRelease(d);
    var a := Window(d)[0].data;
    var G := Flatten(Window(r));
    PopFrontReleaseWindow(d);
    PopFrontReleaseFlat(d);
    ElemsShape(d, a + G, d.b + Off(r));
    ElemsShape(r, G, Off(r));
    SliceAcross(a, G, Off(r));
  }

  /**
   * `pop_front()`: step `start` forward; when it was on the last slot of its
   * buffer, that buffer is released and `start` moves to the front of the next.
   */
  function PopFront(d: Deque): (r: Deque)
    requires Valid(d) && !IsEmpty(d)
    ensures Valid(r) && r.b == d.b
    ensures Elems(r) == Elems(d)[1..]
    ensures |r.nodes| == |d.nodes|
    ensures NodeCount(r) == NodeCount(d) - (if d.start.cur == d.b - 1 then 1 else 0)
    ensures d.start.cur == d.b - 1 ==> r.nodes[d.start.node] == Free
  {
    if d.start.cur != d.b - 1 then
      PopFrontHereOk(d);
      PopFrontHere(d)
    else
      ElemsShape(d, Flatten(Window(d)), Off(d));
      PopFrontReleaseOk(d);
      PopFrontRelease(d)
  }

  /** The deque `clear()` leaves: only the first buffer kept, both iterators at its front. */
  function Cleared(d: Deque): Deque
    requires Valid(d)
  {
    var s := d.start.node;
    var m := seq(|d.nodes|, i requires 0 <= i < |d.nodes| => if s < i <= d.finish.node then Free else d.nodes[i]);
    Deque(d.b, m, Iter(s, 0), Iter(s, 0))
  }

  lemma ClearedWindow(d: Deque)
    requires Valid(d)
    ensures var r := Cleared(d);
      && |r.nodes| == |d.nodes| && 0 <= r.start.node == r.finish.node < |r.nodes|
      && Window(r) == [d.nodes[d.start.node]]
  {
  }

  lemma ClearedOk(d: Deque)
    requires Valid(d)
    ensures Valid(Cleared(d)) && Elems(Cleared(d)) == []
  {
    var r := Cleared(d);
    ClearedWindow(d);
    FlattenSnoc([], d.nodes[d.start.node]);
    assert [] + [d.nodes[d.start.node]] == [d.nodes[d.start.node]];
    ElemsShape(r, Data(d.nodes[d.start.node]), 0);
  }

  /**
   * `clear()`: every buffer but the first is released, and both iterators go to
   * the front of that first buffer.
   */
  function Clear(d: Deque): (r: Deque)
    requires Valid(d)
    ensures Valid(r) && r.b == d.b && |r.nodes| == |d.nodes|
    ensures Elems(r) == [] && IsEmpty(r)
    ensures NodeCount(r) == 1 && r.start.node == d.start.node
    ensures r.nodes[r.start.node] == d.nodes[d.start.node]
    ensures forall i :: d.start.node < i <= d.finish.node ==> r.nodes[i] == Free
  {
    ClearedOk(d);
    Cleared(d)
  }
}
