/**
 * The binary max-heap algorithms of heap.h over a random-access range, modelled
 * on `seq<int>`: each algorithm returns the range after its writes.  Element
 * comparison is `<` on integers.
 */
module Heap {

  /** The parent of position `i > 0` in the implicit binary tree. */
  function Parent(i: nat): nat
    requires i > 0
  {
    (i - 1) / 2
  }

  /** Every position below `len` whose parent is at `lo` or above is no greater than its parent. */
  ghost predicate HeapFrom(a: seq<int>, lo: nat, len: nat)
    requires len <= |a|
  {
    forall j :: 0 < j < len && Parent(j) >= lo ==> a[Parent(j)] >= a[j]
  }

  /** `a[0 .. len)` is a max-heap. */
  ghost predicate IsHeap(a: seq<int>, len: nat)
    requires len <= |a|
  {
    HeapFrom(a, 0, len)
  }

  ghost predicate Sorted(s: seq<int>)
  {
    forall i, j :: 0 <= i < j < |s| ==> s[i] <= s[j]
  }

  /** Moving a value into a hole and the hole's old occupant elsewhere keeps the multiset. */
  lemma MoveIntoHole(s: seq<int>, hole: nat, from: nat, v: int)
    requires hole < |s| && from < |s| && hole != from
    ensures multiset(s[hole := s[from]][from := v]) == multiset(s[hole := v])
  {
    var t := s[hole := v];
    assert s[hole := s[from]][from := v] == t[hole := t[from]][from := t[hole]];
    SwapKeepsMultiset(t, hole, from);
  }

  lemma SwapKeepsMultiset(t: seq<int>, i: nat, j: nat)
    requires i < |t| && j < |t| && i != j
    ensures multiset(t[i := t[j]][j := t[i]]) == multiset(t)
  {
    var u := t[i := t[j]][j := t[i]];
    assert multiset(t[i := t[j]]) == multiset(t) - multiset{t[i]} + multiset{t[j]};
    assert multiset(u) == multiset(t[i := t[j]]) - multiset{t[j]} + multiset{t[i]};
  }

  /** The positions the hole of a sift-up passes through, from `h` up to `top`. */
  function PathUp(h: nat, top: nat): set<nat>
    decreases h
  {
    if h > top then {h} + PathUp(Parent(h), top) else {h}
  }

  /**
   * The sift-up invariant: the hole is on the path up from `hole0`, the range
   * holds `a`'s elements with `value` in the hole, nothing off the path has
   * changed, every parent dominates its child except across the still-empty
   * starting hole, and `value` dominates the hole's children.
   */
  ghost predicate SiftUpInv(a: seq<int>, hole0: nat, top: nat, value: int, r: seq<int>, hole: nat)
  {
    && hole <= hole0 < |a| && |r| == |a|
    && multiset(r[hole := value]) == multiset(a[hole0 := value])
    && PathUp(hole, top) <= PathUp(hole0, top)
    && (forall k :: 0 <= k < |a| && k !in PathUp(hole0, top) ==> r[k] == a[k])
    && UpOrdered(r, hole0, hole)
    && ChildrenAtMost(r, hole0, hole, value)
  }

  /** Up to `hole0`, every position is no greater than its parent, except `hole0` while it is the hole. */
  ghost predicate UpOrdered(r: seq<int>, hole0: nat, hole: nat)
    requires hole0 < |r|
  {
    forall j :: 0 < j <= hole0 && !(j == hole0 && hole == hole0) ==> r[Parent(j)] >= r[j]
  }

  /** The hole's children up to `hole0` are at most `value`. */
  ghost predicate ChildrenAtMost(r: seq<int>, hole0: nat, hole: nat, value: int)
    requires hole0 < |r|
  {
    forall j :: 0 < j <= hole0 && Parent(j) == hole ==> r[j] <= value
  }

  /** Moving the parent down into the hole keeps the order facts, with the hole one level up. */
  lemma SiftUpOrderStep(r: seq<int>, hole0: nat, hole: nat, value: int)
    requires 0 < hole <= hole0 < |r| && r[Parent(hole)] < value
    requires UpOrdered(r, hole0, hole) && ChildrenAtMost(r, hole0, hole, value)
    ensures UpOrdered(r[hole := r[Parent(hole)]], hole0, Parent(hole))
    ensures ChildrenAtMost(r[hole := r[Parent(hole)]], hole0, Parent(hole), value)
  {
    var p := Parent(hole);
    var r' := r[hole := r[p]];
    forall j | 0 < j <= hole0 && !(j == hole0 && p == hole0)
      ensures r'[Parent(j)] >= r'[j]
    {
      if j == hole {
      } else if Parent(j) == hole {
        assert r[hole] >= r[j];
        assert !(hole == hole0 && j == hole0);
        if hole < hole0 {
          assert r[p] >= r[hole];
        }
      }
    }
    forall j | 0 < j <= hole0 && Parent(j) == p
      ensures r'[j] <= value
    {
      if j != hole {
        assert r[p] >= r[j];
      }
    }
  }

  /** One step of the sift-up loop: the parent moves down into the hole. */
  lemma SiftUpStep(a: seq<int>, hole0: nat, top: nat, value: int, r: seq<int>, hole: nat)
    requires SiftUpInv(a, hole0, top, value, r, hole)
    requires hole > top && r[Parent(hole)] < value
    ensures SiftUpInv(a, hole0, top, value, r[hole := r[Parent(hole)]], Parent(hole))
  {
    var p := Parent(hole);
    MoveIntoHole(r, hole, p, value);
    assert PathUp(hole, top) == {hole} + PathUp(p, top);
    SiftUpOrderStep(r, hole0, hole, value);
  }

  /**
   * `push_heap_aux`: sift `value` up from `holeIndex` towards `topIndex`.  Only
   * positions on the path up from the hole are written, the multiset gains `value`
   * in place of the hole's old content, and with `top == 0` the prefix up to and
   * including the hole becomes a heap.  The hole moves strictly up each step.
   */
  method PushHeapAux(a: seq<int>, hole0: nat, top: nat, value: int) returns (r: seq<int>)
    requires top <= hole0 < |a|
    requires HeapFrom(a, 0, hole0)
    ensures |r| == |a|
    ensures multiset(r) == multiset(a[hole0 := value])
    ensures forall k :: 0 <= k < |a| && k !in PathUp(hole0, top) ==> r[k] == a[k]
    ensures top == 0 ==> IsHeap(r, hole0 + 1)
  {
    r := a;
    var hole: nat := hole0;
    while hole > top && r[Parent(hole)] < value
      invariant SiftUpInv(a, hole0, top, value, r, hole)
      decreases hole
    {
      SiftUpStep(a, hole0, top, value, r, hole);
      r := r[hole := r[Parent(hole)]];
      hole := Parent(hole);
    }
    SiftUpFinish(a, hole0, top, value, r, hole);
    r := r[hole := value];
  }

  /** Writing `value` into the hole where the sift-up stopped. */
  lemma SiftUpFinish(a: seq<int>, hole0: nat, top: nat, value: int, r: seq<int>, hole: nat)
    requires SiftUpInv(a, hole0, top, value, r, hole)
    requires !(hole > top && r[Parent(hole)] < value)
    ensures multiset(r[hole := value]) == multiset(a[hole0 := value])
    ensures forall k :: 0 <= k < |a| && k !in PathUp(hole0, top) ==> r[hole := value][k] == a[k]
    ensures top == 0 ==> IsHeap(r[hole := value], hole0 + 1)
  {
    assert hole in PathUp(hole, top);
  }

  /**
   * The sift-down invariant: the hole is at or below `hole0`, the range holds
   * `a`'s elements with `value` in the hole, nothing before `hole0` or from `len`
   * on has changed, every parent from `hole0` on dominates its children except the
   * hole, and the hole's parent dominates both `value` and the hole's children.
   */
  ghost predicate SiftDownInv(a: seq<int>, hole0: nat, len: nat, value: int, r: seq<int>, hole: nat)
  {
    && hole0 <= hole && (hole < len || hole == hole0) && hole0 <= len && hole0 < |a| && len <= |a| && |r| == |a|
    && multiset(r[hole := value]) == multiset(a[hole0 := value])
    && (forall k :: 0 <= k < hole0 ==> r[k] == a[k])
    && (forall k :: len <= k < |a| ==> r[k] == a[k])
    && OrderedExcept(r, hole0, len, hole)
    && (hole > hole0 ==> r[Parent(hole)] >= value)
    && (hole > hole0 ==> ParentCovers(r, len, hole))
  }

  /** Every parent at or after `lo` dominates its children within `[0, len)`, except `hole`. */
  ghost predicate OrderedExcept(r: seq<int>, lo: nat, len: nat, hole: nat)
    requires len <= |r|
  {
    forall j :: 0 < j < len && Parent(j) >= lo && Parent(j) != hole ==> r[Parent(j)] >= r[j]
  }

  /** The parent of `hole` dominates the hole's children within `[0, len)`. */
  ghost predicate ParentCovers(r: seq<int>, len: nat, hole: nat)
    requires 0 < hole < |r| && len <= |r|
  {
    forall j :: 0 < j < len && Parent(j) == hole ==> r[Parent(hole)] >= r[j]
  }

  /** The larger child of `hole` when both children are in range (the left one only if strictly larger). */
  function LargerChild(r: seq<int>, hole: nat): (c: nat)
    requires 2 * hole + 2 < |r|
    ensures c == 2 * hole + 1 || c == 2 * hole + 2
    ensures r[c] >= r[2 * hole + 1] && r[c] >= r[2 * hole + 2]
  {
    if r[2 * hole + 2] < r[2 * hole + 1] then 2 * hole + 1 else 2 * hole + 2
  }

  /** The ordering half of a sift-down step: the larger child's value in the hole dominates both children. */
  lemma SiftDownStepOrder(r: seq<int>, hole0: nat, len: nat, hole: nat, c: nat)
    requires len <= |r| && hole0 <= hole && 2 * hole + 2 < len && c == LargerChild(r, hole)
    requires OrderedExcept(r, hole0, len, hole)
    requires hole > hole0 ==> ParentCovers(r, len, hole)
    ensures OrderedExcept(r[hole := r[c]], hole0, len, c)
    ensures ParentCovers(r[hole := r[c]], len, c)
  {
    var r' := r[hole := r[c]];
    forall j | 0 < j < len && Parent(j) >= hole0 && Parent(j) != c
      ensures r'[Parent(j)] >= r'[j]
    {
      if Parent(j) == hole {
      } else if j == hole {
        assert ParentCovers(r, len, hole);
      }
    }
    assert Parent(c) == hole;
    forall j | 0 < j < len && Parent(j) == c
      ensures r'[Parent(c)] >= r'[j]
    {
      assert r[Parent(j)] >= r[j];
    }
  }

  /** One step of the sift-down loop: the larger child, not less than `value`, moves up. */
  lemma SiftDownStep(a: seq<int>, hole0: nat, len: nat, value: int, r: seq<int>, hole: nat, c: nat)
    requires SiftDownInv(a, hole0, len, value, r, hole)
    requires 2 * hole + 2 < len && c == LargerChild(r, hole)
    requires r[c] >= value
    ensures SiftDownInv(a, hole0, len, value, r[hole := r[c]], c)
  {
    MoveIntoHole(r, hole, c, value);
    SiftDownStepOrder(r, hole0, len, hole, c);
    assert Parent(c) == hole;
  }

  /** What a finished sift-down guarantees: the postcondition of `PopHeapAux`. */
  ghost predicate SiftDownDone(a: seq<int>, hole0: nat, len: nat, value: int, r: seq<int>)
    requires hole0 < |a| && len <= |a|
  {
    && |r| == |a|
    && multiset(r) == multiset(a[hole0 := value])
    && (forall k :: 0 <= k < hole0 ==> r[k] == a[k])
    && (hole0 < len ==> r[len..] == a[len..])
    && (hole0 == len ==> r == a[hole0 := value])
    && HeapFrom(r, hole0, len)
  }

  /** The invariant's guarantees about the untouched ends, read back as sequence facts. */
  lemma SiftDownEnds(a: seq<int>, hole0: nat, len: nat, value: int, r: seq<int>, hole: nat, r': seq<int>)
    requires SiftDownInv(a, hole0, len, value, r, hole)
    requires |r'| == |r| && forall k :: 0 <= k < |r| && k != hole && (k < hole0 || k >= len) ==> r'[k] == r[k]
    requires hole0 == len ==> r' == r[hole := value]
    ensures forall k :: 0 <= k < hole0 ==> r'[k] == a[k]
    ensures hole0 < len ==> r'[len..] == a[len..]
    ensures hole0 == len ==> r' == a[hole0 := value]
  {
    if hole0 < len {
      assert forall k :: 0 <= k < |a| - len ==> r'[len..][k] == a[len..][k];
    } else {
      assert hole == hole0;
      forall k | 0 <= k < |a|
        ensures r'[k] == a[hole0 := value][k]
      {
        if k != hole0 {
          assert r'[k] == r[k];
        }
      }
    }
  }

  /** Writing `value` into the hole when it is not less than the hole's larger child. */
  lemma SiftDownStop(a: seq<int>, hole0: nat, len: nat, value: int, r: seq<int>, hole: nat, c: nat)
    requires SiftDownInv(a, hole0, len, value, r, hole)
    requires 2 * hole + 2 < len && c == LargerChild(r, hole)
    requires r[c] < value
    ensures SiftDownDone(a, hole0, len, value, r[hole := value])
  {
    var r' := r[hole := value];
    forall j | 0 < j < len && Parent(j) >= hole0
      ensures r'[Parent(j)] >= r'[j]
    {
      if Parent(j) == hole {
      } else if j == hole {
      }
    }
    SiftDownEnds(a, hole0, len, value, r, hole, r');
  }

  /** Finishing a sift-down whose hole has no child in range larger than `value`. */
  lemma SiftDownLeafStop(a: seq<int>, hole0: nat, len: nat, value: int, r: seq<int>, hole: nat)
    requires SiftDownInv(a, hole0, len, value, r, hole)
    requires 2 * hole + 2 >= len
    requires !(2 * hole + 2 == len && value < r[len - 1])
    ensures SiftDownDone(a, hole0, len, value, r[hole := value])
  {
    var r' := r[hole := value];
    forall j | 0 < j < len && Parent(j) >= hole0
      ensures r'[Parent(j)] >= r'[j]
    {
      if Parent(j) == hole {
        assert j == len - 1 && 2 * hole + 2 == len;
      } else if j == hole {
      }
    }
    SiftDownEnds(a, hole0, len, value, r, hole, r');
  }

  /** Finishing a sift-down whose hole has only a left child, larger than `value`: that child moves up. */
  lemma SiftDownLeafMove(a: seq<int>, hole0: nat, len: nat, value: int, r: seq<int>, hole: nat)
    requires SiftDownInv(a, hole0, len, value, r, hole)
    requires 2 * hole + 2 == len && value < r[len - 1]
    ensures SiftDownDone(a, hole0, len, value, r[hole := r[len - 1]][len - 1 := value])
  {
    var r'' := r[hole := r[len - 1]][len - 1 := value];
    MoveIntoHole(r, hole, len - 1, value);
    LeafMoveOrder(r, hole0, len, value, hole);
    SiftDownEnds(a, hole0, len, value, r, hole, r'');
  }

  /** The order half of `SiftDownLeafMove`: the lone child moves up and `value` takes its place. */
  lemma LeafMoveOrder(r: seq<int>, hole0: nat, len: nat, value: int, hole: nat)
    requires len <= |r| && hole0 <= hole && 2 * hole + 2 == len && value < r[len - 1]
    requires OrderedExcept(r, hole0, len, hole)
    requires hole > hole0 ==> ParentCovers(r, len, hole)
    ensures HeapFrom(r[hole := r[len - 1]][len - 1 := value], hole0, len)
  {
    var r'' := r[hole := r[len - 1]][len - 1 := value];
    forall j | 0 < j < len && Parent(j) >= hole0
      ensures r''[Parent(j)] >= r''[j]
    {
      if Parent(j) == hole {
        assert j == len - 1;
      } else if j == hole {
      } else if j == len - 1 {
      }
    }
  }

  /**
   * `pop_heap_aux`: sift `value` down from `holeIndex` within `[0, len)`, moving
   * the larger child up while it is not less than `value`; a last node with only a
   * left child is handled after the loop.  If the subtrees below the hole are heaps,
   * everything from the hole down becomes one; nothing before the hole and nothing
   * from `len` on is written.
   */
  method PopHeapAux(a: seq<int>, hole0: nat, len: nat, value: int) returns (r: seq<int>)
    requires hole0 < |a| && len <= |a| && hole0 <= len
    requires HeapFrom(a, hole0 + 1, len)
    ensures |r| == |a|
    ensures multiset(r) == multiset(a[hole0 := value])
    ensures forall k :: 0 <= k < hole0 ==> r[k] == a[k]
    ensures hole0 < len ==> r[len..] == a[len..]
    ensures hole0 == len ==> r == a[hole0 := value]
    ensures HeapFrom(r, hole0, len)
  {
    r := a;
    var hole: nat := hole0;
    var child: nat := 2 * hole + 2;
    while child < len
      invariant SiftDownInv(a, hole0, len, value, r, hole)
      invariant child == 2 * hole + 2
      decreases len - hole
    {
      if r[child] < r[child - 1] {
        child := child - 1;
      }
      if r[child] < value {
        SiftDownStop(a, hole0, len, value, r, hole, child);
        r := r[hole := value];
        return;
      }
      SiftDownStep(a, hole0, len, value, r, hole, child);
      r := r[hole := r[child]];
      hole := child;
      child := 2 * hole + 2;
    }
    SiftDownLeafDone(a, hole0, len, value, r, hole);
    r := LeafFill(r, hole, len, value);
  }

  /**
   * The end of `pop_heap_aux` once the hole has no right child in range: a lone
   * left child larger than `value` moves up, then `value` fills the hole.
   */
  function LeafFill(r: seq<int>, hole: nat, len: nat, value: int): seq<int>
    requires hole < |r| && len <= |r| && 2 * hole + 2 >= len
  {
    if 2 * hole + 2 == len && value < r[len - 1] then r[hole := r[len - 1]][len - 1 := value]
    else r[hole := value]
  }

  /** `LeafFill` completes a sift-down. */
  lemma SiftDownLeafDone(a: seq<int>, hole0: nat, len: nat, value: int, r: seq<int>, hole: nat)
    requires SiftDownInv(a, hole0, len, value, r, hole)
    requires 2 * hole + 2 >= len
    ensures SiftDownDone(a, hole0, len, value, LeafFill(r, hole, len, value))
  {
    if 2 * hole + 2 == len && value < r[len - 1] {
      SiftDownLeafMove(a, hole0, len, value, r, hole);
    } else {
      SiftDownLeafStop(a, hole0, len, value, r, hole);
    }
  }

  /**
   * `push_heap(first, first + n)`: the new element at `n - 1` joins the heap
   * `[0, n - 1)`; afterwards `[0, n)` is a heap of the same elements.
   */
  method PushHeap(a: seq<int>, n: nat) returns (r: seq<int>)
    requires 1 <= n <= |a|
    requires IsHeap(a, n - 1)
    ensures |r| == |a| && r[n..] == a[n..]
    ensures multiset(r) == multiset(a)
    ensures multiset(r[..n]) == multiset(a[..n])
    ensures IsHeap(r, n)
  {
    var value := a[n - 1];
    assert a[n - 1 := value] == a;
    r := PushHeapAux(a, n - 1, 0, value);
    forall k | n <= k < |a|
      ensures r[k] == a[k]
    {
      PathUpBelow(n - 1, 0, k);
    }
    PrefixMultiset(a, r, n);
  }

  /** Every position on a path up from `h` is at most `h`. */
  lemma {:induction false} PathUpBelow(h: nat, top: nat, k: nat)
    requires k > h
    ensures k !in PathUp(h, top)
    decreases h
  {
    if h > top {
      PathUpBelow(Parent(h), top, k);
    }
  }

  /** Equal suffixes and equal multisets give equal prefix multisets. */
  lemma PrefixMultiset(a: seq<int>, r: seq<int>, n: nat)
    requires |a| == |r| && n <= |a|
    requires multiset(r) == multiset(a) && r[n..] == a[n..]
    ensures multiset(r[..n]) == multiset(a[..n])
  {
    assert a == a[..n] + a[n..];
    assert r == r[..n] + r[n..];
    assert multiset(a) == multiset(a[..n]) + multiset(a[n..]);
    assert multiset(r) == multiset(r[..n]) + multiset(a[n..]);
    forall x
      ensures multiset(r[..n])[x] == multiset(a[..n])[x]
    {
      assert multiset(r)[x] == multiset(a)[x];
    }
  }

  /**
   * `pop_heap(first, first + n)`: the maximum moves to `n - 1` and `[0, n - 1)`
   * is again a heap of the remaining elements.
   */
  method PopHeap(a: seq<int>, n: nat) returns (r: seq<int>)
    requires 1 <= n <= |a|
    requires IsHeap(a, n)
    ensures |r| == |a| && r[n..] == a[n..]
    ensures r[n - 1] == a[0]
    ensures multiset(r) == multiset(a)
    ensures multiset(r[..n]) == multiset(a[..n])
    ensures IsHeap(r, n - 1)
  {
    var len := n - 1;
    var value := a[len];
    var b := a[len := a[0]];
    r := PopHeapAux(b, 0, len, value);
    if len > 0 {
      assert r[len] == b[len];
    }
    assert b[0 := value] == a[len := a[0]][0 := a[len]];
    if len > 0 {
      SwapKeepsMultiset(a, len, 0);
      assert a[len := a[0]][0 := a[len]] == a[len := a[0]][0 := a[len]];
    }
    assert multiset(r) == multiset(a);
    PrefixMultiset(a, r, n);
  }

  /**
   * `make_heap`: ranges shorter than 2 are left alone; otherwise every non-leaf,
   * from `(len - 2) / 2` down to the root, is sifted down with a copy of its value,
   * and the whole range becomes a heap of the same elements.
   */
  method MakeHeap(a: seq<int>) returns (r: seq<int>)
    ensures multiset(r) == multiset(a)
    ensures |r| == |a|
    ensures IsHeap(r, |r|)
    ensures |a| < 2 ==> r == a
  {
    r := a;
    var len := |a|;
    if len < 2 {
      return;
    }
    var hole: int := (len - 2) / 2;
    while hole >= 0
      invariant -1 <= hole <= (len - 2) / 2
      invariant |r| == len
      invariant multiset(r) == multiset(a)
      invariant HeapFrom(r, hole + 1, len)
      decreases hole + 1
    {
      var value := r[hole];
      assert r[hole := value] == r;
      r := PopHeapAux(r, hole, len, value);
      hole := hole - 1;
    }
  }

  /** The root of a heap is its maximum. */
  lemma {:induction false} RootIsMax(a: seq<int>, n: nat, i: nat)
    requires n <= |a| && IsHeap(a, n)
    requires i < n
    ensures a[0] >= a[i]
    decreases i
  {
    if i > 0 {
      RootIsMax(a, n, Parent(i));
    }
  }

  /**
   * `sort_heap`: repeatedly pop the maximum of the shrinking heap to its end; the
   * range ends sorted in non-decreasing order, a permutation of the input.
   */
  method SortHeap(a: seq<int>) returns (r: seq<int>)
    requires IsHeap(a, |a|)
    ensures multiset(r) == multiset(a)
    ensures |r| == |a|
    ensures Sorted(r)
  {
    r := a;
    var n := |a|;
    while n > 1
      invariant 0 <= n <= |a| && |r| == |a|
      invariant multiset(r) == multiset(a)
      invariant IsHeap(r, n)
      invariant Sorted(r[n..])
      invariant forall i, j :: 0 <= i < n <= j < |r| ==> r[i] <= r[j]
      decreases n
    {
      ghost var before := r;
      r := PopHeap(r, n);
      forall i | 0 <= i < n
        ensures r[i] <= r[n - 1]
      {
        assert r[i] in multiset(r[..n]);
        MaxOfPrefix(before, n, r[i]);
      }
      n := n - 1;
    }
    if n == 1 {
      assert r == r[..1] + r[1..];
    }
  }

  /** Every element of a heap's range is at most the root. */
  lemma MaxOfPrefix(a: seq<int>, n: nat, x: int)
    requires 1 <= n <= |a| && IsHeap(a, n)
    requires x in multiset(a[..n])
    ensures x <= a[0]
  {
    var i :| 0 <= i < n && a[..n][i] == x;
    RootIsMax(a, n, i);
  }

  // ---- make_heap as written: the sifted value aliases the hole's slot ----

  /**
   * `pop_heap_aux` as make_heap calls it: `value` is a reference to the slot at
   * `at`, so each read of it sees whatever was last written there.
   */
  function SiftDownAliased(a: seq<int>, at: nat, hole: nat, len: nat): (r: seq<int>)
    requires at <= hole < len <= |a|
    ensures |r| == |a|
    decreases len - hole
  {
    var child: nat := 2 * hole + 2;
    if child < len then
      var c := if a[child] < a[child - 1] then child - 1 else child;
      if a[c] < a[at] then a[hole := a[at]]
      else SiftDownAliased(a[hole := a[c]], at, c, len)
    else if child == len && a[at] < a[child - 1] then
      var b := a[hole := a[child - 1]];
      b[child - 1 := b[at]]
    else a[hole := a[at]]
  }

  /** The make_heap loop as written, from hole `h` down to the root. */
  function MakeHeapAliasedFrom(a: seq<int>, h: int, len: nat): (r: seq<int>)
    requires -1 <= h < len <= |a|
    ensures |r| == |a|
    decreases h + 1
  {
    if h < 0 then a else MakeHeapAliasedFrom(SiftDownAliased(a, h, h, len), h - 1, len)
  }

  /** `make_heap` as written: the loop of `MakeHeapAliasedFrom` from the last parent down to the root. */
  function MakeHeapAsWritten(a: seq<int>): (r: seq<int>)
    ensures |r| == |a|
    ensures |a| < 2 ==> r == a
  {
    if |a| < 2 then a else MakeHeapAliasedFrom(a, (|a| - 2) / 2, |a|)
  }

  /** As written, make_heap on [1, 2, 3] duplicates 3 and loses 1. */
  lemma MakeHeapAsWrittenLosesElements()
    ensures MakeHeapAsWritten([1, 2, 3]) == [3, 2, 3]
    ensures multiset(MakeHeapAsWritten([1, 2, 3])) != multiset([1, 2, 3])
  {
    assert SiftDownAliased([1, 2, 3], 0, 0, 3) == SiftDownAliased([3, 2, 3], 0, 2, 3);
    assert multiset([3, 2, 3])[1] == 0;
  }
}
