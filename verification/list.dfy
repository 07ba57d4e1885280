/**
 * The operations of list.h on the element sequence of a list, `begin()` to
 * `end()`.  Each step the algorithms take is one node operation whose effect on
 * the sequence is proved in ListRing and ListTransfer: `insert` is `InsertAt`,
 * `erase` is `RemoveAt`, a splice inside one list is `MoveBefore`, and a splice
 * from another list is `SpliceIn` on the receiving list and `Cut` on the giving one.
 *
 * The ordered algorithms (`merge`, `sort`) compare with `operator<`; elements are
 * modelled as an `Item` whose `key` is what `<` looks at and whose `tag` it does
 * not, so that the order among equal keys (stability) is observable.
 */
module List {
  import opened ListRing
  import opened ListTransfer
  import SeqAlgorithms

  datatype Item = Item(key: int, tag: int)

  /** `*x < *y`. */
  predicate Less(x: Item, y: Item)
  {
    x.key < y.key
  }

  /** Ascending by key. */
  ghost predicate Sorted(s: seq<Item>)
  {
    forall i, j :: 0 <= i < j < |s| ==> s[i].key <= s[j].key
  }

  /** No element of `s` has a key below `k`. */
  ghost predicate AtLeast(k: int, s: seq<Item>)
  {
    forall i :: 0 <= i < |s| ==> k <= s[i].key
  }

  /** The elements of `s` with key `k`, in their order in `s`. */
  function Filter(k: int, s: seq<Item>): (r: seq<Item>)
    ensures |r| <= |s|
  {
    if s == [] then []
    else (if s[0].key == k then [s[0]] else []) + Filter(k, s[1..])
  }

  /**
   * `x` and `y` hold the same elements and, among elements with equal keys, in
   * the same order: what a stable rearrangement keeps.
   */
  ghost predicate StableEq(x: seq<Item>, y: seq<Item>)
  {
    forall k :: Filter(k, x) == Filter(k, y)
  }

  lemma {:induction false} FilterAppend(k: int, x: seq<Item>, y: seq<Item>)
    ensures Filter(k, x + y) == Filter(k, x) + Filter(k, y)
  {
    if x == [] {
      assert x + y == y;
    } else {
      var h := if x[0].key == k then [x[0]] else [];
      assert (x + y)[0] == x[0] && (x + y)[1..] == x[1..] + y;
      assert Filter(k, x + y) == h + Filter(k, x[1..] + y);
      FilterAppend(k, x[1..], y);
      assert Filter(k, x) == h + Filter(k, x[1..]);
    }
  }

  /** Every element with key `k` is in `Filter(k, s)` as often as in `s`. */
  lemma {:induction false} FilterCount(v: Item, s: seq<Item>)
    ensures multiset(Filter(v.key, s))[v] == multiset(s)[v]
  {
    if s != [] {
      FilterCount(v, s[1..]);
      assert s == [s[0]] + s[1..];
    }
  }

  /** A stable rearrangement is a permutation. */
  lemma StableEqPermutation(x: seq<Item>, y: seq<Item>)
    requires StableEq(x, y)
    ensures multiset(x) == multiset(y) && |x| == |y|
  {
    forall v ensures multiset(x)[v] == multiset(y)[v] {
      FilterCount(v, x);
      FilterCount(v, y);
      assert Filter(v.key, x) == Filter(v.key, y);
    }
    assert multiset(x) == multiset(y);
    assert |multiset(x)| == |x| && |multiset(y)| == |y|;
  }

  /** A sorted sequence whose first key is above `k` holds no element with key `k`. */
  lemma {:induction false} FilterAbove(k: int, s: seq<Item>)
    requires Sorted(s) && s != [] && k < s[0].key
    ensures Filter(k, s) == []
  {
    if |s| > 1 {
      assert Sorted(s[1..]) && k < s[1].key;
      FilterAbove(k, s[1..]);
    }
  }

  /** Sorted with a lower bound on the rest is sorted with one more in front. */
  lemma SortedCons(v: Item, s: seq<Item>)
    requires Sorted(s) && AtLeast(v.key, s)
    ensures Sorted([v] + s)
  {
    var t := [v] + s;
    forall i, j | 0 <= i < j < |t| ensures t[i].key <= t[j].key {
      if i > 0 {
        assert t[i] == s[i - 1] && t[j] == s[j - 1];
      } else {
        assert t[j] == s[j - 1];
      }
    }
  }

  // ---------------------------------------------------------------------------
  // merge

  /**
   * The merge of two ascending sequences as `merge` builds it: take from `y` only
   * when its head is strictly less than the head of `x`, so on ties `x` goes first.
   */
  function MergeRef(x: seq<Item>, y: seq<Item>): (r: seq<Item>)
    ensures |r| == |x| + |y|
    decreases |x| + |y|
  {
    if x == [] then y
    else if y == [] then x
    else if Less(y[0], x[0]) then [y[0]] + MergeRef(x, y[1..])
    else [x[0]] + MergeRef(x[1..], y)
  }

  /** A lower bound of both inputs bounds the merge. */
  lemma {:induction false} MergeAtLeast(k: int, x: seq<Item>, y: seq<Item>)
    requires AtLeast(k, x) && AtLeast(k, y)
    ensures AtLeast(k, MergeRef(x, y))
    decreases |x| + |y|
  {
    if x != [] && y != [] {
      if Less(y[0], x[0]) {
        MergeAtLeast(k, x, y[1..]);
      } else {
        MergeAtLeast(k, x[1..], y);
      }
    }
  }

  /** Merging two ascending sequences gives an ascending sequence. */
  lemma {:induction false} MergeSorted(x: seq<Item>, y: seq<Item>)
    requires Sorted(x) && Sorted(y)
    ensures Sorted(MergeRef(x, y))
    decreases |x| + |y|
  {
    if x != [] && y != [] {
      if Less(y[0], x[0]) {
        MergeSorted(x, y[1..]);
        MergeAtLeast(y[0].key, x, y[1..]);
        SortedCons(y[0], MergeRef(x, y[1..]));
      } else {
        MergeSorted(x[1..], y);
        MergeAtLeast(x[0].key, x[1..], y);
        SortedCons(x[0], MergeRef(x[1..], y));
      }
    }
  }

  /**
   * `merge` is stable: among equal keys, the elements of this list come first and
   * each list's own order is kept.
   */
  lemma {:induction false} MergeStable(k: int, x: seq<Item>, y: seq<Item>)
    requires Sorted(x)
    ensures Filter(k, MergeRef(x, y)) == Filter(k, x) + Filter(k, y)
    decreases |x| + |y|
  {
    if x != [] && y != [] {
      if Less(y[0], x[0]) {
        MergeStable(k, x, y[1..]);
        if y[0].key == k {
          FilterAbove(k, x);
        }
      } else {
        assert Sorted(x[1..]);
        MergeStable(k, x[1..], y);
      }
    }
  }

  /** `merge` of two ascending lists is their stable sorted combination. */
  lemma MergeStableEq(x: seq<Item>, y: seq<Item>)
    requires Sorted(x) && Sorted(y)
    ensures Sorted(MergeRef(x, y)) && StableEq(MergeRef(x, y), x + y)
    ensures multiset(MergeRef(x, y)) == multiset(x) + multiset(y)
  {
    MergeSorted(x, y);
    forall k ensures Filter(k, MergeRef(x, y)) == Filter(k, x + y) {
      MergeStable(k, x, y);
      FilterAppend(k, x, y);
    }
    StableEqPermutation(MergeRef(x, y), x + y);
  }

  /** The state of `merge` after `first1` has reached index `i`: what is still to be merged completes the merge of the inputs. */
  ghost predicate MergeInv(a: seq<Item>, b: seq<Item>, r: seq<Item>, i: nat, rest: seq<Item>)
  {
    i <= |r| && r[..i] + MergeRef(r[i..], rest) == MergeRef(a, b)
  }

  /** Splicing the head of `other` in front of `first1` keeps the invariant one index on. */
  lemma MergeTake(a: seq<Item>, b: seq<Item>, r: seq<Item>, i: nat, rest: seq<Item>)
    requires MergeInv(a, b, r, i, rest) && i < |r| && rest != [] && Less(rest[0], r[i])
    ensures MergeInv(a, b, SpliceIn(r, i, rest, 0, 1), i + 1, Cut(rest, 0, 1))
  {
    var r', rest' := SpliceIn(r, i, rest, 0, 1), Cut(rest, 0, 1);
    assert MergeRef(r[i..], rest) == [rest[0]] + MergeRef(r[i..], rest[1..]);
    assert r'[..i + 1] == r[..i] + [rest[0]] && r'[i + 1..] == r[i..];
    assert rest' == rest[1..];
  }

  /** Stepping `first1` past an element no greater than the head of `other` keeps the invariant. */
  lemma MergeSkip(a: seq<Item>, b: seq<Item>, r: seq<Item>, i: nat, rest: seq<Item>)
    requires MergeInv(a, b, r, i, rest) && i < |r| && rest != [] && !Less(rest[0], r[i])
    ensures MergeInv(a, b, r, i + 1, rest)
  {
    assert r[i..] == [r[i]] + r[i + 1..];
    assert r[..i + 1] == r[..i] + [r[i]];
  }

  /** When the loop stops, splicing the rest of `other` at the end completes the merge. */
  lemma MergeFinish(a: seq<Item>, b: seq<Item>, r: seq<Item>, i: nat, rest: seq<Item>)
    requires MergeInv(a, b, r, i, rest) && (i == |r| || rest == [])
    ensures i == |r| ==> SpliceIn(r, i, rest, 0, |rest|) == MergeRef(a, b)
    ensures rest == [] ==> r == MergeRef(a, b)
  {
    if i == |r| {
      assert r[i..] == [] && r[..i] == r && rest[0..|rest|] == rest;
    } else {
      assert r[..i] + r[i..] == r;
    }
  }

  /**
   * `merge(other)`: walk this list with `first1`; while both lists have elements,
   * splice the head of `other` in front of `first1` when it is less, otherwise
   * step `first1`; when this list runs out, splice what is left of `other` at the
   * end.  `other` ends empty.
   */
  method Merge(a: seq<Item>, b: seq<Item>) returns (r: seq<Item>, rest: seq<Item>)
    ensures r == MergeRef(a, b) && rest == []
  {
    if b == [] {
      return a, b;
    }
    r, rest := a, b;
    var i := 0;
    while i < |r| && rest != []
      invariant MergeInv(a, b, r, i, rest)
      decreases |r| - i + 2 * |rest|
    {
      if Less(rest[0], r[i]) {
        MergeTake(a, b, r, i, rest);
        r, rest := SpliceIn(r, i, rest, 0, 1), Cut(rest, 0, 1);
      } else {
        MergeSkip(a, b, r, i, rest);
      }
      i := i + 1;
    }
    MergeFinish(a, b, r, i, rest);
    if i == |r| {
      r, rest := SpliceIn(r, i, rest, 0, |rest|), Cut(rest, 0, |rest|);
    }
  }

  // ---------------------------------------------------------------------------
  // insert and erase over ranges, clear, resize

  /**
   * `insert(pos, n, value)`: `n` single inserts before `pos`.  `pos` keeps naming
   * the same node, so each new element lands after the one inserted before it.
   */
  method InsertCopies<X>(s: seq<X>, p: nat, n: nat, v: X) returns (r: seq<X>)
    requires p <= |s|
    ensures r == s[..p] + SeqAlgorithms.Repeat(v, n) + s[p..]
  {
    r := s;
    var i := 0;
    while i < n
      invariant i <= n
      invariant r == s[..p] + SeqAlgorithms.Repeat(v, i) + s[p..]
    {
      InsertCopiesStep(s, p, i, v, r);
      r := InsertAt(r, p + i, v);
      i := i + 1;
    }
  }

  lemma InsertCopiesStep<X>(s: seq<X>, p: nat, i: nat, v: X, r: seq<X>)
    requires p <= |s| && r == s[..p] + SeqAlgorithms.Repeat(v, i) + s[p..]
    ensures p + i <= |r| && InsertAt(r, p + i, v) == s[..p] + SeqAlgorithms.Repeat(v, i + 1) + s[p..]
  {
    assert SeqAlgorithms.Repeat(v, i + 1) == SeqAlgorithms.Repeat(v, i) + [v];
    assert r[..p + i] == s[..p] + SeqAlgorithms.Repeat(v, i) && r[p + i..] == s[p..];
  }

  /** `insert(pos, first, last)`: the elements of `[first, last)` land before `pos`, in order. */
  method InsertRange<X>(s: seq<X>, p: nat, t: seq<X>) returns (r: seq<X>)
    requires p <= |s|
    ensures r == s[..p] + t + s[p..]
  {
    r := s;
    var i := 0;
    while i < |t|
      invariant i <= |t|
      invariant r == s[..p] + t[..i] + s[p..]
    {
      InsertRangeStep(s, p, t, i, r);
      r := InsertAt(r, p + i, t[i]);
      i := i + 1;
    }
    assert t[..i] == t;
  }

  lemma InsertRangeStep<X>(s: seq<X>, p: nat, t: seq<X>, i: nat, r: seq<X>)
    requires p <= |s| && i < |t| && r == s[..p] + t[..i] + s[p..]
    ensures p + i <= |r| && InsertAt(r, p + i, t[i]) == s[..p] + t[..i + 1] + s[p..]
  {
    assert t[..i + 1] == t[..i] + [t[i]];
    assert r[..p + i] == s[..p] + t[..i] && r[p + i..] == s[p..];
  }

  /**
   * `erase(first, last)`: `erase(first++)` until `first` reaches `last`; the
   * returned iterator is `last`, now at index `first`.
   */
  method EraseRange<X>(s: seq<X>, f: nat, l: nat) returns (r: seq<X>, pos: nat)
    requires f <= l <= |s|
    ensures r == Cut(s, f, l) && pos == f
    ensures r[..pos] == s[..f] && r[pos..] == s[l..]
  {
    r := s;
    var k := f;
    while k < l
      invariant f <= k <= l
      invariant r == s[..f] + s[k..]
    {
      assert r[f..] == s[k..] && r[f + 1..] == s[k + 1..];
      r := RemoveAt(r, f);
      k := k + 1;
    }
    pos := f;
  }

  /** `insert` of what `erase(first, last)` removed, back at the returned iterator, restores the list. */
  lemma EraseInsertRoundTrip<X>(s: seq<X>, f: nat, l: nat)
    requires f <= l <= |s|
    ensures Cut(s, f, l)[..f] + s[f..l] + Cut(s, f, l)[f..] == s
  {
    assert s == s[..f] + s[f..l] + s[l..];
  }

  /** `clear()`: `erase(begin(), end())`. */
  method Clear<X>(s: seq<X>) returns (r: seq<X>)
    ensures r == []
  {
    var pos;
    r, pos := EraseRange(s, 0, |s|);
  }

  /**
   * `resize(new_size, value)`: grow by inserting copies of `value` at `end()`, or
   * step `new_end` back from `end()` to index `new_size` and erase from there.
   */
  method Resize<X>(s: seq<X>, n: nat, v: X) returns (r: seq<X>)
    ensures |r| == n
    ensures n <= |s| ==> r == s[..n]
    ensures |s| <= n ==> r[..|s|] == s && forall k :: |s| <= k < n ==> r[k] == v
  {
    var oldSize := |s|;
    if oldSize < n {
      r := InsertCopies(s, oldSize, n - oldSize, v);
      assert r[..|s|] == s;
    } else {
      var newEnd := |s|;
      while n != oldSize
        invariant n <= oldSize <= |s| && newEnd == oldSize
      {
        oldSize := oldSize - 1;
        newEnd := newEnd - 1;
      }
      var pos;
      r, pos := EraseRange(s, newEnd, |s|);
      assert r == s[..n];
    }
  }

  // ---------------------------------------------------------------------------
  // splice

  /**
   * `splice(pos, other, first, last)` from another list moves `[first, last)`
   * before `pos`; the nodes are moved, neither made nor freed.  An empty range
   * changes nothing.
   */
  lemma SpliceConserves<X>(s: seq<X>, p: nat, t: seq<X>, f: nat, l: nat)
    requires p <= |s| && f <= l <= |t|
    ensures multiset(SpliceIn(s, p, t, f, l)) + multiset(Cut(t, f, l)) == multiset(s) + multiset(t)
    ensures SpliceIn(s, p, t, f, l)[..p] == s[..p]
    ensures SpliceIn(s, p, t, f, l)[p..p + (l - f)] == t[f..l]
    ensures SpliceIn(s, p, t, f, l)[p + (l - f)..] == s[p..]
    ensures f == l ==> SpliceIn(s, p, t, f, l) == s && Cut(t, f, l) == t
  {
    assert s == s[..p] + s[p..];
    assert t == t[..f] + t[f..l] + t[l..];
    var r := SpliceIn(s, p, t, f, l);
    assert r == s[..p] + t[f..l] + s[p..];
    assert r[..p] == s[..p];
    assert r[p..p + (l - f)] == t[f..l];
  }

  /** `splice(pos, other)`: all of `other` moves before `pos`, and `other` ends empty. */
  function SpliceAll<X>(s: seq<X>, p: nat, t: seq<X>): (r: (seq<X>, seq<X>))
    requires p <= |s|
    ensures r.1 == [] && |r.0| == |s| + |t|
    ensures r.0[..p] == s[..p] && r.0[p..p + |t|] == t && r.0[p + |t|..] == s[p..]
  {
    if t == [] then
      assert s[..p] + s[p..] == s;
      (s, t)
    else
      SpliceConserves(s, p, t, 0, |t|);
      assert t[0..|t|] == t;
      (SpliceIn(s, p, t, 0, |t|), Cut(t, 0, |t|))
  }

  /**
   * `splice(pos, *this, it)`: move one element before `pos` within the list; when
   * `pos` is `it` or the element after it the list is already in that order.
   * The move is the erase of the element followed by its insert at the place
   * `pos` names once it is gone.
   */
  function SpliceOne<X>(s: seq<X>, p: nat, i: nat): (r: seq<X>)
    requires p <= |s| && i < |s|
    ensures r == InsertAt(RemoveAt(s, i), if p <= i then p else p - 1, s[i])
  {
    if p == i || p == i + 1 then
      assert s == s[..i] + [s[i]] + s[i + 1..];
      s
    else
      var r := MoveBefore(s, p, i, i + 1);
      assert s[i..i + 1] == [s[i]];
      r
  }

  /**
   * `splice(pos, *this, first, last)` within one list, `pos` outside
   * `[first, last)`: the range moves as a block and the list is a permutation of
   * what it was.
   */
  lemma MoveBeforeBlock<X>(s: seq<X>, p: nat, f: nat, l: nat)
    requires f < l <= |s| && p <= |s| && (p < f || l < p)
    ensures var q := if p < f then p else p - (l - f);
      MoveBefore(s, p, f, l)[q..q + (l - f)] == s[f..l]
    ensures multiset(MoveBefore(s, p, f, l)) == multiset(s)
  {
    if p < f {
      assert s == s[..p] + s[p..f] + s[f..l] + s[l..];
      SwapPieces(s[..p], s[p..f], s[f..l], s[l..]);
    } else {
      assert s == s[..f] + s[f..l] + s[l..p] + s[p..];
      SwapPieces(s[..f], s[l..p], s[f..l], s[p..]);
    }
  }

  /** Exchanging two neighbouring pieces moves the second as a block and keeps the elements. */
  lemma SwapPieces<X>(a: seq<X>, b: seq<X>, c: seq<X>, d: seq<X>)
    ensures (a + c + b + d)[|a|..|a| + |c|] == c
    ensures (a + b + c + d)[|a| + |b|..|a| + |b| + |c|] == c
    ensures multiset(a + c + b + d) == multiset(a + b + c + d)
  {
    assert (a + c + b + d)[|a|..|a| + |c|] == c;
    assert (a + b + c + d)[|a| + |b|..|a| + |b| + |c|] == c;
  }

  // ---------------------------------------------------------------------------
  // reverse

  /** The elements of `s` back to front. */
  function Rev<X>(s: seq<X>): (r: seq<X>)
    ensures |r| == |s|
  {
    if s == [] then [] else [s[|s| - 1]] + Rev(s[..|s| - 1])
  }

  /** Element `k` of the reversal is element `|s| - 1 - k` of `s`. */
  lemma {:induction false} RevIndex<X>(s: seq<X>)
    ensures forall k :: 0 <= k < |s| ==> Rev(s)[k] == s[|s| - 1 - k]
  {
    if s != [] {
      RevIndex(s[..|s| - 1]);
    }
  }

  /** Reversing twice gives the list back. */
  lemma RevRev<X>(s: seq<X>)
    ensures Rev(Rev(s)) == s
  {
    RevIndex(s);
    RevIndex(Rev(s));
  }

  lemma ReverseStep<X>(s: seq<X>, r: seq<X>, i: nat)
    requires 1 <= i < |s| && |r| == |s| && r[..i] == Rev(s[..i]) && r[i..] == s[i..]
    ensures MoveBefore(r, 0, i, i + 1)[..i + 1] == Rev(s[..i + 1])
    ensures MoveBefore(r, 0, i, i + 1)[i + 1..] == s[i + 1..]
  {
    assert r[i] == s[i];
    assert s[..i + 1][..i] == s[..i];
    assert MoveBefore(r, 0, i, i + 1) == [r[i]] + r[..i] + r[i + 1..];
  }

  /**
   * `reverse()`: lists of fewer than two elements are left alone; otherwise each
   * element from the second on is transferred to the front in turn.
   */
  method Reverse<X>(s: seq<X>) returns (r: seq<X>)
    ensures r == Rev(s)
  {
    if |s| < 2 {
      RevIndex(s);
      return s;
    }
    r := s;
    var i := 1;
    assert s[..1] == [s[0]];
    while i < |s|
      invariant 1 <= i <= |s| && |r| == |s|
      invariant r[..i] == Rev(s[..i]) && r[i..] == s[i..]
    {
      ReverseStep(s, r, i);
      r := MoveBefore(r, 0, i, i + 1);
      i := i + 1;
    }
    assert r == r[..i] && s[..i] == s;
  }

  // ---------------------------------------------------------------------------
  // unique

  /** One element for each run of equal neighbours, the run's last; the order is kept. */
  function Dedup<X(==)>(s: seq<X>): (r: seq<X>)
    ensures |r| <= |s|
    ensures s != [] ==> r != [] && r[0] == s[0]
  {
    if |s| <= 1 then s
    else if s[0] == s[1] then Dedup(s[1..])
    else [s[0]] + Dedup(s[1..])
  }

  /** No two neighbours are equal. */
  ghost predicate NoAdjacentDup<X>(s: seq<X>)
  {
    forall i :: 0 <= i < |s| - 1 ==> s[i] != s[i + 1]
  }

  /** After `unique()` no two neighbours are equal. */
  lemma {:induction false} DedupNoAdjacentDup<X>(s: seq<X>)
    ensures NoAdjacentDup(Dedup(s))
  {
    if |s| > 1 {
      DedupNoAdjacentDup(s[1..]);
    }
  }

  /** `unique()` removes no value altogether and adds none. */
  lemma {:induction false} DedupSameValues<X>(s: seq<X>)
    ensures forall x :: x in Dedup(s) <==> x in s
  {
    if |s| > 1 {
      DedupSameValues(s[1..]);
      assert s == [s[0]] + s[1..];
    }
  }

  /** `unique()` changes the list exactly when two neighbours are equal. */
  lemma {:induction false} DedupFixed<X>(s: seq<X>)
    ensures Dedup(s) == s <==> NoAdjacentDup(s)
  {
    DedupNoAdjacentDup(s);
    if |s| > 1 {
      DedupFixed(s[1..]);
      if s[0] != s[1] {
        assert s == [s[0]] + s[1..];
        assert NoAdjacentDup(s) <==> NoAdjacentDup(s[1..]) by {
          if NoAdjacentDup(s[1..]) {
            forall i | 0 <= i < |s| - 1 ensures s[i] != s[i + 1] {
              if i > 0 {
                assert s[i] == s[1..][i - 1] && s[i + 1] == s[1..][i];
              }
            }
          }
        }
      }
    }
  }

  lemma UniqueErase<X>(s: seq<X>, r: seq<X>, f: nat)
    requires f + 1 < |r| && r[..f] + Dedup(r[f..]) == Dedup(s) && r[f] == r[f + 1]
    ensures RemoveAt(r, f)[..f] + Dedup(RemoveAt(r, f)[f..]) == Dedup(s)
  {
    assert r[f..][1..] == r[f + 1..];
    assert RemoveAt(r, f)[..f] == r[..f] && RemoveAt(r, f)[f..] == r[f + 1..];
  }

  lemma UniqueSkip<X>(s: seq<X>, r: seq<X>, f: nat)
    requires f + 1 < |r| && r[..f] + Dedup(r[f..]) == Dedup(s) && r[f] != r[f + 1]
    ensures r[..f + 1] + Dedup(r[f + 1..]) == Dedup(s)
  {
    assert r[f..][1..] == r[f + 1..];
    assert r[..f + 1] == r[..f] + [r[f]];
  }

  /**
   * `unique()`: `first` and `next = first + 1` walk the list; when they hold
   * equal elements `first` is erased and becomes `next`, otherwise `first` steps.
   */
  method Unique<X(==)>(s: seq<X>) returns (r: seq<X>)
    ensures r == Dedup(s)
  {
    if s == [] {
      return s;
    }
    r := s;
    var f := 0;
    while f + 1 < |r|
      invariant f < |r| && r[..f] + Dedup(r[f..]) == Dedup(s)
      decreases 2 * |r| - f
    {
      if r[f] == r[f + 1] {
        UniqueErase(s, r, f);
        r := RemoveAt(r, f);
      } else {
        UniqueSkip(s, r, f);
        f := f + 1;
      }
    }
    assert r[f..] == [r[f]] && r[..f] + r[f..] == r;
  }

  // ---------------------------------------------------------------------------
  // remove

  /** How a loop run for a bounded number of passes ends. */
  datatype Passes<X> = Finished(result: seq<X>) | StillRunning

  /**
   * `remove(value)` as written: `first` moves only through `erase(first++)`, so
   * when `*first != value` a pass changes nothing.  The loop is run from index `i`
   * for at most `passes` passes.
   */
  function RemoveAsWritten<X(==)>(s: seq<X>, i: nat, v: X, passes: nat): (r: Passes<X>)
    requires i <= |s|
    ensures r.Finished? ==> r.result == s[..i]
    decreases passes
  {
    if i == |s| then Finished(s)
    else if passes == 0 then StillRunning
    else if s[i] == v then RemoveAsWritten(RemoveAt(s, i), i, v, passes - 1)
    else RemoveAsWritten(s, i, v, passes - 1)
  }

  /** As written, `remove` never returns once an element from `first` on differs from `value`. */
  lemma {:induction false} RemoveAsWrittenHangs<X>(s: seq<X>, i: nat, v: X, k: nat, passes: nat)
    requires i <= k < |s| && s[k] != v
    ensures RemoveAsWritten(s, i, v, passes) == StillRunning
    decreases passes
  {
    if passes > 0 {
      if s[i] == v {
        RemoveAsWrittenHangs(RemoveAt(s, i), i, v, k - 1, passes - 1);
      } else {
        RemoveAsWrittenHangs(s, i, v, k, passes - 1);
      }
    }
  }

  /** As written, `remove` returns only when every element from `first` on equals `value`, and then empties that part. */
  lemma {:induction false} RemoveAsWrittenAllEqual<X>(s: seq<X>, i: nat, v: X, passes: nat)
    requires i <= |s| && |s| - i <= passes
    requires forall k :: i <= k < |s| ==> s[k] == v
    ensures RemoveAsWritten(s, i, v, passes) == Finished(s[..i])
    decreases passes
  {
    if i < |s| {
      RemoveAsWrittenAllEqual(RemoveAt(s, i), i, v, passes - 1);
      assert RemoveAt(s, i)[..i] == s[..i];
    }
  }

  /** `remove(2)` on the list `[1]` never returns, however many passes it is given. */
  lemma RemoveAsWrittenOnOne(passes: nat)
    ensures RemoveAsWritten([1], 0, 2, passes) == StillRunning
  {
    RemoveAsWrittenHangs([1], 0, 2, 0, passes);
  }

  /** The elements of `s` other than `v`, in their order in `s`. */
  function Without<X(==)>(s: seq<X>, v: X): (r: seq<X>)
    ensures |r| <= |s|
  {
    if s == [] then []
    else (if s[0] == v then [] else [s[0]]) + Without(s[1..], v)
  }

  /** `remove(value)` takes out every copy of `value` and nothing else. */
  lemma {:induction false} WithoutRemovesExactly<X>(s: seq<X>, v: X)
    ensures v !in Without(s, v)
    ensures multiset(Without(s, v))[v] == 0
    ensures forall x :: x != v ==> multiset(Without(s, v))[x] == multiset(s)[x]
  {
    WithoutCounts(s, v);
  }

  /** The multiset of `Without(s, v)` is that of `s` with every copy of `v` dropped. */
  lemma {:induction false} WithoutCounts<X>(s: seq<X>, v: X)
    ensures multiset(Without(s, v)) == multiset(s)[v := 0]
  {
    if s != [] {
      var h: seq<X> := if s[0] == v then [] else [s[0]];
      var t := Without(s[1..], v);
      WithoutCounts(s[1..], v);
      assert Without(s, v) == h + t;
      assert s == [s[0]] + s[1..];
      MultisetDropCons(s[0], s[1..], v, h);
    }
  }

  /** Dropping `v` from the multiset of `[x] + t` is dropping it from `t` and keeping `x` unless it is `v`. */
  lemma MultisetDropCons<X>(x: X, t: seq<X>, v: X, h: seq<X>)
    requires h == if x == v then [] else [x]
    ensures multiset([x] + t)[v := 0] == multiset(h) + multiset(t)[v := 0]
  {
    assert multiset([x] + t) == multiset([x]) + multiset(t);
  }

  lemma RemoveErase<X>(s: seq<X>, r: seq<X>, i: nat, v: X)
    requires i < |r| && r[..i] + Without(r[i..], v) == Without(s, v) && r[i] == v
    ensures RemoveAt(r, i)[..i] + Without(RemoveAt(r, i)[i..], v) == Without(s, v)
  {
    assert r[i..][1..] == r[i + 1..];
    assert RemoveAt(r, i)[..i] == r[..i] && RemoveAt(r, i)[i..] == r[i + 1..];
  }

  lemma RemoveSkip<X>(s: seq<X>, r: seq<X>, i: nat, v: X)
    requires i < |r| && r[..i] + Without(r[i..], v) == Without(s, v) && r[i] != v
    ensures r[..i + 1] + Without(r[i + 1..], v) == Without(s, v)
  {
    assert r[i..][1..] == r[i + 1..];
    assert r[..i + 1] == r[..i] + [r[i]];
  }

  /** `remove(value)` with `first` stepped past an element that differs from `value`. */
  method Remove<X(==)>(s: seq<X>, v: X) returns (r: seq<X>)
    ensures r == Without(s, v)
  {
    r := s;
    var i := 0;
    while i < |r|
      invariant i <= |r| && r[..i] + Without(r[i..], v) == Without(s, v)
      decreases |r| - i
    {
      if r[i] == v {
        RemoveErase(s, r, i, v);
        r := RemoveAt(r, i);
      } else {
        RemoveSkip(s, r, i, v);
        i := i + 1;
      }
    }
    assert r[..i] == r && r[i..] == [];
  }

  // ---------------------------------------------------------------------------
  // sort

  /** `2^n`. */
  function Pow2(n: nat): (r: nat)
    ensures r >= 1
  {
    if n == 0 then 1 else 2 * Pow2(n - 1)
  }

  /** One more than the largest `size_t`: no list is this long. */
  const SizeLimit: nat := 0x1_0000_0000_0000_0000

  lemma {:induction false} Pow2Add(a: nat, b: nat)
    ensures Pow2(a + b) == Pow2(a) * Pow2(b)
    decreases a
  {
    if a > 0 {
      Pow2Add(a - 1, b);
    }
  }

  lemma Pow2At64()
    ensures Pow2(64) == SizeLimit
  {
    Pow2Add(32, 32);
    assert Pow2(32) == 0x1_0000_0000 by {
      Pow2Add(16, 16);
      assert Pow2(16) == 0x1_0000 by {
        Pow2Add(8, 8);
        assert Pow2(8) == 0x100;
      }
    }
  }

  lemma {:induction false} Pow2Monotone(a: nat, b: nat)
    requires a <= b
    ensures Pow2(a) <= Pow2(b)
    decreases b
  {
    if a < b {
      Pow2Monotone(a, b - 1);
    }
  }

  /** An exponent whose power is below the size limit is below 64. */
  lemma Pow2Below(n: nat)
    requires Pow2(n) < SizeLimit
    ensures n < 64
  {
    if n >= 64 {
      Pow2Monotone(64, n);
      Pow2At64();
    }
  }

  lemma StableEqTrans(x: seq<Item>, y: seq<Item>, z: seq<Item>)
    requires StableEq(x, y) && StableEq(y, z)
    ensures StableEq(x, z)
  {
  }

  /** Stable rearrangements of two parts give a stable rearrangement of the whole. */
  lemma StableEqConcat(a: seq<Item>, b: seq<Item>, c: seq<Item>, d: seq<Item>)
    requires StableEq(a, c) && StableEq(b, d)
    ensures StableEq(a + b, c + d)
  {
    forall k ensures Filter(k, a + b) == Filter(k, c + d) {
      FilterAppend(k, a, b);
      FilterAppend(k, c, d);
    }
  }

  /**
   * Merging two ascending neighbours `older` and `newer` that follow `above` in a
   * stable rearrangement of `all` keeps it one.
   */
  lemma StableMergeStep(above: seq<Item>, older: seq<Item>, newer: seq<Item>, all: seq<Item>)
    requires Sorted(older) && Sorted(newer) && StableEq(above + older + newer, all)
    ensures Sorted(MergeRef(older, newer)) && StableEq(above + MergeRef(older, newer), all)
  {
    var m := MergeRef(older, newer);
    MergeStableEq(older, newer);
    StableEqConcat(above, m, above, older + newer);
    assert above + (older + newer) == above + older + newer;
    StableEqTrans(above + m, above + older + newer, all);
  }

  /**
   * The bins `tmp[j..]` of `sort` laid out oldest first: a higher bin holds
   * elements taken from the list earlier than a lower one.
   */
  function Stack(tmp: seq<seq<Item>>, j: nat): seq<Item>
    decreases |tmp| - j
  {
    if j >= |tmp| then [] else Stack(tmp, j + 1) + tmp[j]
  }

  /** Bins `j` up to `k` are empty. */
  ghost predicate EmptyBins(tmp: seq<seq<Item>>, j: nat, k: nat)
  {
    forall i :: j <= i < k && i < |tmp| ==> tmp[i] == []
  }

  lemma {:induction false} StackSkip(tmp: seq<seq<Item>>, j: nat, k: nat)
    requires j <= k <= |tmp| && EmptyBins(tmp, j, k)
    ensures Stack(tmp, j) == Stack(tmp, k)
    decreases k - j
  {
    if j < k {
      StackSkip(tmp, j + 1, k);
      assert Stack(tmp, j) == Stack(tmp, j + 1) + [];
    }
  }

  lemma {:induction false} StackFrame(tmp: seq<seq<Item>>, tmp': seq<seq<Item>>, j: nat)
    requires |tmp| == |tmp'| && forall i :: j <= i < |tmp| ==> tmp[i] == tmp'[i]
    ensures Stack(tmp, j) == Stack(tmp', j)
    decreases |tmp| - j
  {
    if j < |tmp| {
      StackFrame(tmp, tmp', j + 1);
    }
  }

  /** Bin `j` replaced by `x`, with the bins below it empty: the stack is the bins above `j`, then `x`. */
  lemma StackPut(tmp: seq<seq<Item>>, j: nat, x: seq<Item>)
    requires j < |tmp| && EmptyBins(tmp, 0, j)
    ensures Stack(tmp[j := x], 0) == Stack(tmp, j + 1) + x
    ensures Stack(tmp, j) == Stack(tmp, j + 1) + tmp[j]
  {
    var t := tmp[j := x];
    StackSkip(t, 0, j);
    StackFrame(tmp, t, j + 1);
  }

  /**
   * What `sort` keeps of its 64 bins: the bins from `fill` on are empty, every
   * bin is ascending, and a bin `j` that is not empty holds at least `2^j`
   * elements.
   */
  ghost predicate Bins(tmp: seq<seq<Item>>, fill: nat)
  {
    && |tmp| == 64 && fill <= 64
    && EmptyBins(tmp, fill, 64)
    && (forall j :: 0 <= j < 64 ==> Sorted(tmp[j]))
    && (forall j :: 0 <= j < 64 && tmp[j] != [] ==> Pow2(j) <= |tmp[j]|)
  }

  /** Putting into bin `j` an ascending run of at least `2^j` elements keeps the bins, with `fill` past `j`. */
  lemma BinsPut(tmp: seq<seq<Item>>, fill: nat, j: nat, x: seq<Item>)
    requires Bins(tmp, fill) && j < 64 && j <= fill && Sorted(x) && Pow2(j) <= |x|
    ensures Bins(tmp[j := x], if j == fill then fill + 1 else fill)
  {
  }

  lemma BinsClear(tmp: seq<seq<Item>>, fill: nat, j: nat)
    requires Bins(tmp, fill) && j < 64
    ensures Bins(tmp[j := []], fill)
  {
  }

  /**
   * The state of the inner loop of `sort`: the bins below `counter` have been
   * merged into `carry`, which is ascending, holds at least `2^counter` elements
   * and is newer than everything in the bins.
   */
  ghost predicate CarryInv(tmp: seq<seq<Item>>, fill: nat, counter: nat, carry: seq<Item>, all: seq<Item>)
  {
    && Bins(tmp, fill) && counter <= fill && counter < 64
    && EmptyBins(tmp, 0, counter)
    && Sorted(carry) && Pow2(counter) <= |carry| && |all| < SizeLimit
    && StableEq(Stack(tmp, counter) + carry, all)
  }

  lemma CarryStart(tmp: seq<seq<Item>>, fill: nat, v: Item, done: seq<Item>)
    requires Bins(tmp, fill) && StableEq(Stack(tmp, 0), done) && |done| + 1 < SizeLimit
    ensures CarryInv(tmp, fill, 0, [v], done + [v])
  {
    StableEqConcat(Stack(tmp, 0), [v], done, [v]);
  }

  /** The carry outgrows the bin it is merged with, so it always has a next bin to move to. */
  lemma CarryGrows(above: seq<Item>, m: seq<Item>, all: seq<Item>, counter: nat)
    requires StableEq(above + m, all) && |all| < SizeLimit && Pow2(counter + 1) <= |m|
    ensures counter + 1 < 64
  {
    StableEqPermutation(above + m, all);
    Pow2Below(counter + 1);
  }

  lemma CarryMerge(tmp: seq<seq<Item>>, fill: nat, counter: nat, carry: seq<Item>, all: seq<Item>)
    requires CarryInv(tmp, fill, counter, carry, all) && counter != fill && tmp[counter] != []
    ensures CarryInv(tmp[counter := []], fill, counter + 1, MergeRef(tmp[counter], carry), all)
  {
    var m := MergeRef(tmp[counter], carry);
    var t := tmp[counter := []];
    var above := Stack(tmp, counter + 1);
    StackPut(tmp, counter, []);
    StackFrame(tmp, t, counter + 1);
    StableMergeStep(above, tmp[counter], carry, all);
    BinsClear(tmp, fill, counter);
    CarryGrows(above, m, all, counter);
  }

  lemma CarryPlace(tmp: seq<seq<Item>>, fill: nat, counter: nat, carry: seq<Item>, all: seq<Item>)
    requires CarryInv(tmp, fill, counter, carry, all) && (counter == fill || tmp[counter] == [])
    ensures var fill' := if counter == fill then fill + 1 else fill;
      Bins(tmp[counter := carry], fill') && 1 <= fill' && StableEq(Stack(tmp[counter := carry], 0), all)
  {
    var fill' := if counter == fill then fill + 1 else fill;
    assert tmp[counter] == [];
    StackPut(tmp, counter, carry);
    assert Stack(tmp, counter) == Stack(tmp, counter + 1) + [];
    assert Stack(tmp, counter) == Stack(tmp, counter + 1);
    assert StableEq(Stack(tmp[counter := carry], 0), all);
    BinsPut(tmp, fill, counter, carry);
    assert Bins(tmp[counter := carry], fill');
    assert 1 <= fill';
  }

  /**
   * One pass of the outer loop of `sort`: splice the head of the list into
   * `carry`, then carry it up through the bins like a binary increment, merging
   * each full bin into it, and put it in the first empty bin.
   */
  method SortStep(tmp: seq<seq<Item>>, fill: nat, v: Item, ghost done: seq<Item>) returns (tmp': seq<seq<Item>>, fill': nat)
    requires Bins(tmp, fill) && StableEq(Stack(tmp, 0), done) && |done| + 1 < SizeLimit
    ensures Bins(tmp', fill') && 1 <= fill' && StableEq(Stack(tmp', 0), done + [v])
  {
    var carry := [v];
    var counter := 0;
    tmp' := tmp;
    CarryStart(tmp, fill, v, done);
    while counter != fill && tmp'[counter] != []
      invariant CarryInv(tmp', fill, counter, carry, done + [v])
      decreases 64 - counter
    {
      CarryMerge(tmp', fill, counter, carry, done + [v]);
      tmp', carry := tmp'[counter := []], MergeRef(tmp'[counter], carry);
      counter := counter + 1;
    }
    CarryPlace(tmp', fill, counter, carry, done + [v]);
    tmp' := tmp'[counter := carry];
    fill' := if counter == fill then fill + 1 else fill;
  }

  /** The state of the final loop of `sort`: the bins below `counter - 1` have been merged upwards. */
  ghost predicate CollapseInv(tmp: seq<seq<Item>>, fill: nat, counter: nat, all: seq<Item>)
  {
    && |tmp| == 64 && 1 <= counter <= fill <= 64
    && EmptyBins(tmp, 0, counter - 1) && EmptyBins(tmp, fill, 64)
    && (forall j :: 0 <= j < 64 ==> Sorted(tmp[j]))
    && StableEq(Stack(tmp, 0), all)
  }

  lemma CollapseMerge(tmp: seq<seq<Item>>, fill: nat, counter: nat, all: seq<Item>)
    requires CollapseInv(tmp, fill, counter, all) && counter < fill
    ensures CollapseInv(tmp[counter := MergeRef(tmp[counter], tmp[counter - 1])][counter - 1 := []], fill, counter + 1, all)
  {
    var m := MergeRef(tmp[counter], tmp[counter - 1]);
    var u := tmp[counter - 1 := []];
    var t := tmp[counter := m][counter - 1 := []];
    assert t == u[counter := m];
    StackSkip(tmp, 0, counter - 1);
    StackPut(tmp, counter - 1, []);
    StackFrame(tmp, u, counter);
    StackPut(u, counter, m);
    StackFrame(tmp, u, counter + 1);
    StableMergeStep(Stack(tmp, counter + 1), tmp[counter], tmp[counter - 1], all);
  }

  lemma CollapseDone(tmp: seq<seq<Item>>, fill: nat, all: seq<Item>)
    requires CollapseInv(tmp, fill, fill, all)
    ensures Sorted(tmp[fill - 1]) && StableEq(tmp[fill - 1], all)
  {
    StackSkip(tmp, 0, fill - 1);
    StackSkip(tmp, fill, 64);
    assert Stack(tmp, fill - 1) == Stack(tmp, fill) + tmp[fill - 1];
    assert [] + tmp[fill - 1] == tmp[fill - 1];
  }

  /**
   * The final loop of `sort`: merge each bin into the one above it, bottom up,
   * and take the top bin.
   */
  method Collapse(tmp: seq<seq<Item>>, fill: nat, ghost all: seq<Item>) returns (r: seq<Item>)
    requires Bins(tmp, fill) && 1 <= fill && StableEq(Stack(tmp, 0), all)
    ensures Sorted(r) && StableEq(r, all)
  {
    var t := tmp;
    var counter := 1;
    while counter != fill
      invariant CollapseInv(t, fill, counter, all)
      decreases fill - counter
    {
      CollapseMerge(t, fill, counter, all);
      t := t[counter := MergeRef(t[counter], t[counter - 1])][counter - 1 := []];
      counter := counter + 1;
    }
    CollapseDone(t, fill, all);
    r := t[fill - 1];
  }

  /** A list of fewer than two elements is sorted. */
  lemma SortedShort(s: seq<Item>)
    requires |s| < 2
    ensures Sorted(s) && StableEq(s, s)
  {
  }

  /**
   * `sort()`: lists of fewer than two elements are left alone; otherwise the
   * elements are taken from the front one by one into the bins, and the bins are
   * merged at the end.  The list's length fits a `size_t`, so the carry never
   * climbs past the 64th bin.  The result is ascending and keeps the order of
   * equal keys.
   */
  method Sort(s: seq<Item>) returns (r: seq<Item>)
    requires |s| < SizeLimit
    ensures Sorted(r) && StableEq(r, s) && multiset(r) == multiset(s)
  {
    if |s| < 2 {
      SortedShort(s);
      return s;
    }
    var tmp: seq<seq<Item>> := seq(64, _ => []);
    var fill := 0;
    var i := 0;
    SortStart(tmp, s);
    while i < |s|
      invariant i <= |s| && Bins(tmp, fill) && StableEq(Stack(tmp, 0), s[..i])
      invariant i > 0 ==> fill >= 1
    {
      assert s[..i + 1] == s[..i] + [s[i]];
      tmp, fill := SortStep(tmp, fill, s[i], s[..i]);
      i := i + 1;
    }
    assert s[..i] == s;
    r := Collapse(tmp, fill, s);
    StableEqPermutation(r, s);
  }

  /** Before the first pass all 64 bins are empty. */
  lemma SortStart(tmp: seq<seq<Item>>, s: seq<Item>)
    requires tmp == seq(64, _ => [])
    ensures Bins(tmp, 0) && StableEq(Stack(tmp, 0), s[..0])
  {
    StackSkip(tmp, 0, 64);
    assert s[..0] == [];
  }

  /** A sorted list's key `k` elements start at its head when its head has key `k`; none come before a larger head. */
  lemma FilterHead(k: int, s: seq<Item>)
    requires Sorted(s) && s != [] && Filter(k, s) != []
    ensures s[0].key <= k
  {
    if k < s[0].key {
      FilterAbove(k, s);
    }
  }

  lemma AppendCancel(h: seq<Item>, a: seq<Item>, b: seq<Item>)
    requires h + a == h + b
    ensures a == b
  {
    assert a == (h + a)[|h|..];
    assert b == (h + b)[|h|..];
  }

  /** Two ascending stable rearrangements of each other start with the same element and stay so after it. */
  lemma SortedStableHead(x: seq<Item>, y: seq<Item>)
    requires Sorted(x) && Sorted(y) && StableEq(x, y) && x != [] && y != []
    ensures x[0] == y[0] && Sorted(x[1..]) && Sorted(y[1..]) && StableEq(x[1..], y[1..])
  {
    assert Filter(x[0].key, x) != [];
    FilterHead(x[0].key, y);
    assert Filter(y[0].key, y) != [];
    FilterHead(y[0].key, x);
    var k := x[0].key;
    assert Filter(k, x) == [x[0]] + Filter(k, x[1..]);
    assert Filter(k, y) == [y[0]] + Filter(k, y[1..]);
    assert x[0] == Filter(k, x)[0];
    forall k' ensures Filter(k', x[1..]) == Filter(k', y[1..]) {
      var h := if x[0].key == k' then [x[0]] else [];
      assert Filter(k', x) == h + Filter(k', x[1..]);
      assert Filter(k', y) == h + Filter(k', y[1..]);
      AppendCancel(h, Filter(k', x[1..]), Filter(k', y[1..]));
    }
  }

  /**
   * There is only one stable sort: two ascending lists that are stable
   * rearrangements of each other are equal.  So `sort()` gives the same list as
   * any other stable sort.
   */
  lemma {:induction false} SortedStableUnique(x: seq<Item>, y: seq<Item>)
    requires Sorted(x) && Sorted(y) && StableEq(x, y)
    ensures x == y
    decreases |x|
  {
    StableEqPermutation(x, y);
    if x != [] {
      SortedStableHead(x, y);
      SortedStableUnique(x[1..], y[1..]);
      assert x == [x[0]] + x[1..] && y == [y[0]] + y[1..];
    }
  }
}
