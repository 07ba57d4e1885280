/**
 * `transfer(pos, first, last)` of list.h: the nodes `[first, last)` are unlinked
 * from wherever they are and relinked in front of `pos`, by six pointer
 * assignments and without creating, destroying or copying any node.  Every splice,
 * `merge`, `reverse` and `sort` is built on it.
 */
module ListTransfer {
  import opened ListRing

  /**
   * `transfer(pos, first, last)`, the assignments in the source's order: the
   * `next` of the node before `last`, before `first` and before `pos`, then the
   * `prev` of `pos`, `last` and `first`.  Nothing happens when `pos == last`.
   */
  function Transfer<T>(h: Nodes<T>, pos: Id, first: Id, last: Id): (r: Nodes<T>)
    requires pos in h.prev && first in h.prev && last in h.prev
    ensures r.data == h.data
    ensures pos == last ==> r == h
    ensures r.prev.Keys == h.prev.Keys
    // the range now starts right after the node that preceded `pos` ...
    ensures pos != last ==> h.prev[pos] in r.next && r.next[h.prev[pos]] == first && r.prev[first] == h.prev[pos]
    // ... and `pos` now comes right after the node that preceded `last`
    ensures pos != last && pos != first ==> r.prev[pos] == h.prev[last]
    ensures pos != last && h.prev[last] != h.prev[first] && h.prev[last] != h.prev[pos] ==> h.prev[last] in r.next && r.next[h.prev[last]] == pos
  {
    if pos == last then h
    else
      var n1 := h.next[h.prev[last] := pos];
      var n2 := n1[h.prev[first] := last];
      var n3 := n2[h.prev[pos] := first];
      var temp := h.prev[pos];
      var p1 := h.prev[pos := h.prev[last]];
      var p2 := p1[last := p1[first]];
      var p3 := p2[first := temp];
      Nodes(n3, p3, h.data)
  }

  /** Every node of `h.next` is in `r.next`, and keeps its `next` unless it is one of `x1`, `x2`, `x3`. */
  ghost predicate KeepsNext<T>(h: Nodes<T>, r: Nodes<T>, x1: Id, x2: Id, x3: Id)
  {
    forall x :: x in h.next ==> x in r.next && (x != x1 && x != x2 && x != x3 ==> r.next[x] == h.next[x])
  }

  /** Every node of `h.prev` is in `r.prev`, and keeps its `prev` unless it is one of `x1`, `x2`, `x3`. */
  ghost predicate KeepsPrev<T>(h: Nodes<T>, r: Nodes<T>, x1: Id, x2: Id, x3: Id)
  {
    forall x :: x in h.prev ==> x in r.prev && (x != x1 && x != x2 && x != x3 ==> r.prev[x] == h.prev[x])
  }

  /**
   * When the three nodes before `first`, `last` and `pos` are distinct, and so are
   * `first`, `last` and `pos`, `transfer` leaves exactly six links changed: the
   * node before `last` now leads to `pos`, the one before `first` to `last`, and
   * the one before `pos` to `first`, with the `prev` links to match.
   */
  lemma TransferChanges<T>(h: Nodes<T>, pos: Id, first: Id, last: Id)
    requires pos in h.prev && first in h.prev && last in h.prev
    requires pos != first && pos != last && first != last
    requires h.prev[first] != h.prev[last] && h.prev[first] != h.prev[pos] && h.prev[last] != h.prev[pos]
    requires h.prev[first] in h.next && h.prev[last] in h.next && h.prev[pos] in h.next
    ensures Relinked(h, Transfer(h, pos, first, last), pos, first, last, h.prev[first], h.prev[last], h.prev[pos])
  {
  }

  /**
   * `r` is `h` with `[first, last)` moved in front of `pos`, where `a`, `b` and `c`
   * were the nodes before `first`, `last` and `pos`: `b` now leads to `pos`, `a`
   * to `last` and `c` to `first`, every other link and every element is as in
   * `h`, and no node is created or destroyed.
   */
  ghost predicate Relinked<T>(h: Nodes<T>, r: Nodes<T>, pos: Id, first: Id, last: Id, a: Id, b: Id, c: Id)
  {
    && r.data == h.data
    && a in r.next && b in r.next && c in r.next && pos in r.prev && first in r.prev && last in r.prev
    && r.next[b] == pos && r.next[a] == last && r.next[c] == first
    && r.prev[pos] == b && r.prev[last] == a && r.prev[first] == c
    && KeepsNext(h, r, a, b, c) && KeepsPrev(h, r, pos, first, last)
  }

  /** A piece of a linked sequence none of whose inner links changed is still linked. */
  lemma PieceKept<T>(h: Nodes<T>, r: Nodes<T>, o: seq<Id>, i: nat, j: nat, n1: Id, n2: Id, n3: Id, p1: Id, p2: Id, p3: Id)
    requires i < j <= |o| && Linked(h, o[i..j])
    requires KeepsNext(h, r, n1, n2, n3) && KeepsPrev(h, r, p1, p2, p3)
    requires forall k :: i <= k < j - 1 ==> o[k] != n1 && o[k] != n2 && o[k] != n3
    requires forall k :: i < k < j ==> o[k] != p1 && o[k] != p2 && o[k] != p3
    ensures Linked(r, o[i..j])
  {
    var s := o[i..j];
    forall k | 0 <= k < |s| ensures s[k] in r.next && s[k] in r.prev {
      assert s[k] == o[i + k];
    }
    forall k | 0 <= k < |s| - 1 ensures r.next[s[k]] == h.next[s[k]] {
      assert s[k] == o[i + k];
    }
    forall k | 0 < k < |s| ensures r.prev[s[k]] == h.prev[s[k]] {
      assert s[k] == o[i + k];
    }
    LinkedKept(h, r, s);
  }

  /** In a distinct sequence, the node at `m` is none of the nodes `o[i..j]` when `m` lies outside that range. */
  lemma Excluded(o: seq<Id>, i: int, j: int, m: nat)
    requires Distinct(o) && m < |o| && (m < i || j <= m)
    ensures forall k :: i <= k < j && 0 <= k < |o| ==> o[k] != o[m]
  {
  }

  /**
   * `PieceKept` for nodes given by their indices in a distinct sequence: the piece
   * `o[i..j]` stays linked when the changed `next` links are at indices outside
   * `[i, j - 1)` and the changed `prev` links at indices outside `(i, j)`.
   */
  lemma PieceKeptAt<T>(h: Nodes<T>, r: Nodes<T>, o: seq<Id>, i: nat, j: nat, n1: nat, n2: nat, n3: nat, p1: nat, p2: nat, p3: nat)
    requires Linked(h, o) && Distinct(o) && i < j <= |o|
    requires n1 < |o| && n2 < |o| && n3 < |o| && p1 < |o| && p2 < |o| && p3 < |o|
    requires KeepsNext(h, r, o[n1], o[n2], o[n3]) && KeepsPrev(h, r, o[p1], o[p2], o[p3])
    requires (n1 < i || j - 1 <= n1) && (n2 < i || j - 1 <= n2) && (n3 < i || j - 1 <= n3)
    requires (p1 <= i || j <= p1) && (p2 <= i || j <= p2) && (p3 <= i || j <= p3)
    ensures Linked(r, o[i..j])
  {
    LinkedSlice(h, o, i, j);
    PieceKeptAtSlice(h, r, o, i, j, n1, n2, n3, p1, p2, p3);
  }

  /** `PieceKeptAt` for a sequence of which only the piece itself is known to be linked. */
  lemma PieceKeptAtSlice<T>(h: Nodes<T>, r: Nodes<T>, o: seq<Id>, i: nat, j: nat, n1: nat, n2: nat, n3: nat, p1: nat, p2: nat, p3: nat)
    requires i < j <= |o| && Linked(h, o[i..j]) && Distinct(o)
    requires n1 < |o| && n2 < |o| && n3 < |o| && p1 < |o| && p2 < |o| && p3 < |o|
    requires KeepsNext(h, r, o[n1], o[n2], o[n3]) && KeepsPrev(h, r, o[p1], o[p2], o[p3])
    requires (n1 < i || j - 1 <= n1) && (n2 < i || j - 1 <= n2) && (n3 < i || j - 1 <= n3)
    requires (p1 <= i || j <= p1) && (p2 <= i || j <= p2) && (p3 <= i || j <= p3)
    ensures Linked(r, o[i..j])
  {
    Excluded(o, i, j - 1, n1);
    Excluded(o, i, j - 1, n2);
    Excluded(o, i, j - 1, n3);
    Excluded(o, i + 1, j, p1);
    Excluded(o, i + 1, j, p2);
    Excluded(o, i + 1, j, p3);
    PieceKept(h, r, o, i, j, o[n1], o[n2], o[n3], o[p1], o[p2], o[p3]);
  }

  // ---------------------------------------------------------------------------
  // Distinctness of rearranged pieces.

  /** No node of `x` is a node of `y`. */
  ghost predicate Disjoint(x: seq<Id>, y: seq<Id>)
  {
    forall i, j :: 0 <= i < |x| && 0 <= j < |y| ==> x[i] != y[j]
  }

  /** Two distinct, disjoint sequences join into a distinct one. */
  lemma DistinctAppend(x: seq<Id>, y: seq<Id>)
    requires Distinct(x) && Distinct(y) && Disjoint(x, y)
    ensures Distinct(x + y)
  {
    var u := x + y;
    forall a, b | 0 <= a < b < |u|
      ensures u[a] != u[b]
    {
      if b < |x| {
        assert u[a] == x[a] && u[b] == x[b];
      } else if a >= |x| {
        assert u[a] == y[a - |x|] && u[b] == y[b - |x|];
      } else {
        assert u[a] == x[a] && u[b] == y[b - |x|];
      }
    }
  }

  /** Disjointness from two sequences is disjointness from their join. */
  lemma DisjointAppend(x: seq<Id>, y: seq<Id>, z: seq<Id>)
    requires Disjoint(x, y) && Disjoint(x, z)
    ensures Disjoint(x, y + z) && Disjoint(y + z, x)
  {
    var u := y + z;
    forall i, j | 0 <= i < |x| && 0 <= j < |u|
      ensures x[i] != u[j]
    {
      if j < |y| {
        assert u[j] == y[j];
      } else {
        assert u[j] == z[j - |y|];
      }
    }
  }

  /** Pieces of a distinct sequence are distinct, and non-overlapping pieces are disjoint. */
  lemma DistinctPieces(o: seq<Id>, i: nat, j: nat, k: nat, m: nat)
    requires Distinct(o) && i <= j <= |o| && k <= m <= |o| && (j <= k || m <= i)
    ensures Distinct(o[i..j]) && Disjoint(o[i..j], o[k..m]) && Disjoint(o[k..m], o[i..j])
  {
    var x := o[i..j];
    var y := o[k..m];
    forall a, b | 0 <= a < b < |x| ensures x[a] != x[b] {
      assert x[a] == o[i + a] && x[b] == o[i + b];
    }
    forall a, b | 0 <= a < |x| && 0 <= b < |y| ensures x[a] != y[b] && y[b] != x[a] {
      assert x[a] == o[i + a] && y[b] == o[k + b];
    }
  }

  /** Pieces of two disjoint sequences are disjoint. */
  lemma DisjointPieces(o: seq<Id>, q: seq<Id>, i: nat, j: nat, k: nat, m: nat)
    requires Disjoint(o, q) && i <= j <= |o| && k <= m <= |q|
    ensures Disjoint(o[i..j], q[k..m]) && Disjoint(q[k..m], o[i..j])
  {
    var x := o[i..j];
    var y := q[k..m];
    forall a, b | 0 <= a < |x| && 0 <= b < |y| ensures x[a] != y[b] && y[b] != x[a] {
      assert x[a] == o[i + a] && y[b] == q[k + b];
    }
  }

  /** A distinct sequence whose four pieces are put in another order is still distinct. */
  lemma DistinctFour(w: seq<Id>, x: seq<Id>, y: seq<Id>, z: seq<Id>)
    requires Distinct(w) && Distinct(x) && Distinct(y) && Distinct(z)
    requires Disjoint(w, x) && Disjoint(w, y) && Disjoint(w, z)
    requires Disjoint(x, y) && Disjoint(x, z) && Disjoint(y, z)
    ensures Distinct(w + x + y + z)
  {
    DistinctAppend(y, z);
    DisjointAppend(x, y, z);
    DistinctAppend(x, y + z);
    DisjointAppend(w, x, y + z);
    DistinctAppend(w, x + (y + z));
    assert w + x + y + z == w + (x + (y + z));
  }

  // ---------------------------------------------------------------------------
  // Elements of a piece.

  /** Every node of `s` holds an element in `d`. */
  ghost predicate AllIn<T>(d: map<Id, T>, s: seq<Id>)
  {
    forall i :: 0 <= i < |s| ==> s[i] in d
  }

  /** The elements held by the nodes of `s`. */
  ghost function Values<T>(d: map<Id, T>, s: seq<Id>): (v: seq<T>)
    requires AllIn(d, s)
    ensures |v| == |s|
  {
    seq(|s|, i requires 0 <= i < |s| => d[s[i]])
  }

  /** The elements of a join are the join of the elements. */
  lemma ValuesAppend<T>(d: map<Id, T>, s: seq<Id>, t: seq<Id>)
    requires AllIn(d, s) && AllIn(d, t)
    ensures AllIn(d, s + t)
    ensures Values(d, s + t) == Values(d, s) + Values(d, t)
  {
    var u := s + t;
    forall i | 0 <= i < |u| ensures u[i] in d {
      if i >= |s| { assert u[i] == t[i - |s|]; }
    }
    forall i | 0 <= i < |u| ensures Values(d, u)[i] == (Values(d, s) + Values(d, t))[i] {
      if i >= |s| { assert u[i] == t[i - |s|]; }
    }
  }

  /** The elements of a piece are the piece of the elements. */
  lemma ValuesSlice<T>(d: map<Id, T>, s: seq<Id>, i: nat, j: nat)
    requires AllIn(d, s) && i <= j <= |s|
    ensures AllIn(d, s[i..j])
    ensures Values(d, s[i..j]) == Values(d, s)[i..j]
  {
    forall k | 0 <= k < j - i ensures s[i..j][k] in d {
      assert s[i..j][k] == s[i + k];
    }
  }

  /** The contents of a list are the elements of its ring order without the sentinel. */
  lemma ContentsValues<T>(h: Nodes<T>, o: seq<Id>)
    requires Stored(h, o)
    ensures AllIn(h.data, o[..|o| - 1])
    ensures Contents(h, o) == Values(h.data, o[..|o| - 1])
  {
  }

  /** The elements of pieces put in another order are the pieces of the elements in that order. */
  lemma ValuesMoveBefore<T>(d: map<Id, T>, s: seq<Id>, p: nat, f: nat, l: nat)
    requires AllIn(d, s) && f < l <= |s| && p <= |s| && (p < f || l < p)
    ensures AllIn(d, MoveBefore(s, p, f, l))
    ensures Values(d, MoveBefore(s, p, f, l)) == MoveBefore(Values(d, s), p, f, l)
  {
    if p < f {
      ValuesMoved(d, s, p, f, l);
    } else {
      ValuesMoved(d, s, f, l, p);
    }
  }

  /** The elements of `s[..i] + s[j..k] + s[i..j] + s[k..]`, the shape of both kinds of move. */
  lemma ValuesMoved<T>(d: map<Id, T>, s: seq<Id>, i: nat, j: nat, k: nat)
    requires AllIn(d, s) && i <= j <= k <= |s|
    ensures AllIn(d, s[..i] + s[j..k] + s[i..j] + s[k..])
    ensures Values(d, s[..i] + s[j..k] + s[i..j] + s[k..])
            == Values(d, s)[..i] + Values(d, s)[j..k] + Values(d, s)[i..j] + Values(d, s)[k..]
  {
    var v := Values(d, s);
    ValuesSlice(d, s, 0, i);
    ValuesSlice(d, s, j, k);
    ValuesSlice(d, s, i, j);
    ValuesSlice(d, s, k, |s|);
    assert s[..i] == s[0..i] && s[k..] == s[k..|s|];
    assert v[..i] == v[0..i] && v[k..] == v[k..|s|];
    ValuesFour(d, s[..i], s[j..k], s[i..j], s[k..]);
  }

  lemma ValuesFour<T>(d: map<Id, T>, a: seq<Id>, b: seq<Id>, c: seq<Id>, e: seq<Id>)
    requires AllIn(d, a) && AllIn(d, b) && AllIn(d, c) && AllIn(d, e)
    ensures AllIn(d, a + b + c + e)
    ensures Values(d, a + b + c + e) == Values(d, a) + Values(d, b) + Values(d, c) + Values(d, e)
  {
    ValuesAppend(d, a, b);
    ValuesAppend(d, a + b, c);
    ValuesAppend(d, a + b + c, e);
  }

  /** A move that stays clear of the last index leaves the last element last. */
  lemma MoveBeforeInit<X>(s: seq<X>, p: nat, f: nat, l: nat)
    requires f < l < |s| && p < |s| && (p < f || l < p)
    ensures MoveBefore(s, p, f, l)[..|s| - 1] == MoveBefore(s[..|s| - 1], p, f, l)
    ensures MoveBefore(s, p, f, l)[|s| - 1] == s[|s| - 1]
  {
    var t := s[..|s| - 1];
    if p < f {
      assert t[..p] == s[..p] && t[f..l] == s[f..l] && t[p..f] == s[p..f];
      assert s[l..] == t[l..] + [s[|s| - 1]];
    } else {
      assert t[..f] == s[..f] && t[l..p] == s[l..p] && t[f..l] == s[f..l];
      assert s[p..] == t[p..] + [s[|s| - 1]];
    }
  }

  // ---------------------------------------------------------------------------
  // transfer within one ring.

  /** `transfer` to a position before the range relinks the ring in the moved order. */
  lemma TransferBeforeLinked<T>(h: Nodes<T>, o: seq<Id>, p: nat, f: nat, l: nat)
    requires Linked(h, o) && Closed(h, o) && Distinct(o) && p < f < l < |o|
    ensures o[p] in h.prev && o[f] in h.prev && o[l] in h.prev
    ensures Linked(Transfer(h, o[p], o[f], o[l]), MoveBefore(o, p, f, l))
  {
    var pos, first, last := o[p], o[f], o[l];
    var ai, bi, ci := f - 1, l - 1, if p == 0 then |o| - 1 else p - 1;
    PrevInClosed(h, o, f);
    PrevInClosed(h, o, l);
    PrevInClosed(h, o, p);
    assert h.prev[first] == o[ai] && h.prev[last] == o[bi] && h.prev[pos] == o[ci];
    assert o[ai] != o[bi] && o[ai] != o[ci] && o[bi] != o[ci];
    TransferChanges(h, pos, first, last);
    var r := Transfer(h, pos, first, last);
    assert KeepsNext(h, r, o[ai], o[bi], o[ci]) && KeepsPrev(h, r, o[p], o[f], o[l]);
    PieceKeptAt(h, r, o, p, f, ai, bi, ci, p, f, l);
    PieceKeptAt(h, r, o, f, l, ai, bi, ci, p, f, l);
    PieceKeptAt(h, r, o, l, |o|, ai, bi, ci, p, f, l);
    if p > 0 {
      PieceKeptAt(h, r, o, 0, p, ai, bi, ci, p, f, l);
    }
    JoinBefore(r, o, p, f, l);
  }

  /** In a linked, closed sequence, `prev` of the node at `i` is the node before it around the circle. */
  lemma PrevInClosed<T>(h: Nodes<T>, o: seq<Id>, i: nat)
    requires Linked(h, o) && Closed(h, o) && i < |o|
    ensures h.prev[o[i]] == o[if i == 0 then |o| - 1 else i - 1]
  {
    if i > 0 {
      assert h.prev[o[i]] == o[i - 1];
    }
  }

  /** Three linked pieces joined by links both ways at the two seams are linked. */
  lemma JoinThree<T>(r: Nodes<T>, x: seq<Id>, y: seq<Id>, z: seq<Id>)
    requires Linked(r, x) && Linked(r, y) && Linked(r, z) && |x| > 0 && |y| > 0 && |z| > 0
    requires Last(x) in r.next && y[0] in r.prev && r.next[Last(x)] == y[0] && r.prev[y[0]] == Last(x)
    requires Last(y) in r.next && z[0] in r.prev && r.next[Last(y)] == z[0] && r.prev[z[0]] == Last(y)
    ensures Linked(r, x + y + z)
  {
    LinkedAppend(r, x, y);
    assert Last(x + y) == Last(y);
    LinkedAppend(r, x + y, z);
  }

  /** A linked piece joined in front of a linked piece by links both ways is linked. */
  lemma JoinFront<T>(r: Nodes<T>, w: seq<Id>, u: seq<Id>)
    requires Linked(r, w) && Linked(r, u) && |w| > 0 && |u| > 0
    requires Last(w) in r.next && u[0] in r.prev && r.next[Last(w)] == u[0] && r.prev[u[0]] == Last(w)
    ensures Linked(r, w + u)
  {
    LinkedAppend(r, w, u);
  }

  /** `MoveBefore` as its pieces, grouped as the joins build it. */
  lemma MoveBeforePieces<X>(s: seq<X>, p: nat, f: nat, l: nat)
    requires f < l <= |s| && p <= |s| && (p < f || l < p)
    ensures p < f ==> MoveBefore(s, p, f, l) == s[0..p] + (s[f..l] + s[p..f] + s[l..|s|])
    ensures l < p ==> MoveBefore(s, p, f, l) == s[0..f] + (s[l..p] + s[f..l] + s[p..|s|])
  {
  }

  /** The joins of `TransferBeforeLinked`: the four linked pieces in their new order. */
  lemma JoinBefore<T>(r: Nodes<T>, o: seq<Id>, p: nat, f: nat, l: nat)
    requires p < f < l < |o|
    requires Linked(r, o[p..f]) && Linked(r, o[f..l]) && Linked(r, o[l..|o|])
    requires p > 0 ==> Linked(r, o[0..p])
    requires o[l - 1] in r.next && r.next[o[l - 1]] == o[p] && o[p] in r.prev && r.prev[o[p]] == o[l - 1]
    requires o[f - 1] in r.next && r.next[o[f - 1]] == o[l] && o[l] in r.prev && r.prev[o[l]] == o[f - 1]
    requires p > 0 ==> o[p - 1] in r.next && r.next[o[p - 1]] == o[f] && o[f] in r.prev && r.prev[o[f]] == o[p - 1]
    ensures Linked(r, MoveBefore(o, p, f, l))
  {
    var A, B, C, D := o[0..p], o[f..l], o[p..f], o[l..|o|];
    SliceEnds(o, f, l);
    SliceEnds(o, p, f);
    SliceEnds(o, l, |o|);
    JoinThree(r, B, C, D);
    if p > 0 {
      SliceEnds(o, 0, p);
      assert (B + C + D)[0] == o[f];
      JoinFront(r, A, B + C + D);
    } else {
      assert A + (B + C + D) == B + C + D;
    }
    MoveBeforePieces(o, p, f, l);
  }

  /** The first and last entries of a non-empty slice. */
  lemma SliceEnds(o: seq<Id>, i: nat, j: nat)
    requires i < j <= |o|
    ensures o[i..j][0] == o[i] && Last(o[i..j]) == o[j - 1]
  {
  }


  /** `transfer` to a position after the range relinks the ring in the moved order. */
  lemma TransferAfterLinked<T>(h: Nodes<T>, o: seq<Id>, p: nat, f: nat, l: nat)
    requires Linked(h, o) && Closed(h, o) && Distinct(o) && f < l < p < |o|
    ensures o[p] in h.prev && o[f] in h.prev && o[l] in h.prev
    ensures Linked(Transfer(h, o[p], o[f], o[l]), MoveBefore(o, p, f, l))
  {
    var pos, first, last := o[p], o[f], o[l];
    var ai, bi, ci := if f == 0 then |o| - 1 else f - 1, l - 1, p - 1;
    assert h.prev[first] == o[ai] && h.prev[last] == o[bi] && h.prev[pos] == o[ci];
    assert o[ai] != o[bi] && o[ai] != o[ci] && o[bi] != o[ci];
    TransferChanges(h, pos, first, last);
    var r := Transfer(h, pos, first, last);
    PieceKeptAt(h, r, o, l, p, ai, bi, ci, p, f, l);
    PieceKeptAt(h, r, o, f, l, ai, bi, ci, p, f, l);
    PieceKeptAt(h, r, o, p, |o|, ai, bi, ci, p, f, l);
    if f > 0 {
      PieceKeptAt(h, r, o, 0, f, ai, bi, ci, p, f, l);
    }
    JoinAfter(r, o, p, f, l);
  }

  /** The joins of `TransferAfterLinked`: the four linked pieces in their new order. */
  lemma JoinAfter<T>(r: Nodes<T>, o: seq<Id>, p: nat, f: nat, l: nat)
    requires f < l < p < |o|
    requires Linked(r, o[l..p]) && Linked(r, o[f..l]) && Linked(r, o[p..|o|])
    requires f > 0 ==> Linked(r, o[0..f])
    requires o[p - 1] in r.next && r.next[o[p - 1]] == o[f] && o[f] in r.prev && r.prev[o[f]] == o[p - 1]
    requires o[l - 1] in r.next && r.next[o[l - 1]] == o[p] && o[p] in r.prev && r.prev[o[p]] == o[l - 1]
    requires f > 0 ==> o[f - 1] in r.next && r.next[o[f - 1]] == o[l] && o[l] in r.prev && r.prev[o[l]] == o[f - 1]
    ensures Linked(r, MoveBefore(o, p, f, l))
  {
    var A, C, B, D := o[0..f], o[l..p], o[f..l], o[p..|o|];
    SliceEnds(o, l, p);
    SliceEnds(o, f, l);
    SliceEnds(o, p, |o|);
    JoinThree(r, C, B, D);
    if f > 0 {
      SliceEnds(o, 0, f);
      assert (C + B + D)[0] == o[l];
      JoinFront(r, A, C + B + D);
    } else {
      assert A + (C + B + D) == C + B + D;
    }
    MoveBeforePieces(o, p, f, l);
  }


  /** The first and last entries after a move. */
  lemma MoveBeforeEnds<X>(s: seq<X>, p: nat, f: nat, l: nat)
    requires f < l < |s| && p < |s| && (p < f || l < p)
    ensures MoveBefore(s, p, f, l)[|s| - 1] == s[|s| - 1]
    ensures MoveBefore(s, p, f, l)[0] == if p == 0 then s[f] else if f == 0 then s[l] else s[0]
  {
    MoveBeforeInit(s, p, f, l);
    MoveBeforePieces(s, p, f, l);
  }

  /** `transfer` inside one ring keeps it closed, the sentinel still last. */
  lemma TransferClosed<T>(h: Nodes<T>, o: seq<Id>, p: nat, f: nat, l: nat)
    requires Closed(h, o) && Distinct(o) && f < l < |o| && p < |o| && (p < f || l < p)
    requires o[p] in h.prev && o[f] in h.prev && o[l] in h.prev
    requires h.prev[o[f]] == Before(o, f) && h.prev[o[l]] == o[l - 1] && h.prev[o[p]] == Before(o, p)
    requires Before(o, f) in h.next && o[l - 1] in h.next && Before(o, p) in h.next
    ensures Closed(Transfer(h, o[p], o[f], o[l]), MoveBefore(o, p, f, l))
  {
    var ai, bi, ci := if f == 0 then |o| - 1 else f - 1, l - 1, if p == 0 then |o| - 1 else p - 1;
    assert o[ai] != o[bi] && o[ai] != o[ci] && o[bi] != o[ci];
    MoveBeforeEnds(o, p, f, l);
    if p != 0 && f != 0 {
      assert Last(o) != o[ai] && Last(o) != o[bi] && Last(o) != o[ci];
      assert o[0] != o[p] && o[0] != o[f] && o[0] != o[l];
    }
    TransferChanges(h, o[p], o[f], o[l]);
  }

  /** Moving pieces of a distinct sequence keeps it distinct. */
  lemma DistinctMoveBefore(o: seq<Id>, p: nat, f: nat, l: nat)
    requires Distinct(o) && f < l <= |o| && p <= |o| && (p < f || l < p)
    ensures Distinct(MoveBefore(o, p, f, l))
  {
    if p < f {
      DistinctPieces(o, 0, p, f, l);
      DistinctPieces(o, 0, p, p, f);
      DistinctPieces(o, 0, p, l, |o|);
      DistinctPieces(o, f, l, p, f);
      DistinctPieces(o, f, l, l, |o|);
      DistinctPieces(o, p, f, l, |o|);
      DistinctPieces(o, l, |o|, 0, 0);
      DistinctFour(o[..p], o[f..l], o[p..f], o[l..]);
    } else {
      DistinctPieces(o, 0, f, l, p);
      DistinctPieces(o, 0, f, f, l);
      DistinctPieces(o, 0, f, p, |o|);
      DistinctPieces(o, l, p, f, l);
      DistinctPieces(o, l, p, p, |o|);
      DistinctPieces(o, f, l, p, |o|);
      DistinctPieces(o, p, |o|, 0, 0);
      DistinctFour(o[..f], o[l..p], o[f..l], o[p..]);
    }
  }

  /**
   * `transfer(pos, first, last)` inside one list, with `first` before `last` and
   * `pos` outside `[first, last)`: the nodes `[first, last)` now stand in front of
   * `pos`, the elements move with them, no node is created or destroyed, and
   * only the six linked nodes change.  When `pos == last` nothing changes.
   */
  lemma TransferWithin<T>(h: Nodes<T>, o: seq<Id>, p: nat, f: nat, l: nat)
    requires Ring(h, o) && f < l < |o| && p < |o| && (p < f || l <= p)
    ensures o[p] in h.prev && o[f] in h.prev && o[l] in h.prev
    ensures p == l ==> Transfer(h, o[p], o[f], o[l]) == h
    ensures p != l ==>
      var r := Transfer(h, o[p], o[f], o[l]);
      && Ring(r, MoveBefore(o, p, f, l))
      && Contents(r, MoveBefore(o, p, f, l)) == MoveBefore(Contents(h, o), p, f, l)
      && r.data == h.data && r.next.Keys == h.next.Keys && r.prev.Keys == h.prev.Keys
      && AgreeOutside(h, r, {Before(o, f), o[l - 1], Before(o, p), o[p], o[f], o[l]})
  {
    if p != l {
      var r := Transfer(h, o[p], o[f], o[l]);
      var o' := MoveBefore(o, p, f, l);
      if p < f {
        TransferBeforeLinked(h, o, p, f, l);
      } else {
        TransferAfterLinked(h, o, p, f, l);
      }
      PrevIsBefore(h, o, p);
      PrevIsBefore(h, o, f);
      PrevIsBefore(h, o, l);
      TransferClosed(h, o, p, f, l);
      DistinctMoveBefore(o, p, f, l);
      TransferWithinContents(h, o, p, f, l);
      TransferWithinAgrees(h, o, p, f, l);
    }
  }

  /** The elements travel with their nodes. */
  lemma TransferWithinContents<T>(h: Nodes<T>, o: seq<Id>, p: nat, f: nat, l: nat)
    requires Stored(h, o) && f < l < |o| && p < |o| && (p < f || l < p)
    requires o[p] in h.prev && o[f] in h.prev && o[l] in h.prev
    ensures Stored(Transfer(h, o[p], o[f], o[l]), MoveBefore(o, p, f, l))
    ensures Contents(Transfer(h, o[p], o[f], o[l]), MoveBefore(o, p, f, l)) == MoveBefore(Contents(h, o), p, f, l)
  {
    var r := Transfer(h, o[p], o[f], o[l]);
    var o' := MoveBefore(o, p, f, l);
    ContentsValues(h, o);
    MoveBeforeInit(o, p, f, l);
    ValuesMoveBefore(h.data, o[..|o| - 1], p, f, l);
    assert o'[..|o'| - 1] == MoveBefore(o[..|o| - 1], p, f, l);
    ValuesContents(r, o');
  }

  /** A ring whose nodes before `end()` all hold elements is stored, and those elements are its contents. */
  lemma ValuesContents<T>(h: Nodes<T>, o: seq<Id>)
    requires |o| > 0 && AllIn(h.data, o[..|o| - 1])
    ensures Stored(h, o)
    ensures Contents(h, o) == Values(h.data, o[..|o| - 1])
  {
    forall k | 0 <= k < |o| - 1 ensures o[k] in h.data {
      assert o[k] == o[..|o| - 1][k];
    }
  }

  /** When its six junction nodes are distinct, `transfer` changes nothing but them, and allocates and releases nothing. */
  lemma TransferAgrees<T>(h: Nodes<T>, pos: Id, first: Id, last: Id)
    requires pos in h.prev && first in h.prev && last in h.prev
    requires pos != first && pos != last && first != last
    requires h.prev[first] != h.prev[last] && h.prev[first] != h.prev[pos] && h.prev[last] != h.prev[pos]
    requires h.prev[first] in h.next && h.prev[last] in h.next && h.prev[pos] in h.next
    ensures var r := Transfer(h, pos, first, last);
      r.data == h.data && r.next.Keys == h.next.Keys && r.prev.Keys == h.prev.Keys
    ensures AgreeOutside(h, Transfer(h, pos, first, last), {h.prev[first], h.prev[last], h.prev[pos], pos, first, last})
  {
  }

  /** Only the six nodes at the junctions change. */
  lemma TransferWithinAgrees<T>(h: Nodes<T>, o: seq<Id>, p: nat, f: nat, l: nat)
    requires Ring(h, o) && f < l < |o| && p < |o| && (p < f || l < p)
    ensures o[p] in h.prev && o[f] in h.prev && o[l] in h.prev
    ensures var r := Transfer(h, o[p], o[f], o[l]);
      && r.data == h.data && r.next.Keys == h.next.Keys && r.prev.Keys == h.prev.Keys
      && AgreeOutside(h, r, {Before(o, f), o[l - 1], Before(o, p), o[p], o[f], o[l]})
  {
    PrevIsBefore(h, o, p);
    PrevIsBefore(h, o, f);
    PrevIsBefore(h, o, l);
    var ai, bi, ci := if f == 0 then |o| - 1 else f - 1, l - 1, if p == 0 then |o| - 1 else p - 1;
    assert o[ai] != o[bi] && o[ai] != o[ci] && o[bi] != o[ci];
    TransferAgrees(h, o[p], o[f], o[l]);
  }

  // ---------------------------------------------------------------------------
  // transfer from one ring into another.

  /** `s` with the piece `t[f..l]` inserted before index `p`. */
  function SpliceIn<X>(s: seq<X>, p: nat, t: seq<X>, f: nat, l: nat): (r: seq<X>)
    requires p <= |s| && f <= l <= |t|
    ensures |r| == |s| + (l - f)
  {
    s[..p] + t[f..l] + s[p..]
  }

  /** `t` without the piece `t[f..l]`. */
  function Cut<X>(t: seq<X>, f: nat, l: nat): (r: seq<X>)
    requires f <= l <= |t|
    ensures |r| == |t| - (l - f)
  {
    t[..f] + t[l..]
  }

  /** No node of `o[i..j]` is the node `q[m]` of a disjoint sequence. */
  lemma ExcludedOther(o: seq<Id>, q: seq<Id>, i: int, j: int, m: nat)
    requires Disjoint(o, q) && m < |q|
    ensures forall k :: i <= k < j && 0 <= k < |o| ==> o[k] != q[m]
  {
  }

  /** No node of `o[i..j]` is the node `q[m]` of a disjoint sequence, with `q` first. */
  lemma ExcludedOtherRev(q: seq<Id>, o: seq<Id>, i: int, j: int, m: nat)
    requires Disjoint(q, o) && m < |q|
    ensures forall k :: i <= k < j && 0 <= k < |o| ==> o[k] != q[m]
  {
  }

  /** A piece of the first ring, outside the junctions, stays linked. */
  lemma AcrossPieceOfFirst<T>(h: Nodes<T>, r: Nodes<T>, o1: seq<Id>, o2: seq<Id>, p: nat, f: nat, l: nat, i: nat, j: nat)
    requires Linked(h, o1) && Distinct(o1) && Disjoint(o1, o2) && p < |o1| && f < l < |o2|
    requires (i == 0 && j == p && p > 0) || (i == p && j == |o1|)
    requires Relinked(h, r, o1[p], o2[f], o2[l], Before(o2, f), o2[l - 1], Before(o1, p))
    ensures Linked(r, o1[i..j])
  {
    var ai, ci := if f == 0 then |o2| - 1 else f - 1, if p == 0 then |o1| - 1 else p - 1;
    assert o2[ai] == Before(o2, f) && o1[ci] == Before(o1, p);
    ExcludedOther(o1, o2, i, j - 1, ai);
    ExcludedOther(o1, o2, i, j - 1, l - 1);
    Excluded(o1, i, j - 1, ci);
    Excluded(o1, i + 1, j, p);
    ExcludedOther(o1, o2, i + 1, j, f);
    ExcludedOther(o1, o2, i + 1, j, l);
    LinkedSlice(h, o1, i, j);
    PieceKept(h, r, o1, i, j, Before(o2, f), o2[l - 1], Before(o1, p), o1[p], o2[f], o2[l]);
  }

  /** A piece of the second ring, outside the junctions, stays linked. */
  lemma AcrossPieceOfSecond<T>(h: Nodes<T>, r: Nodes<T>, o1: seq<Id>, o2: seq<Id>, p: nat, f: nat, l: nat, i: nat, j: nat)
    requires Linked(h, o2) && Distinct(o2) && Disjoint(o1, o2) && p < |o1| && f < l < |o2|
    requires (i == 0 && j == f && f > 0) || (i == f && j == l) || (i == l && j == |o2|)
    requires Relinked(h, r, o1[p], o2[f], o2[l], Before(o2, f), o2[l - 1], Before(o1, p))
    ensures Linked(r, o2[i..j])
  {
    var ai, ci := if f == 0 then |o2| - 1 else f - 1, if p == 0 then |o1| - 1 else p - 1;
    assert o2[ai] == Before(o2, f) && o1[ci] == Before(o1, p);
    Excluded(o2, i, j - 1, ai);
    Excluded(o2, i, j - 1, l - 1);
    ExcludedOtherRev(o1, o2, i, j - 1, ci);
    ExcludedOtherRev(o1, o2, i + 1, j, p);
    Excluded(o2, i + 1, j, f);
    Excluded(o2, i + 1, j, l);
    LinkedSlice(h, o2, i, j);
    PieceKept(h, r, o2, i, j, Before(o2, f), o2[l - 1], Before(o1, p), o1[p], o2[f], o2[l]);
  }

  /** `SpliceIn` and `Cut` as the pieces the joins build them from. */
  lemma SplicePieces<X>(s: seq<X>, p: nat, t: seq<X>, f: nat, l: nat)
    requires p <= |s| && f <= l <= |t|
    ensures SpliceIn(s, p, t, f, l) == s[0..p] + t[f..l] + s[p..|s|]
    ensures Cut(t, f, l) == t[0..f] + t[l..|t|]
  {
  }

  /** The kept pieces of the first ring with the moved piece joined in front of `pos`. */
  lemma AcrossJoinFirst<T>(r: Nodes<T>, o1: seq<Id>, o2: seq<Id>, p: nat, f: nat, l: nat)
    requires p < |o1| && f < l < |o2|
    requires p > 0 ==> Linked(r, o1[0..p])
    requires Linked(r, o1[p..|o1|]) && Linked(r, o2[f..l])
    requires o2[l - 1] in r.next && r.next[o2[l - 1]] == o1[p] && o1[p] in r.prev && r.prev[o1[p]] == o2[l - 1]
    requires p > 0 ==> o1[p - 1] in r.next && r.next[o1[p - 1]] == o2[f] && o2[f] in r.prev && r.prev[o2[f]] == o1[p - 1]
    ensures Linked(r, SpliceIn(o1, p, o2, f, l))
  {
    var P, Q, S := o1[0..p], o1[p..|o1|], o2[f..l];
    SplicePieces(o1, p, o2, f, l);
    assert Last(S) == o2[l - 1] && Q[0] == o1[p];
    if p > 0 {
      assert Last(P) == o1[p - 1] && S[0] == o2[f];
      JoinThree(r, P, S, Q);
    } else {
      JoinFront(r, S, Q);
      assert P + S + Q == S + Q;
    }
  }

  /** The kept pieces of the second ring joined over the gap. */
  lemma AcrossJoinSecond<T>(r: Nodes<T>, o1: seq<Id>, o2: seq<Id>, p: nat, f: nat, l: nat)
    requires p < |o1| && f < l < |o2|
    requires f > 0 ==> Linked(r, o2[0..f])
    requires Linked(r, o2[l..|o2|])
    requires f > 0 ==> o2[f - 1] in r.next && r.next[o2[f - 1]] == o2[l] && o2[l] in r.prev && r.prev[o2[l]] == o2[f - 1]
    ensures Linked(r, Cut(o2, f, l))
  {
    var R, U := o2[0..f], o2[l..|o2|];
    SplicePieces(o1, p, o2, f, l);
    if f > 0 {
      assert Last(R) == o2[f - 1] && U[0] == o2[l];
      JoinFront(r, R, U);
    } else {
      assert R + U == U;
    }
  }

  /** Both rings stay closed, each with its own sentinel last. */
  lemma AcrossClosed<T>(h: Nodes<T>, r: Nodes<T>, o1: seq<Id>, o2: seq<Id>, p: nat, f: nat, l: nat)
    requires Closed(h, o1) && Closed(h, o2) && Distinct(o1 + o2) && p < |o1| && f < l < |o2|
    requires Relinked(h, r, o1[p], o2[f], o2[l], Before(o2, f), o2[l - 1], Before(o1, p))
    ensures Closed(r, SpliceIn(o1, p, o2, f, l)) && Closed(r, Cut(o2, f, l))
  {
    var w, n := o1 + o2, |o1|;
    var o1', o2' := SpliceIn(o1, p, o2, f, l), Cut(o2, f, l);
    assert Last(o1') == Last(o1) && Last(o2') == Last(o2);
    assert o1'[0] == if p == 0 then o2[f] else o1[0];
    assert o2'[0] == if f == 0 then o2[l] else o2[0];
    assert w[n - 1] == Last(o1) && w[|w| - 1] == Last(o2) && w[0] == o1[0] && w[n] == o2[0];
    var ai, bi, ci := n + (if f == 0 then |o2| - 1 else f - 1), n + l - 1, if p == 0 then n - 1 else p - 1;
    assert w[ai] == Before(o2, f) && w[bi] == o2[l - 1] && w[ci] == Before(o1, p);
    assert w[p] == o1[p] && w[n + f] == o2[f] && w[n + l] == o2[l];
    if p > 0 {
      assert Last(o1) != w[ai] && Last(o1) != w[bi] && Last(o1) != w[ci];
      assert o1[0] != w[p] && o1[0] != w[n + f] && o1[0] != w[n + l];
    }
    if f > 0 {
      assert Last(o2) != w[ai] && Last(o2) != w[bi] && Last(o2) != w[ci];
      assert o2[0] != w[p] && o2[0] != w[n + f] && o2[0] != w[n + l];
    }
  }

  /** The rearranged rings are distinct and still share no node. */
  lemma AcrossDistinct(o1: seq<Id>, o2: seq<Id>, p: nat, f: nat, l: nat)
    requires Distinct(o1) && Distinct(o2) && Disjoint(o1, o2) && p <= |o1| && f <= l <= |o2|
    ensures Distinct(SpliceIn(o1, p, o2, f, l)) && Distinct(Cut(o2, f, l))
    ensures Disjoint(SpliceIn(o1, p, o2, f, l), Cut(o2, f, l))
  {
    var P, Q, R, S, U := o1[..p], o1[p..], o2[..f], o2[f..l], o2[l..];
    DistinctPieces(o1, 0, p, p, |o1|);
    DistinctPieces(o1, p, |o1|, 0, 0);
    DistinctPieces(o2, 0, f, f, l);
    DistinctPieces(o2, 0, f, l, |o2|);
    DistinctPieces(o2, f, l, l, |o2|);
    DistinctPieces(o2, l, |o2|, 0, 0);
    DisjointPieces(o1, o2, 0, p, f, l);
    DisjointPieces(o1, o2, p, |o1|, f, l);
    DisjointPieces(o1, o2, 0, p, 0, f);
    DisjointPieces(o1, o2, 0, p, l, |o2|);
    DisjointPieces(o1, o2, p, |o1|, 0, f);
    DisjointPieces(o1, o2, p, |o1|, l, |o2|);
    assert o1[0..p] == P && o1[p..|o1|] == Q && o2[0..f] == R && o2[l..|o2|] == U;
    DistinctAppend(P, S);
    DisjointAppend(Q, P, S);
    DistinctAppend(P + S, Q);
    DistinctAppend(R, U);
    DisjointAppend(P, R, U);
    DisjointAppend(S, R, U);
    DisjointAppend(Q, R, U);
    DisjointAppend(R + U, P, S);
    DisjointAppend(R + U, P + S, Q);
  }

  /** The last entry of each ring stays last. */
  lemma SpliceInInit<X>(s: seq<X>, p: nat, t: seq<X>, f: nat, l: nat)
    requires p < |s| && f <= l < |t|
    ensures SpliceIn(s, p, t, f, l)[..|s| + (l - f) - 1] == SpliceIn(s[..|s| - 1], p, t[..|t| - 1], f, l)
    ensures Cut(t, f, l)[..|t| - (l - f) - 1] == Cut(t[..|t| - 1], f, l)
  {
    var s', t' := s[..|s| - 1], t[..|t| - 1];
    assert s'[..p] == s[..p] && t'[f..l] == t[f..l] && t'[..f] == t[..f];
    assert s[p..] == s'[p..] + [s[|s| - 1]];
    assert t[l..] == t'[l..] + [t[|t| - 1]];
  }

  /** The elements of the spliced sequences are the spliced elements. */
  lemma ValuesSplice<T>(d: map<Id, T>, s: seq<Id>, p: nat, t: seq<Id>, f: nat, l: nat)
    requires AllIn(d, s) && AllIn(d, t) && p <= |s| && f <= l <= |t|
    ensures AllIn(d, SpliceIn(s, p, t, f, l)) && AllIn(d, Cut(t, f, l))
    ensures Values(d, SpliceIn(s, p, t, f, l)) == SpliceIn(Values(d, s), p, Values(d, t), f, l)
    ensures Values(d, Cut(t, f, l)) == Cut(Values(d, t), f, l)
  {
    ValuesSlice(d, s, 0, p);
    ValuesSlice(d, s, p, |s|);
    ValuesSlice(d, t, 0, f);
    ValuesSlice(d, t, f, l);
    ValuesSlice(d, t, l, |t|);
    assert s[0..p] == s[..p] && s[p..|s|] == s[p..] && t[0..f] == t[..f] && t[l..|t|] == t[l..];
    ValuesAppend(d, s[..p], t[f..l]);
    ValuesAppend(d, s[..p] + t[f..l], s[p..]);
    ValuesAppend(d, t[..f], t[l..]);
  }

  /** The elements travel from the second list into the first. */
  lemma AcrossContents<T>(h: Nodes<T>, r: Nodes<T>, o1: seq<Id>, o2: seq<Id>, p: nat, f: nat, l: nat)
    requires Stored(h, o1) && Stored(h, o2) && p < |o1| && f < l < |o2| && r.data == h.data
    ensures Stored(r, SpliceIn(o1, p, o2, f, l)) && Stored(r, Cut(o2, f, l))
    ensures Contents(r, SpliceIn(o1, p, o2, f, l)) == SpliceIn(Contents(h, o1), p, Contents(h, o2), f, l)
    ensures Contents(r, Cut(o2, f, l)) == Cut(Contents(h, o2), f, l)
  {
    var o1', o2' := SpliceIn(o1, p, o2, f, l), Cut(o2, f, l);
    ContentsValues(h, o1);
    ContentsValues(h, o2);
    SpliceInInit(o1, p, o2, f, l);
    ValuesSplice(h.data, o1[..|o1| - 1], p, o2[..|o2| - 1], f, l);
    assert Stored(r, o1') by {
      forall k | 0 <= k < |o1'| - 1 ensures o1'[k] in r.data {
        assert o1'[k] == o1'[..|o1'| - 1][k];
      }
    }
    assert Stored(r, o2') by {
      forall k | 0 <= k < |o2'| - 1 ensures o2'[k] in r.data {
        assert o2'[k] == o2'[..|o2'| - 1][k];
      }
    }
    ContentsValues(r, o1');
    ContentsValues(r, o2');
  }

  /** The junction nodes around a transfer between two rings are where `prev` says, and distinct. */
  lemma AcrossJunctions<T>(h: Nodes<T>, o1: seq<Id>, o2: seq<Id>, p: nat, f: nat, l: nat)
    requires Ring(h, o1) && Ring(h, o2) && Disjoint(o1, o2) && p < |o1| && f < l < |o2|
    ensures o1[p] in h.prev && o2[f] in h.prev && o2[l] in h.prev
    ensures h.prev[o2[f]] == Before(o2, f) && h.prev[o2[l]] == o2[l - 1] && h.prev[o1[p]] == Before(o1, p)
    ensures o1[p] != o2[f] && o1[p] != o2[l] && o2[f] != o2[l]
    ensures Before(o2, f) != o2[l - 1] && Before(o2, f) != Before(o1, p) && o2[l - 1] != Before(o1, p)
    ensures Before(o2, f) in h.next && o2[l - 1] in h.next && Before(o1, p) in h.next
  {
    PrevIsBefore(h, o1, p);
    PrevIsBefore(h, o2, f);
    PrevIsBefore(h, o2, l);
    var ai := if f == 0 then |o2| - 1 else f - 1;
    var ci := if p == 0 then |o1| - 1 else p - 1;
    assert Before(o2, f) == o2[ai] && Before(o1, p) == o1[ci];
  }

  /**
   * `transfer(pos, first, last)` from another list: with `pos` in the first ring
   * and `first` before `last` in the second, the nodes `[first, last)` leave the
   * second ring and stand in front of `pos` in the first, the elements travel
   * with them, both rings stay well formed and disjoint, no node is created or
   * destroyed, and only the six linked nodes change.
   */
  lemma TransferAcross<T>(h: Nodes<T>, o1: seq<Id>, o2: seq<Id>, p: nat, f: nat, l: nat)
    requires Ring(h, o1) && Ring(h, o2) && Disjoint(o1, o2) && p < |o1| && f < l < |o2|
    ensures o1[p] in h.prev && o2[f] in h.prev && o2[l] in h.prev
    ensures var r := Transfer(h, o1[p], o2[f], o2[l]);
      && Ring(r, SpliceIn(o1, p, o2, f, l)) && Ring(r, Cut(o2, f, l))
      && Disjoint(SpliceIn(o1, p, o2, f, l), Cut(o2, f, l))
      && Contents(r, SpliceIn(o1, p, o2, f, l)) == SpliceIn(Contents(h, o1), p, Contents(h, o2), f, l)
      && Contents(r, Cut(o2, f, l)) == Cut(Contents(h, o2), f, l)
      && r.data == h.data && r.next.Keys == h.next.Keys && r.prev.Keys == h.prev.Keys
      && AgreeOutside(h, r, {Before(o2, f), o2[l - 1], Before(o1, p), o1[p], o2[f], o2[l]})
  {
    AcrossJunctions(h, o1, o2, p, f, l);
    TransferChanges(h, o1[p], o2[f], o2[l]);
    TransferAgrees(h, o1[p], o2[f], o2[l]);
    var r := Transfer(h, o1[p], o2[f], o2[l]);
    DistinctAppend(o1, o2);
    if p > 0 {
      AcrossPieceOfFirst(h, r, o1, o2, p, f, l, 0, p);
    }
    AcrossPieceOfFirst(h, r, o1, o2, p, f, l, p, |o1|);
    if f > 0 {
      AcrossPieceOfSecond(h, r, o1, o2, p, f, l, 0, f);
    }
    AcrossPieceOfSecond(h, r, o1, o2, p, f, l, f, l);
    AcrossPieceOfSecond(h, r, o1, o2, p, f, l, l, |o2|);
    AcrossJoinFirst(r, o1, o2, p, f, l);
    AcrossJoinSecond(r, o1, o2, p, f, l);
    AcrossClosed(h, r, o1, o2, p, f, l);
    AcrossDistinct(o1, o2, p, f, l);
    AcrossContents(h, r, o1, o2, p, f, l);
  }
}
