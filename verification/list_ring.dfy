/**
 * The node level of list.h: a circular doubly linked list threaded through a
 * sentinel node.  Nodes are integer ids; `next`, `prev` and `data` give each
 * allocated node its two links and its element.  A list is described by the ring
 * order of its nodes, first element first and the sentinel (`end()`) last, so
 * that an iterator is an index into that order and `end()` is its last index.
 */
module ListRing {

  type Id = nat

  datatype Nodes<T> = Nodes(next: map<Id, Id>, prev: map<Id, Id>, data: map<Id, T>)

  /** The last node of a ring order: the sentinel. */
  function Last(o: seq<Id>): Id
    requires |o| > 0
  {
    o[|o| - 1]
  }

  ghost predicate Distinct(o: seq<Id>)
  {
    forall i, j :: 0 <= i < j < |o| ==> o[i] != o[j]
  }

  /** Consecutive nodes of `s` are allocated and link to each other, forward through `next` and back through `prev`. */
  ghost predicate Linked<T>(h: Nodes<T>, s: seq<Id>)
  {
    && (forall i :: 0 <= i < |s| ==> s[i] in h.next && s[i] in h.prev)
    && (forall i {:trigger h.next[s[i]]} :: 0 <= i < |s| - 1 ==> h.next[s[i]] == s[i + 1])
    && (forall i {:trigger h.prev[s[i]]} :: 0 < i < |s| ==> h.prev[s[i]] == s[i - 1])
  }

  /** The last node of `o` links around to the first. */
  ghost predicate Closed<T>(h: Nodes<T>, o: seq<Id>)
  {
    |o| > 0 && Last(o) in h.next && o[0] in h.prev && h.next[Last(o)] == o[0] && h.prev[o[0]] == Last(o)
  }

  /**
   * `o` is the ring of one list: distinct nodes, each linked to its neighbours
   * around the circle, and every node but the sentinel holding an element.
   */
  ghost predicate Ring<T>(h: Nodes<T>, o: seq<Id>)
  {
    |o| > 0 && Distinct(o) && Linked(h, o) && Closed(h, o) && Stored(h, o)
  }

  /** Every node of `o` but the last holds an element. */
  ghost predicate Stored<T>(h: Nodes<T>, o: seq<Id>)
  {
    |o| > 0 && forall i :: 0 <= i < |o| - 1 ==> o[i] in h.data
  }

  /** The elements of the list, from `begin()` up to `end()`. */
  ghost function Contents<T>(h: Nodes<T>, o: seq<Id>): (c: seq<T>)
    requires Stored(h, o)
  {
    seq(|o| - 1, i requires 0 <= i < |o| - 1 => h.data[o[i]])
  }

  /** `h` and `r` agree on every node outside `changed`: allocation, links and element. */
  ghost predicate AgreeOutside<T>(h: Nodes<T>, r: Nodes<T>, changed: set<Id>)
  {
    forall x :: x !in changed ==>
      && (x in r.next <==> x in h.next) && (x in h.next ==> r.next[x] == h.next[x])
      && (x in r.prev <==> x in h.prev) && (x in h.prev ==> r.prev[x] == h.prev[x])
      && (x in r.data <==> x in h.data) && (x in h.data ==> r.data[x] == h.data[x])
  }

  // ---------------------------------------------------------------------------
  // The effect of the node operations on a sequence of elements.

  /** `s` with `v` inserted before index `i`. */
  function InsertAt<X>(s: seq<X>, i: nat, v: X): (r: seq<X>)
    requires i <= |s|
    ensures |r| == |s| + 1 && r[i] == v
    ensures forall k :: 0 <= k < i ==> r[k] == s[k]
    ensures forall k :: i < k < |r| ==> r[k] == s[k - 1]
  {
    s[..i] + [v] + s[i..]
  }

  /** `s` without its element at index `i`. */
  function RemoveAt<X>(s: seq<X>, i: nat): (r: seq<X>)
    requires i < |s|
    ensures |r| == |s| - 1
    ensures forall k :: 0 <= k < i ==> r[k] == s[k]
    ensures forall k :: i <= k < |r| ==> r[k] == s[k + 1]
  {
    s[..i] + s[i + 1..]
  }

  /**
   * `s` with the block `s[f..l]` moved to stand just before index `p`, which lies
   * outside the block and is not its end `l` (that move changes nothing).
   */
  function MoveBefore<X>(s: seq<X>, p: nat, f: nat, l: nat): (r: seq<X>)
    requires f < l <= |s| && p <= |s| && (p < f || l < p)
    ensures |r| == |s|
  {
    if p < f then s[..p] + s[f..l] + s[p..f] + s[l..]
    else s[..f] + s[l..p] + s[f..l] + s[p..]
  }

  // ---------------------------------------------------------------------------
  // Building rings from linked pieces.

  /** Two linked pieces joined by a link both ways are linked. */
  lemma LinkedAppend<T>(h: Nodes<T>, s: seq<Id>, t: seq<Id>)
    requires Linked(h, s) && Linked(h, t) && |s| > 0 && |t| > 0
    requires Last(s) in h.next && t[0] in h.prev && h.next[Last(s)] == t[0] && h.prev[t[0]] == Last(s)
    ensures Linked(h, s + t)
  {
    var u := s + t;
    forall i | 0 <= i < |u|
      ensures u[i] in h.next && u[i] in h.prev
    {
      if i >= |s| {
        assert u[i] == t[i - |s|];
      }
    }
    forall i | 0 <= i < |u| - 1
      ensures h.next[u[i]] == u[i + 1]
    {
      if i >= |s| {
        assert u[i] == t[i - |s|] && u[i + 1] == t[i - |s| + 1];
        assert h.next[t[i - |s|]] == t[i - |s| + 1];
      } else if i < |s| - 1 {
        assert h.next[s[i]] == s[i + 1];
      }
    }
    forall i | 0 < i < |u|
      ensures h.prev[u[i]] == u[i - 1]
    {
      if i > |s| {
        assert u[i] == t[i - |s|] && u[i - 1] == t[i - |s| - 1];
        assert h.prev[t[i - |s|]] == t[i - |s| - 1];
      } else if i < |s| {
        assert h.prev[s[i]] == s[i - 1];
      }
    }
  }

  /** A piece of a linked sequence is linked. */
  lemma LinkedSlice<T>(h: Nodes<T>, s: seq<Id>, i: nat, j: nat)
    requires Linked(h, s) && i <= j <= |s|
    ensures Linked(h, s[i..j])
  {
    var u := s[i..j];
    forall k | 0 <= k < |u|
      ensures u[k] in h.next && u[k] in h.prev
    {
      assert u[k] == s[i + k];
    }
    forall k | 0 <= k < |u| - 1
      ensures h.next[u[k]] == u[k + 1]
    {
      assert h.next[s[i + k]] == s[i + k + 1];
    }
    forall k | 0 < k < |u|
      ensures h.prev[u[k]] == u[k - 1]
    {
      assert h.prev[s[i + k]] == s[i + k - 1];
    }
  }

  /**
   * A linked piece stays linked in `r` when `r` keeps the `next` of all its nodes
   * but the last and the `prev` of all its nodes but the first.
   */
  lemma LinkedKept<T>(h: Nodes<T>, r: Nodes<T>, s: seq<Id>)
    requires Linked(h, s)
    requires forall k :: 0 <= k < |s| ==> s[k] in r.next && s[k] in r.prev
    requires forall k {:trigger r.next[s[k]]} :: 0 <= k < |s| - 1 ==> r.next[s[k]] == h.next[s[k]]
    requires forall k {:trigger r.prev[s[k]]} :: 0 < k < |s| ==> r.prev[s[k]] == h.prev[s[k]]
    ensures Linked(r, s)
  {
    forall i | 0 <= i < |s| - 1
      ensures r.next[s[i]] == s[i + 1]
    {
      assert h.next[s[i]] == s[i + 1];
    }
    forall i | 0 < i < |s|
      ensures r.prev[s[i]] == s[i - 1]
    {
      assert h.prev[s[i]] == s[i - 1];
    }
  }

  // ---------------------------------------------------------------------------
  // empty_initialize, empty, insert, erase.

  /** `empty_initialize()`: a newNode sentinel linked to itself both ways. */
  function EmptyInitialize<T>(h: Nodes<T>, newNode: Id): (r: Nodes<T>)
    requires newNode !in h.next && newNode !in h.prev && newNode !in h.data
    ensures Ring(r, [newNode]) && Contents(r, [newNode]) == [] && Empty(r, newNode)
    ensures AgreeOutside(h, r, {newNode})
  {
    Nodes(h.next[newNode := newNode], h.prev[newNode := newNode], h.data)
  }

  /** `empty()`: the sentinel's `next` is the sentinel. */
  function Empty<T>(h: Nodes<T>, sentinel: Id): bool
    requires sentinel in h.next
  {
    h.next[sentinel] == sentinel
  }

  /** A list is empty exactly when it holds no element. */
  lemma EmptyIffNoElements<T>(h: Nodes<T>, o: seq<Id>)
    requires Ring(h, o)
    ensures Empty(h, Last(o)) <==> Contents(h, o) == []
  {
    if |o| > 1 {
      assert o[0] != Last(o);
      assert |Contents(h, o)| > 0;
    }
  }

  /** Around a ring, `next` and `prev` undo each other. */
  lemma NextPrevInverse<T>(h: Nodes<T>, o: seq<Id>, i: nat)
    requires Ring(h, o) && i < |o|
    ensures h.next[o[i]] in h.prev && h.prev[h.next[o[i]]] == o[i]
    ensures h.prev[o[i]] in h.next && h.next[h.prev[o[i]]] == o[i]
  {
    if i < |o| - 1 {
      assert h.next[o[i]] == o[i + 1] && h.prev[o[i + 1]] == o[i];
    }
    if i > 0 {
      assert h.prev[o[i]] == o[i - 1] && h.next[o[i - 1]] == o[i];
    }
  }

  /** The node before index `i` around the ring. */
  function Before(o: seq<Id>, i: nat): Id
    requires i < |o|
  {
    if i == 0 then Last(o) else o[i - 1]
  }

  /** In a ring, `prev` of the node at `i` is the node before it. */
  lemma PrevIsBefore<T>(h: Nodes<T>, o: seq<Id>, i: nat)
    requires Ring(h, o) && i < |o|
    ensures h.prev[o[i]] == Before(o, i) && Before(o, i) in h.next
  {
    if i > 0 {
      assert h.prev[o[i]] == o[i - 1];
    }
  }

  /**
   * `insert(pos, v)`: a new node between `pos` and its predecessor, linked both ways.
   * (The source declares an iterator result but returns none; nothing is returned here.)
   */
  function Insert<T>(h: Nodes<T>, pos: Id, v: T, newNode: Id): (r: Nodes<T>)
    requires pos in h.prev
    ensures r.data == h.data[newNode := v]
    ensures newNode in r.next && r.next[newNode] == pos && pos in r.prev && r.prev[pos] == newNode
    ensures newNode != pos && h.prev[pos] != newNode ==>
              && newNode in r.prev && r.prev[newNode] == h.prev[pos]
              && h.prev[pos] in r.next && r.next[h.prev[pos]] == newNode
    ensures forall x :: x in h.next && x != h.prev[pos] && x != newNode ==> x in r.next && r.next[x] == h.next[x]
  {
    var p := h.prev[pos];
    Nodes(h.next[p := newNode][newNode := pos], h.prev[newNode := p][pos := newNode], h.data[newNode := v])
  }

  /** A node outside a distinct sequence keeps it distinct wherever it is inserted. */
  lemma DistinctInsert(o: seq<Id>, i: nat, x: Id)
    requires Distinct(o) && i <= |o| && NotIn(o, x)
    ensures Distinct(InsertAt(o, i, x))
  {
    var o' := InsertAt(o, i, x);
    forall a, b | 0 <= a < b < |o'|
      ensures o'[a] != o'[b]
    {
      if a < i && b > i {
        assert o'[a] == o[a] && o'[b] == o[b - 1];
      } else if b < i {
        assert o'[a] == o[a] && o'[b] == o[b];
      } else if a > i {
        assert o'[a] == o[a - 1] && o'[b] == o[b - 1];
      } else if a == i {
        assert o'[b] == o[b - 1];
      } else {
        assert o'[a] == o[a];
      }
    }
  }

  /** `x` is none of the nodes of `o`. */
  ghost predicate NotIn(o: seq<Id>, x: Id)
  {
    forall k :: 0 <= k < |o| ==> o[k] != x
  }

  /** The nodes before `pos` keep their links when `x` is linked in between `p` and `pos`. */
  lemma LinkInKeepsPrefix<T>(h: Nodes<T>, r: Nodes<T>, o: seq<Id>, i: nat, x: Id)
    requires Linked(h, o) && Distinct(o) && NotIn(o, x) && 0 < i < |o|
    requires r.next == h.next[o[i - 1] := x][x := o[i]] && r.prev == h.prev[x := o[i - 1]][o[i] := x]
    ensures Linked(r, o[..i])
  {
    var A := o[..i];
    LinkedSlice(h, o, 0, i);
    forall k | 0 <= k < |A| - 1 ensures A[k] in r.next && r.next[A[k]] == h.next[A[k]] {
      assert A[k] == o[k];
    }
    LinkedKept(h, r, A);
  }

  /** The nodes from `pos` on keep their links when `x` is linked in between `p` and `pos`. */
  lemma LinkInKeepsSuffix<T>(h: Nodes<T>, r: Nodes<T>, o: seq<Id>, i: nat, p: Id, x: Id)
    requires Linked(h, o) && Distinct(o) && NotIn(o, x) && i < |o|
    requires forall k :: i <= k < |o| - 1 ==> o[k] != p
    requires r.next == h.next[p := x][x := o[i]] && r.prev == h.prev[x := p][o[i] := x]
    ensures Linked(r, o[i..])
  {
    LinkedSlice(h, o, i, |o|);
    SuffixAvoids(o, i, p, x);
    LinkInKeepsRun(h, r, o[i..], p, x);
  }

  /** The suffix `o[i..]` avoids `x`, repeats no `o[i]` after its head, and holds `p` only at its end. */
  lemma SuffixAvoids(o: seq<Id>, i: nat, p: Id, x: Id)
    requires Distinct(o) && NotIn(o, x) && i < |o|
    requires forall k :: i <= k < |o| - 1 ==> o[k] != p
    ensures AvoidsRelink(o[i..], p, x)
  {
    var B := o[i..];
    forall k | 0 <= k < |B| ensures B[k] != x && (k > 0 ==> B[k] != B[0]) && (k < |B| - 1 ==> B[k] != p) {
      assert B[k] == o[i + k] && B[0] == o[i];
    }
  }

  /** No entry of `B` is `x`, none after the head is the head, and none before the last is `p`. */
  ghost predicate AvoidsRelink(B: seq<Id>, p: Id, x: Id)
  {
    forall k :: 0 <= k < |B| ==> B[k] != x && (k > 0 ==> B[k] != B[0]) && (k < |B| - 1 ==> B[k] != p)
  }

  /** A linked run headed by the node `x` is linked in front of keeps its links. */
  lemma LinkInKeepsRun<T>(h: Nodes<T>, r: Nodes<T>, B: seq<Id>, p: Id, x: Id)
    requires Linked(h, B) && |B| > 0 && AvoidsRelink(B, p, x)
    requires r.next == h.next[p := x][x := B[0]] && r.prev == h.prev[x := p][B[0] := x]
    ensures Linked(r, B)
  {
    LinkedKept(h, r, B);
  }

  /** Two linked runs with `x` linked in between them make one linked run. */
  lemma LinkInJoins<T>(r: Nodes<T>, o: seq<Id>, i: nat, x: Id)
    requires 0 < i < |o|
    requires Linked(r, o[..i]) && Linked(r, o[i..]) && x in r.next && x in r.prev
    requires r.next[o[i - 1]] == x && r.next[x] == o[i] && r.prev[x] == o[i - 1] && r.prev[o[i]] == x
    ensures Linked(r, InsertAt(o, i, x))
  {
    LinkedAppend(r, o[..i], [x]);
    LinkedAppend(r, o[..i] + [x], o[i..]);
    assert InsertAt(o, i, x) == o[..i] + [x] + o[i..];
  }

  /** `insert` before an element node keeps the ring linked, with the new node in place. */
  lemma InsertLinked<T>(h: Nodes<T>, o: seq<Id>, i: nat, v: T, newNode: Id)
    requires Linked(h, o) && Distinct(o) && NotIn(o, newNode) && i < |o|
    requires h.prev[o[i]] == Before(o, i)
    ensures Linked(Insert(h, o[i], v, newNode), InsertAt(o, i, newNode))
  {
    var r := Insert(h, o[i], v, newNode);
    if i > 0 {
      LinkInKeepsPrefix(h, r, o, i, newNode);
      LinkInKeepsSuffix(h, r, o, i, o[i - 1], newNode);
      LinkInJoins(r, o, i, newNode);
    } else {
      LinkInKeepsSuffix(h, r, o, 0, Last(o), newNode);
      LinkedAppend(r, [newNode], o);
      assert InsertAt(o, 0, newNode) == [newNode] + o;
      assert o[0..] == o;
    }
  }

  /** `insert` keeps the ring closed: the sentinel still links around to the first node. */
  lemma InsertClosed<T>(h: Nodes<T>, o: seq<Id>, i: nat, v: T, newNode: Id)
    requires Closed(h, o) && NotIn(o, newNode) && i < |o|
    requires i > 0 ==> Last(o) != o[i - 1] && o[0] != o[i]
    requires o[i] in h.prev && h.prev[o[i]] == Before(o, i)
    ensures Closed(Insert(h, o[i], v, newNode), InsertAt(o, i, newNode))
  {
  }

  /**
   * `insert` before the node at index `i` of a ring: the new node joins the ring
   * just before it, the element joins the contents at `i`, and no node other than
   * the new one, `pos` and its predecessor changes.
   */
  lemma InsertLinks<T>(h: Nodes<T>, o: seq<Id>, i: nat, v: T, newNode: Id)
    requires Ring(h, o) && i < |o|
    requires newNode !in h.next && newNode !in h.prev && newNode !in h.data
    ensures o[i] in h.prev
    ensures var r := Insert(h, o[i], v, newNode);
      && Ring(r, InsertAt(o, i, newNode))
      && Contents(r, InsertAt(o, i, newNode)) == InsertAt(Contents(h, o), i, v)
      && AgreeOutside(h, r, {Before(o, i), o[i], newNode})
  {
    var r := Insert(h, o[i], v, newNode);
    var o' := InsertAt(o, i, newNode);
    PrevIsBefore(h, o, i);
    assert NotIn(o, newNode);
    DistinctInsert(o, i, newNode);
    InsertLinked(h, o, i, v, newNode);
    InsertClosed(h, o, i, v, newNode);
    assert Stored(r, o');
    InsertContents(h, o, i, v, newNode);
  }

  /** The new node's element lands at index `i` of the contents. */
  lemma InsertContents<T>(h: Nodes<T>, o: seq<Id>, i: nat, v: T, newNode: Id)
    requires Stored(h, o) && i < |o| && NotIn(o, newNode) && o[i] in h.prev
    requires Stored(Insert(h, o[i], v, newNode), InsertAt(o, i, newNode))
    ensures Contents(Insert(h, o[i], v, newNode), InsertAt(o, i, newNode)) == InsertAt(Contents(h, o), i, v)
  {
    var r := Insert(h, o[i], v, newNode);
    var o' := InsertAt(o, i, newNode);
    var c := Contents(h, o);
    var c' := Contents(r, o');
    forall k | 0 <= k < |c'|
      ensures c'[k] == InsertAt(c, i, v)[k]
    {
      if k < i {
        assert o'[k] == o[k];
      } else if k > i {
        assert o'[k] == o[k - 1];
      }
    }
  }

  /**
   * `erase(pos)`: the neighbours of `pos` are linked to each other and `pos` is
   * destroyed and released; the result is the iterator to its successor.
   */
  function Erase<T>(h: Nodes<T>, pos: Id): (r: (Nodes<T>, Id))
    requires pos in h.next && pos in h.prev
    ensures r.1 == h.next[pos]
    ensures pos !in r.0.next && pos !in r.0.prev && r.0.data == h.data - {pos}
    ensures h.prev[pos] != pos && h.next[pos] != pos ==>
              && h.prev[pos] in r.0.next && r.0.next[h.prev[pos]] == h.next[pos]
              && h.next[pos] in r.0.prev && r.0.prev[h.next[pos]] == h.prev[pos]
  {
    var succ := h.next[pos];
    var p := h.prev[pos];
    (Nodes(h.next[p := succ] - {pos}, h.prev[succ := p] - {pos}, h.data - {pos}), succ)
  }

  /** Removing an element keeps a sequence distinct. */
  lemma DistinctRemove(o: seq<Id>, i: nat)
    requires Distinct(o) && i < |o|
    ensures Distinct(RemoveAt(o, i)) && NotIn(RemoveAt(o, i), o[i])
  {
    var o' := RemoveAt(o, i);
    forall a, b | 0 <= a < b < |o'|
      ensures o'[a] != o'[b]
    {
      if b < i {
        assert o'[a] == o[a] && o'[b] == o[b];
      } else if a >= i {
        assert o'[a] == o[a + 1] && o'[b] == o[b + 1];
      } else {
        assert o'[a] == o[a] && o'[b] == o[b + 1];
      }
    }
    forall k | 0 <= k < |o'|
      ensures o'[k] != o[i]
    {
      if k < i {
        assert o'[k] == o[k];
      } else {
        assert o'[k] == o[k + 1];
      }
    }
  }

  /** The nodes before `pos` keep their links when `pos` is unlinked. */
  lemma UnlinkKeepsPrefix<T>(h: Nodes<T>, r: Nodes<T>, o: seq<Id>, i: nat)
    requires Linked(h, o) && Distinct(o) && 0 < i < |o| - 1
    requires r.next == h.next[o[i - 1] := o[i + 1]] - {o[i]} && r.prev == h.prev[o[i + 1] := o[i - 1]] - {o[i]}
    ensures Linked(r, o[..i])
  {
    var A := o[..i];
    LinkedSlice(h, o, 0, i);
    forall k | 0 <= k < |A| ensures A[k] in r.next && A[k] in r.prev {
      assert A[k] == o[k];
    }
    forall k | 0 <= k < |A| - 1 ensures r.next[A[k]] == h.next[A[k]] {
      assert A[k] == o[k];
    }
    forall k | 0 < k < |A| ensures r.prev[A[k]] == h.prev[A[k]] {
      assert A[k] == o[k];
    }
    LinkedKept(h, r, A);
  }

  /** The nodes after `pos` keep their links when `pos` is unlinked. */
  lemma UnlinkKeepsSuffix<T>(h: Nodes<T>, r: Nodes<T>, o: seq<Id>, i: nat, p: Id)
    requires Linked(h, o) && Distinct(o) && i < |o| - 1
    requires forall k :: i + 1 <= k < |o| - 1 ==> o[k] != p
    requires r.next == h.next[p := o[i + 1]] - {o[i]} && r.prev == h.prev[o[i + 1] := p] - {o[i]}
    ensures Linked(r, o[i + 1..])
  {
    LinkedSlice(h, o, i + 1, |o|);
    UnlinkSuffixAvoids(o, i, p);
    UnlinkKeepsRun(h, r, o[i + 1..], p, o[i]);
  }

  /** The suffix after `o[i]` avoids `o[i]`, repeats no head, and holds `p` only at its end. */
  lemma UnlinkSuffixAvoids(o: seq<Id>, i: nat, p: Id)
    requires Distinct(o) && i < |o| - 1
    requires forall k :: i + 1 <= k < |o| - 1 ==> o[k] != p
    ensures AvoidsRelink(o[i + 1..], p, o[i])
  {
    var B := o[i + 1..];
    forall k | 0 <= k < |B| ensures B[k] != o[i] && (k > 0 ==> B[k] != B[0]) && (k < |B| - 1 ==> B[k] != p) {
      assert B[k] == o[i + 1 + k] && B[0] == o[i + 1];
    }
  }

  /** A linked run keeps its links when the node `x` in front of it is unlinked. */
  lemma UnlinkKeepsRun<T>(h: Nodes<T>, r: Nodes<T>, B: seq<Id>, p: Id, x: Id)
    requires Linked(h, B) && |B| > 0 && AvoidsRelink(B, p, x)
    requires r.next == h.next[p := B[0]] - {x} && r.prev == h.prev[B[0] := p] - {x}
    ensures Linked(r, B)
  {
    LinkedKept(h, r, B);
  }

  /** `erase` of an element node keeps the ring linked without it. */
  lemma EraseLinked<T>(h: Nodes<T>, o: seq<Id>, i: nat)
    requires Linked(h, o) && Distinct(o) && i < |o| - 1
    requires h.prev[o[i]] == Before(o, i)
    ensures Linked(Erase(h, o[i]).0, RemoveAt(o, i))
  {
    var r := Erase(h, o[i]).0;
    assert h.next[o[i]] == o[i + 1];
    if i > 0 {
      UnlinkKeepsPrefix(h, r, o, i);
      UnlinkKeepsSuffix(h, r, o, i, o[i - 1]);
      LinkedAppend(r, o[..i], o[i + 1..]);
    } else {
      UnlinkKeepsSuffix(h, r, o, 0, Last(o));
      assert RemoveAt(o, 0) == o[1..];
    }
  }

  /** `erase` keeps the ring closed. */
  lemma EraseClosed<T>(h: Nodes<T>, o: seq<Id>, i: nat)
    requires Closed(h, o) && Distinct(o) && i < |o| - 1
    requires o[i] in h.next && o[i] in h.prev && h.next[o[i]] == o[i + 1] && h.prev[o[i]] == Before(o, i)
    ensures Closed(Erase(h, o[i]).0, RemoveAt(o, i))
  {
    assert Last(o) != o[i] && o[0] != o[i + 1];
    if i > 0 {
      assert Last(o) != o[i - 1];
    }
  }

  /** Every node left by `erase` still holds its element. */
  lemma EraseStored<T>(h: Nodes<T>, o: seq<Id>, i: nat)
    requires Stored(h, o) && Distinct(o) && i < |o| - 1 && o[i] in h.next && o[i] in h.prev
    ensures Stored(Erase(h, o[i]).0, RemoveAt(o, i))
  {
    var r := Erase(h, o[i]).0;
    var o' := RemoveAt(o, i);
    forall k | 0 <= k < |o'| - 1 ensures o'[k] in r.data {
      if k < i { assert o'[k] == o[k]; } else { assert o'[k] == o[k + 1]; }
    }
  }

  /** The erased node's element leaves index `i` of the contents. */
  lemma EraseContents<T>(h: Nodes<T>, o: seq<Id>, i: nat)
    requires Stored(h, o) && Distinct(o) && i < |o| - 1 && o[i] in h.next && o[i] in h.prev
    requires Stored(Erase(h, o[i]).0, RemoveAt(o, i))
    ensures Contents(Erase(h, o[i]).0, RemoveAt(o, i)) == RemoveAt(Contents(h, o), i)
  {
    var r := Erase(h, o[i]).0;
    var o' := RemoveAt(o, i);
    var c := Contents(h, o);
    var c' := Contents(r, o');
    forall k | 0 <= k < |c'|
      ensures c'[k] == RemoveAt(c, i)[k]
    {
      if k < i {
        assert o'[k] == o[k];
      } else {
        assert o'[k] == o[k + 1];
      }
    }
  }

  /** `erase` touches only the erased node and its two neighbours. */
  lemma EraseAgrees<T>(h: Nodes<T>, pos: Id)
    requires pos in h.next && pos in h.prev
    ensures AgreeOutside(h, Erase(h, pos).0, {h.prev[pos], pos, h.next[pos]})
  {
  }

  /**
   * `erase` of the node at index `i` of a ring, which is not the sentinel: the
   * node leaves the ring and is released, its element leaves the contents, the
   * successor is returned, and no node other than the two neighbours changes.
   */
  lemma EraseLinks<T>(h: Nodes<T>, o: seq<Id>, i: nat)
    requires Ring(h, o) && i < |o| - 1
    ensures o[i] in h.next && o[i] in h.prev
    ensures Ring(Erase(h, o[i]).0, RemoveAt(o, i))
    ensures Contents(Erase(h, o[i]).0, RemoveAt(o, i)) == RemoveAt(Contents(h, o), i)
    ensures Erase(h, o[i]).1 == o[i + 1]
    ensures o[i] !in Erase(h, o[i]).0.next && o[i] !in Erase(h, o[i]).0.prev && o[i] !in Erase(h, o[i]).0.data
    ensures AgreeOutside(h, Erase(h, o[i]).0, {Before(o, i), o[i], o[i + 1]})
  {
    PrevIsBefore(h, o, i);
    assert h.next[o[i]] == o[i + 1];
    DistinctRemove(o, i);
    EraseLinked(h, o, i);
    EraseClosed(h, o, i);
    EraseStored(h, o, i);
    EraseContents(h, o, i);
    EraseAgrees(h, o[i]);
  }

  // ---------------------------------------------------------------------------
  // Element access, size, and the push and pop operations.

  /**
   * `front()` reads the node after the sentinel and `back()` the node before it:
   * the first and the last element of a list that is not empty.
   */
  lemma FrontBack<T>(h: Nodes<T>, o: seq<Id>)
    requires Ring(h, o) && |o| > 1
    ensures Last(o) in h.next && Last(o) in h.prev
    ensures h.next[Last(o)] in h.data && h.data[h.next[Last(o)]] == Contents(h, o)[0]
    ensures h.prev[Last(o)] in h.data && h.data[h.prev[Last(o)]] == Contents(h, o)[|o| - 2]
  {
    assert h.next[Last(o)] == o[0];
    assert h.prev[o[|o| - 1]] == o[|o| - 2];
  }

  /** The node reached from `x` by following `next` `n` times. */
  ghost function Walk<T>(h: Nodes<T>, x: Id, n: nat): Id
    decreases n
  {
    if n == 0 then x else if x in h.next then Walk(h, h.next[x], n - 1) else x
  }

  /** Around a ring, `n` steps from index `i` reach index `i + n`. */
  lemma {:induction false} WalkAlong<T>(h: Nodes<T>, o: seq<Id>, i: nat, n: nat)
    requires Linked(h, o) && i + n < |o|
    ensures Walk(h, o[i], n) == o[i + n]
    decreases n
  {
    if n > 0 {
      assert h.next[o[i]] == o[i + 1];
      WalkAlong(h, o, i + 1, n - 1);
    }
  }

  /**
   * `size()` is `distance(begin(), end())`: the sentinel is first reached from
   * `begin()` after exactly as many steps as the list has elements.
   */
  lemma SizeIsDistance<T>(h: Nodes<T>, o: seq<Id>)
    requires Ring(h, o)
    ensures Last(o) in h.next
    ensures Walk(h, h.next[Last(o)], |Contents(h, o)|) == Last(o)
    ensures forall n: nat :: n < |Contents(h, o)| ==> Walk(h, h.next[Last(o)], n) != Last(o)
  {
    assert h.next[Last(o)] == o[0];
    assert |Contents(h, o)| == |o| - 1;
    WalkAlong(h, o, 0, |o| - 1);
    forall n: nat | n < |Contents(h, o)|
      ensures Walk(h, h.next[Last(o)], n) != Last(o)
    {
      WalkAlong(h, o, 0, n);
    }
  }

  /** `push_back(v)` is `insert(end(), v)`: the element joins at the back. */
  lemma PushBack<T>(h: Nodes<T>, o: seq<Id>, v: T, newNode: Id)
    requires Ring(h, o)
    requires newNode !in h.next && newNode !in h.prev && newNode !in h.data
    ensures Last(o) in h.prev
    ensures Ring(Insert(h, Last(o), v, newNode), InsertAt(o, |o| - 1, newNode))
    ensures Contents(Insert(h, Last(o), v, newNode), InsertAt(o, |o| - 1, newNode)) == Contents(h, o) + [v]
  {
    InsertLinks(h, o, |o| - 1, v, newNode);
    assert InsertAt(Contents(h, o), |o| - 1, v) == Contents(h, o) + [v];
  }

  /** `push_front(v)` is `insert(begin(), v)`: the element joins at the front. */
  lemma PushFront<T>(h: Nodes<T>, o: seq<Id>, v: T, newNode: Id)
    requires Ring(h, o)
    requires newNode !in h.next && newNode !in h.prev && newNode !in h.data
    ensures Last(o) in h.next && h.next[Last(o)] in h.prev
    ensures Ring(Insert(h, h.next[Last(o)], v, newNode), InsertAt(o, 0, newNode))
    ensures Contents(Insert(h, h.next[Last(o)], v, newNode), InsertAt(o, 0, newNode)) == [v] + Contents(h, o)
  {
    assert h.next[Last(o)] == o[0];
    InsertLinks(h, o, 0, v, newNode);
    assert InsertAt(Contents(h, o), 0, v) == [v] + Contents(h, o);
  }

  /** `pop_back()` is `erase(--end())`: the last element leaves a list that is not empty. */
  lemma PopBack<T>(h: Nodes<T>, o: seq<Id>)
    requires Ring(h, o) && |o| > 1
    ensures Last(o) in h.prev && h.prev[Last(o)] in h.next && h.prev[Last(o)] in h.prev
    ensures Ring(Erase(h, h.prev[Last(o)]).0, RemoveAt(o, |o| - 2))
    ensures Contents(Erase(h, h.prev[Last(o)]).0, RemoveAt(o, |o| - 2)) == Contents(h, o)[..|o| - 2]
  {
    assert h.prev[o[|o| - 1]] == o[|o| - 2];
    EraseLinks(h, o, |o| - 2);
    assert RemoveAt(Contents(h, o), |o| - 2) == Contents(h, o)[..|o| - 2];
  }

  /** `pop_front()` is `erase(begin())`: the first element leaves a list that is not empty. */
  lemma PopFront<T>(h: Nodes<T>, o: seq<Id>)
    requires Ring(h, o) && |o| > 1
    ensures Last(o) in h.next && h.next[Last(o)] in h.next && h.next[Last(o)] in h.prev
    ensures Ring(Erase(h, h.next[Last(o)]).0, RemoveAt(o, 0))
    ensures Contents(Erase(h, h.next[Last(o)]).0, RemoveAt(o, 0)) == Contents(h, o)[1..]
  {
    assert h.next[Last(o)] == o[0];
    EraseLinks(h, o, 0);
    assert RemoveAt(Contents(h, o), 0) == Contents(h, o)[1..];
  }
}
