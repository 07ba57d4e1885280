/**
 * The element-moving algorithms the containers are built from (`std::copy`,
 * `std::copy_backward`, `std::fill` and their uninitialised-storage variants),
 * on a buffer modelled as `seq<int>`: each returns the buffer after its writes.
 * Constructing into raw storage and assigning over a live element are the same
 * write at this level.
 */
module SeqAlgorithms {

  /** `n` copies of `x`. */
  function Repeat<X>(x: X, n: nat): (r: seq<X>)
    ensures |r| == n && forall k :: 0 <= k < n ==> r[k] == x
  {
    seq(n, _ => x)
  }

  /** Freshly allocated storage of `n` slots; its contents are never read before being written. */
  function Raw(n: nat): (r: seq<int>)
    ensures |r| == n
  {
    Repeat(0, n)
  }

  /**
   * `std::copy(first, last, dest)` within one buffer, front to back.  The
   * destination may start at or before `first` even when the ranges overlap, or
   * at or after `last`.
   */
  method Copy(buf: seq<int>, first: nat, last: nat, dest: nat) returns (r: seq<int>, destEnd: nat)
    requires first <= last <= |buf| && dest + (last - first) <= |buf|
    requires dest <= first || last <= dest
    ensures |r| == |buf| && destEnd == dest + (last - first)
    ensures forall k :: dest <= k < destEnd ==> r[k] == buf[first + (k - dest)]
    ensures forall k :: 0 <= k < |buf| && !(dest <= k < destEnd) ==> r[k] == buf[k]
  {
    r := buf;
    var i := 0;
    while i < last - first
      invariant 0 <= i <= last - first && |r| == |buf|
      invariant forall k :: dest <= k < dest + i ==> r[k] == buf[first + (k - dest)]
      invariant forall k :: 0 <= k < |buf| && !(dest <= k < dest + i) ==> r[k] == buf[k]
    {
      r := r[dest + i := r[first + i]];
      i := i + 1;
    }
    destEnd := dest + (last - first);
  }

  /**
   * `std::copy_backward(first, last, destLast)` within one buffer, back to front:
   * the range lands so that it ends at `destLast`.  The destination may end at or
   * after `last` even when the ranges overlap, or at or before `first`.
   */
  method CopyBackward(buf: seq<int>, first: nat, last: nat, destLast: nat) returns (r: seq<int>)
    requires first <= last <= |buf| && last - first <= destLast <= |buf|
    requires last <= destLast || destLast <= first
    ensures |r| == |buf|
    ensures forall k :: destLast - (last - first) <= k < destLast ==> r[k] == buf[first + (k - (destLast - (last - first)))]
    ensures forall k :: 0 <= k < |buf| && !(destLast - (last - first) <= k < destLast) ==> r[k] == buf[k]
  {
    r := buf;
    var i := 0;
    while i < last - first
      invariant 0 <= i <= last - first && |r| == |buf|
      invariant forall k :: destLast - i <= k < destLast ==> r[k] == buf[first + (k - (destLast - (last - first)))]
      invariant forall k :: 0 <= k < |buf| && !(destLast - i <= k < destLast) ==> r[k] == buf[k]
    {
      r := r[destLast - 1 - i := r[last - 1 - i]];
      i := i + 1;
    }
  }

  /** `std::fill(first, last, x)` and `uninitialized_fill_n(first, last - first, x)`. */
  method Fill(buf: seq<int>, first: nat, last: nat, x: int) returns (r: seq<int>)
    requires first <= last <= |buf|
    ensures |r| == |buf|
    ensures forall k :: first <= k < last ==> r[k] == x
    ensures forall k :: 0 <= k < |buf| && !(first <= k < last) ==> r[k] == buf[k]
  {
    r := buf;
    var i := first;
    while i < last
      invariant first <= i <= last && |r| == |buf|
      invariant forall k :: first <= k < i ==> r[k] == x
      invariant forall k :: 0 <= k < |buf| && !(first <= k < i) ==> r[k] == buf[k]
    {
      r := r[i := x];
      i := i + 1;
    }
  }

  /** `uninitialized_copy(first, last, dest)` from one buffer into another, distinct one. */
  method CopyAcross(src: seq<int>, first: nat, last: nat, dst: seq<int>, dest: nat) returns (r: seq<int>, destEnd: nat)
    requires first <= last <= |src| && dest + (last - first) <= |dst|
    ensures |r| == |dst| && destEnd == dest + (last - first)
    ensures forall k :: dest <= k < destEnd ==> r[k] == src[first + (k - dest)]
    ensures forall k :: 0 <= k < |dst| && !(dest <= k < destEnd) ==> r[k] == dst[k]
  {
    r := dst;
    var i := 0;
    while i < last - first
      invariant 0 <= i <= last - first && |r| == |dst|
      invariant forall k :: dest <= k < dest + i ==> r[k] == src[first + (k - dest)]
      invariant forall k :: 0 <= k < |dst| && !(dest <= k < dest + i) ==> r[k] == dst[k]
    {
      r := r[dest + i := src[first + i]];
      i := i + 1;
    }
    destEnd := dest + (last - first);
  }
}
