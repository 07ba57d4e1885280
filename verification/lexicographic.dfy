/**
 * The comparisons `stack` and `queue` forward to their container: element-wise
 * `==` and lexicographic `<` over the elements in order, the meaning the
 * standard containers give them, and `<=` derived from `<`.
 */
module Lexicographic {

  /** `lhs == rhs`: the same length and equal elements position by position. */
  predicate Equal(x: seq<int>, y: seq<int>)
  {
    |x| == |y| && forall i :: 0 <= i < |x| ==> x[i] == y[i]
  }

  /** Element-wise equality is equality of the sequences. */
  lemma EqualIsSame(x: seq<int>, y: seq<int>)
    ensures Equal(x, y) <==> x == y
  {
    if Equal(x, y) {
      assert x == y;
    }
  }

  /**
   * `lhs < rhs`: at the first position where the two differ `x` holds the smaller
   * element, or `x` runs out first.
   */
  function Less(x: seq<int>, y: seq<int>): bool
  {
    if y == [] then false
    else if x == [] then true
    else if x[0] < y[0] then true
    else if y[0] < x[0] then false
    else Less(x[1..], y[1..])
  }

  /** A proper prefix is less. */
  lemma {:induction false} LessPrefix(x: seq<int>, y: seq<int>)
    requires |x| < |y| && x == y[..|x|]
    ensures Less(x, y)
  {
    if x != [] {
      assert x[1..] == y[1..][..|x| - 1];
      LessPrefix(x[1..], y[1..]);
    }
  }

  /** After a common prefix of length `k`, a smaller element at `k` makes `x` less. */
  lemma {:induction false} LessFirstDifference(x: seq<int>, y: seq<int>, k: nat)
    requires k < |x| && k < |y| && x[..k] == y[..k] && x[k] < y[k]
    ensures Less(x, y)
  {
    if k > 0 {
      assert x[0] == x[..k][0] && y[0] == y[..k][0];
      assert x[1..][..k - 1] == y[1..][..k - 1] by {
        assert x[1..][..k - 1] == x[..k][1..] && y[1..][..k - 1] == y[..k][1..];
      }
      LessFirstDifference(x[1..], y[1..], k - 1);
    }
  }

  /** Exactly one of `x < y`, `x == y` and `y < x` holds. */
  lemma {:induction false} Trichotomy(x: seq<int>, y: seq<int>)
    ensures Less(x, y) || x == y || Less(y, x)
    ensures !(Less(x, y) && Less(y, x))
    ensures x == y ==> !Less(x, y)
  {
    if x != [] && y != [] && x[0] == y[0] {
      Trichotomy(x[1..], y[1..]);
      assert x == [x[0]] + x[1..] && y == [y[0]] + y[1..];
    }
  }

  /** `<` is transitive. */
  lemma {:induction false} LessTransitive(x: seq<int>, y: seq<int>, z: seq<int>)
    requires Less(x, y) && Less(y, z)
    ensures Less(x, z)
  {
    if x != [] && x[0] == y[0] && y[0] == z[0] {
      LessTransitive(x[1..], y[1..], z[1..]);
    }
  }

  /** `lhs <= rhs` is `!(rhs < lhs)`: less or equal. */
  function LessEq(x: seq<int>, y: seq<int>): (r: bool)
    ensures r <==> Less(x, y) || x == y
  {
    Trichotomy(x, y);
    !Less(y, x)
  }
}
