/**
 * Ordering of query results (SQL `ORDER BY`, JavaScript `Array.prototype.sort`): an insertion
 * sort on a two-level key, smaller keys first. Callers negate a component to sort descending.
 */
module Sorting {

  type Key = (real, real)

  /** Lexicographic order on keys. */
  predicate KeyLe(a: Key, b: Key) {
    a.0 < b.0 || (a.0 == b.0 && a.1 <= b.1)
  }

  predicate SortedBy<T>(xs: seq<T>, key: T -> Key) {
    forall i, j :: 0 <= i < j < |xs| ==> KeyLe(key(xs[i]), key(xs[j]))
  }

  function InsertBy<T>(x: T, xs: seq<T>, key: T -> Key): (r: seq<T>)
    requires SortedBy(xs, key)
    ensures SortedBy(r, key)
    ensures multiset(r) == multiset(xs) + multiset{x}
    ensures |r| == |xs| + 1
    decreases |xs|
  {
    if |xs| == 0 then [x]
    else if KeyLe(key(x), key(xs[0])) then [x] + xs
    else
      var rest := InsertBy(x, xs[1..], key);
      assert multiset(rest) == multiset(xs[1..]) + multiset{x};
      assert forall k :: 0 <= k < |rest| ==> KeyLe(key(xs[0]), key(rest[k])) by {
        forall k | 0 <= k < |rest|
          ensures KeyLe(key(xs[0]), key(rest[k]))
        {
          assert rest[k] in multiset(rest);
          assert rest[k] == x || rest[k] in multiset(xs[1..]);
          if rest[k] != x {
            var j :| 0 <= j < |xs[1..]| && xs[1..][j] == rest[k];
            assert xs[1 + j] == rest[k];
          }
        }
      }
      assert xs == [xs[0]] + xs[1..];
      [xs[0]] + rest
  }

  /** Sorts by key; the result is a permutation of the input in key order. */
  function SortBy<T>(xs: seq<T>, key: T -> Key): (r: seq<T>)
    ensures SortedBy(r, key)
    ensures multiset(r) == multiset(xs)
    ensures |r| == |xs|
    decreases |xs|
  {
    if |xs| == 0 then []
    else
      assert xs == [xs[0]] + xs[1..];
      InsertBy(xs[0], SortBy(xs[1..], key), key)
  }

  /** An element of a permutation comes from the original sequence, and vice versa. */
  lemma MemberOfPermutation<T>(xs: seq<T>, ys: seq<T>, x: T)
    requires multiset(xs) == multiset(ys)
    ensures x in xs <==> x in ys
  {
    assert x in xs <==> x in multiset(xs);
    assert x in ys <==> x in multiset(ys);
  }
}
