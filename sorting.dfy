/**
  What the catalogue asks of Rust's slice sorts (`sort_by_key`, `sort_unstable_by`):
  the result is ordered by the key and is a permutation of the input. Insertion sort
  is the reference that meets that contract; it says nothing about the order of equal
  keys, which is all an unstable sort promises.
*/
module Sorting {
  import Text

  predicate SortedBy<T>(xs: seq<T>, key: T -> string)
  {
    forall i, j | 0 <= i < j < |xs| :: Text.Le(key(xs[i]), key(xs[j]))
  }

  function Insert<T>(x: T, xs: seq<T>, key: T -> string): (r: seq<T>)
    requires SortedBy(xs, key)
    ensures SortedBy(r, key)
    ensures multiset(r) == multiset(xs) + multiset{x}
    ensures |r| == |xs| + 1
  {
    if xs == [] then [x]
    else if Text.Le(key(x), key(xs[0])) then
      assert forall j | 0 <= j < |xs| :: Text.Le(key(x), key(xs[j])) by {
        forall j | 0 <= j < |xs| ensures Text.Le(key(x), key(xs[j])) {
          if j > 0 { Text.LeTransitive(key(x), key(xs[0]), key(xs[j])); }
        }
      }
      ConsSorted(x, xs, key);
      [x] + xs
    else
      var rest := Insert(x, xs[1..], key);
      assert xs == [xs[0]] + xs[1..];
      HeadBelowInserted(x, xs, key, rest);
      ConsSorted(xs[0], rest, key);
      [xs[0]] + rest
  }

  lemma ConsSorted<T>(y: T, rest: seq<T>, key: T -> string)
    requires SortedBy(rest, key)
    requires forall j | 0 <= j < |rest| :: Text.Le(key(y), key(rest[j]))
    ensures SortedBy([y] + rest, key)
  {
    forall i, j | 0 <= i < j < |[y] + rest|
      ensures Text.Le(key(([y] + rest)[i]), key(([y] + rest)[j]))
    {
      assert ([y] + rest)[j] == rest[j - 1];
      if i > 0 {
        assert ([y] + rest)[i] == rest[i - 1];
      }
    }
  }

  /** When `x` goes after the head, the head is below everything the tail becomes. */
  lemma HeadBelowInserted<T>(x: T, xs: seq<T>, key: T -> string, rest: seq<T>)
    requires xs != [] && SortedBy(xs, key) && !Text.Le(key(x), key(xs[0]))
    requires multiset(rest) == multiset(xs[1..]) + multiset{x}
    ensures forall j | 0 <= j < |rest| :: Text.Le(key(xs[0]), key(rest[j]))
  {
    Text.LeTotal(key(x), key(xs[0]));
    forall j | 0 <= j < |rest| ensures Text.Le(key(xs[0]), key(rest[j])) {
      assert rest[j] in multiset(rest);
      if rest[j] != x {
        assert rest[j] in multiset(xs[1..]);
        var k :| 0 <= k < |xs[1..]| && xs[1..][k] == rest[j];
        assert xs[k + 1] == rest[j];
      }
    }
  }

  /** Sorted by key, and a permutation of the input. */
  function SortBy<T>(xs: seq<T>, key: T -> string): (r: seq<T>)
    ensures SortedBy(r, key)
    ensures multiset(r) == multiset(xs)
    ensures |r| == |xs|
  {
    if xs == [] then []
    else
      var rest := SortBy(xs[1..], key);
      assert xs == [xs[0]] + xs[1..];
      assert multiset(xs) == multiset(xs[1..]) + multiset{xs[0]};
      Insert(xs[0], rest, key)
  }

  /** With distinct keys, a sorted sequence is strictly increasing. */
  lemma StrictlySorted<T>(xs: seq<T>, key: T -> string)
    requires SortedBy(xs, key)
    requires forall i, j | 0 <= i < j < |xs| :: key(xs[i]) != key(xs[j])
    ensures forall i, j | 0 <= i < j < |xs| :: Text.Lt(key(xs[i]), key(xs[j]))
  {
    forall i, j | 0 <= i < j < |xs| ensures Text.Lt(key(xs[i]), key(xs[j])) {
      Text.CmpEqual(key(xs[i]), key(xs[j]));
    }
  }

  predicate Distinct<T(==)>(xs: seq<T>)
  {
    forall i, j | 0 <= i < j < |xs| :: xs[i] != xs[j]
  }

  lemma {:induction false} DistinctCount<T>(xs: seq<T>, x: T)
    requires Distinct(xs)
    ensures multiset(xs)[x] <= 1
  {
    if xs != [] {
      assert xs == [xs[0]] + xs[1..];
      assert Distinct(xs[1..]) by {
        forall i, j | 0 <= i < j < |xs[1..]| ensures xs[1..][i] != xs[1..][j] {
          assert xs[1..][i] == xs[i + 1] && xs[1..][j] == xs[j + 1];
        }
      }
      DistinctCount(xs[1..], x);
      if x == xs[0] {
        assert x !in xs[1..] by {
          forall j | 0 <= j < |xs[1..]| ensures xs[1..][j] != x {
            assert xs[1..][j] == xs[j + 1];
          }
        }
      }
    }
  }

  /** A permutation of a duplicate-free sequence is duplicate-free. */
  lemma DistinctPermutation<T>(xs: seq<T>, ys: seq<T>)
    requires Distinct(xs) && multiset(xs) == multiset(ys)
    ensures Distinct(ys)
  {
    forall i, j | 0 <= i < j < |ys| ensures ys[i] != ys[j] {
      if ys[i] == ys[j] {
        assert ys == ys[..j] + [ys[j]] + ys[j + 1..];
        assert ys[i] in multiset(ys[..j]) by {
          assert ys[..j][i] == ys[i];
        }
        assert multiset(ys)[ys[i]] >= 2;
        DistinctCount(xs, ys[i]);
        assert false;
      }
    }
  }

  /** The identity key, for sorting plain strings. */
  function Id(s: string): string { s }
}
