/**
  The grouping the catalogue does with a `HashMap` keyed by family name: each item is
  filed under its key, in input order, and the first item with a key decides how its
  group is created. Stated once for any item type and key function, so that the three
  catalogue revisions can share it; also the "keep what converts" filter that feeds it.
*/
module Grouping {
  import opened Wrappers
  import Text
  import Sorting

  /** The keys that occur. */
  function Keys<T>(xs: seq<T>, key: T -> string): set<string>
    decreases |xs|
  {
    if xs == [] then {} else Keys(xs[..|xs| - 1], key) + {key(xs[|xs| - 1])}
  }

  /** The keys are exactly the keys of the items. */
  lemma {:induction false} KeysOccur<T>(xs: seq<T>, key: T -> string)
    ensures forall i | 0 <= i < |xs| :: key(xs[i]) in Keys(xs, key)
    ensures forall k | k in Keys(xs, key) :: exists i | 0 <= i < |xs| :: key(xs[i]) == k
    decreases |xs|
  {
    if xs != [] {
      var n := |xs| - 1;
      KeysOccur(xs[..n], key);
      assert forall i | 0 <= i < n :: xs[..n][i] == xs[i];
    }
  }

  /** The items filed under `k`, in input order. */
  function Members<T>(xs: seq<T>, key: T -> string, k: string): (m: seq<T>)
    ensures |m| <= |xs|
    decreases |xs|
  {
    if xs == [] then []
    else
      var n := |xs| - 1;
      Members(xs[..n], key, k) + (if key(xs[n]) == k then [xs[n]] else [])
  }

  /** A group holds only items with its key. */
  lemma {:induction false} MembersHaveKey<T>(xs: seq<T>, key: T -> string, k: string)
    ensures forall j | 0 <= j < |Members(xs, key, k)| :: key(Members(xs, key, k)[j]) == k
    decreases |xs|
  {
    if xs != [] {
      MembersHaveKey(xs[..|xs| - 1], key, k);
    }
  }

  /** The first item with key `k`. */
  function First<T>(xs: seq<T>, key: T -> string, k: string): (x: T)
    requires k in Keys(xs, key)
    ensures key(x) == k
    decreases |xs|
  {
    var n := |xs| - 1;
    if k in Keys(xs[..n], key) then First(xs[..n], key, k) else xs[n]
  }

  /** `First` is an item with that key, and no earlier item has it. */
  lemma {:induction false} FirstIsFirst<T>(xs: seq<T>, key: T -> string, k: string)
    requires k in Keys(xs, key)
    ensures exists i | 0 <= i < |xs| ::
      First(xs, key, k) == xs[i] && (forall j | 0 <= j < i :: key(xs[j]) != k)
    decreases |xs|
  {
    var n := |xs| - 1;
    assert forall i | 0 <= i < n :: xs[..n][i] == xs[i];
    if k in Keys(xs[..n], key) {
      FirstIsFirst(xs[..n], key, k);
    } else {
      KeysOccur(xs[..n], key);
      assert forall j | 0 <= j < n :: key(xs[j]) != k by {
        forall j | 0 <= j < n ensures key(xs[j]) != k {
          assert key(xs[..n][j]) in Keys(xs[..n], key);
        }
      }
    }
  }

  /** One more item: its key joins the keys, its group grows by it at the end, and the
      other groups and first items stay as they were. */
  lemma Step<T>(xs: seq<T>, key: T -> string, x: T)
    ensures Keys(xs + [x], key) == Keys(xs, key) + {key(x)}
    ensures forall k :: (Members(xs + [x], key, k) ==
      Members(xs, key, k) + (if key(x) == k then [x] else []))
    ensures forall k | k in Keys(xs, key) :: First(xs + [x], key, k) == First(xs, key, k)
    ensures key(x) !in Keys(xs, key) ==> First(xs + [x], key, key(x)) == x
  {
    assert (xs + [x])[..|xs|] == xs;
  }

  /** `Step` for the keys and the first elements: appending keeps the first element of
      every key already present, and makes the new element the first of its key when
      that key is new. */
  lemma FirstStep<T>(xs: seq<T>, key: T -> string, x: T)
    ensures Keys(xs + [x], key) == Keys(xs, key) + {key(x)}
    ensures forall k | k in Keys(xs, key) :: First(xs + [x], key, k) == First(xs, key, k)
    ensures key(x) !in Keys(xs, key) ==> First(xs + [x], key, key(x)) == x
  {
    Step(xs, key, x);
  }

  /** A loop over `xs` that has seen `xs[..i]` sees `xs[i]` next. */
  lemma PrefixStep<T>(xs: seq<T>, i: nat)
    requires i < |xs|
    ensures xs[..i + 1] == xs[..i] + [xs[i]]
  {
  }

  /** `Step` for the keys alone. */
  lemma KeysStep<T>(xs: seq<T>, key: T -> string, x: T)
    ensures Keys(xs + [x], key) == Keys(xs, key) + {key(x)}
  {
    Step(xs, key, x);
  }

  /** `Step` for the contents of one group. */
  lemma MembersStep<T>(xs: seq<T>, key: T -> string, x: T, k: string)
    ensures multiset(Members(xs + [x], key, k)) ==
      multiset(Members(xs, key, k)) + (if key(x) == k then multiset{x} else multiset{})
  {
    Step(xs, key, x);
  }

  /** `Step` for one group, as a sequence: the new item joins its own group at the end. */
  lemma MembersAppend<T>(xs: seq<T>, key: T -> string, x: T, k: string)
    ensures Members(xs + [x], key, k) == Members(xs, key, k) + (if key(x) == k then [x] else [])
  {
    Step(xs, key, x);
  }

  /** A key that does not occur has an empty group. */
  lemma {:induction false} MembersOfAbsent<T>(xs: seq<T>, key: T -> string, k: string)
    requires k !in Keys(xs, key)
    ensures Members(xs, key, k) == []
    decreases |xs|
  {
    if xs != [] {
      var n := |xs| - 1;
      assert forall i | 0 <= i < n :: xs[..n][i] == xs[i];
      assert k !in Keys(xs[..n], key);
      MembersOfAbsent(xs[..n], key, k);
    }
  }

  /** Every item is in the group of its own key. */
  lemma {:induction false} InOwnGroup<T>(xs: seq<T>, key: T -> string, i: nat)
    requires i < |xs|
    ensures xs[i] in Members(xs, key, key(xs[i]))
    decreases |xs|
  {
    var n := |xs| - 1;
    if i < n {
      assert xs[..n][i] == xs[i];
      InOwnGroup(xs[..n], key, i);
    }
  }

  /** A group holds only items of the input. */
  lemma {:induction false} MembersFromInput<T>(xs: seq<T>, key: T -> string, k: string)
    ensures multiset(Members(xs, key, k)) <= multiset(xs)
    decreases |xs|
  {
    if xs != [] {
      var n := |xs| - 1;
      MembersFromInput(xs[..n], key, k);
      assert xs == xs[..n] + [xs[n]];
    }
  }

  /** A member of a group has the group's key and is an item of the input. */
  lemma MemberOf<T>(xs: seq<T>, key: T -> string, k: string, x: T)
    requires x in Members(xs, key, k)
    ensures key(x) == k && x in xs
  {
    MembersHaveKey(xs, key, k);
    MembersFromInput(xs, key, k);
    assert x in multiset(xs);
  }

  /** The group sizes over a duplicate-free list of keys covering all keys add up to
      the number of items: every item lands in exactly one group. */
  function SumSizes<T>(xs: seq<T>, key: T -> string, ks: seq<string>): nat
  {
    if ks == [] then 0 else |Members(xs, key, ks[0])| + SumSizes(xs, key, ks[1..])
  }

  function Occurrences(ks: seq<string>, k: string): nat
  {
    if ks == [] then 0 else (if ks[0] == k then 1 else 0) + Occurrences(ks[1..], k)
  }

  lemma {:induction false} OccurrencesDistinct(ks: seq<string>, k: string)
    requires Sorting.Distinct(ks)
    ensures Occurrences(ks, k) == if k in ks then 1 else 0
  {
    if ks != [] {
      assert Sorting.Distinct(ks[1..]) by {
        forall i, j | 0 <= i < j < |ks[1..]| ensures ks[1..][i] != ks[1..][j] {
          assert ks[1..][i] == ks[i + 1] && ks[1..][j] == ks[j + 1];
        }
      }
      OccurrencesDistinct(ks[1..], k);
      assert k in ks <==> k == ks[0] || k in ks[1..] by {
        assert ks == [ks[0]] + ks[1..];
      }
      if ks[0] == k {
        assert k !in ks[1..] by {
          forall j | 0 <= j < |ks[1..]| ensures ks[1..][j] != k {
            assert ks[1..][j] == ks[j + 1];
          }
        }
      }
    }
  }

  lemma {:induction false} SumSizesStep<T>(xs: seq<T>, key: T -> string, x: T, ks: seq<string>)
    ensures SumSizes(xs + [x], key, ks) == SumSizes(xs, key, ks) + Occurrences(ks, key(x))
  {
    Step(xs, key, x);
    if ks != [] {
      SumSizesStep(xs, key, x, ks[1..]);
    }
  }

  lemma {:induction false} SumSizesCount<T>(xs: seq<T>, key: T -> string, ks: seq<string>)
    requires Sorting.Distinct(ks)
    requires forall k | k in Keys(xs, key) :: k in ks
    ensures SumSizes(xs, key, ks) == |xs|
    decreases |xs|
  {
    if xs == [] {
      SumSizesEmpty(key, ks);
    } else {
      var n := |xs| - 1;
      assert xs == xs[..n] + [xs[n]];
      Step(xs[..n], key, xs[n]);
      SumSizesCount(xs[..n], key, ks);
      SumSizesStep(xs[..n], key, xs[n], ks);
      OccurrencesDistinct(ks, key(xs[n]));
    }
  }

  lemma {:induction false} SumSizesEmpty<T>(key: T -> string, ks: seq<string>)
    ensures SumSizes([], key, ks) == 0
  {
    if ks != [] {
      SumSizesEmpty(key, ks[1..]);
    }
  }

  // ---------------------------------------------------------------- filtering

  /** The values of the conversions that succeed, in input order. */
  function Kept<S, T>(xs: seq<S>, convert: S -> Result<T, ()>): (r: seq<T>)
    ensures |r| <= |xs|
    decreases |xs|
  {
    if xs == [] then []
    else
      var n := |xs| - 1;
      Kept(xs[..n], convert) + (match convert(xs[n]) case Ok(v) => [v] case Err(_) => [])
  }

  /** Exactly the successful conversions are kept. */
  lemma {:induction false} KeptMembers<S, T>(xs: seq<S>, convert: S -> Result<T, ()>, v: T)
    ensures v in Kept(xs, convert) <==> exists i | 0 <= i < |xs| :: convert(xs[i]) == Ok(v)
    decreases |xs|
  {
    if xs != [] {
      var n := |xs| - 1;
      KeptMembers(xs[..n], convert, v);
      assert forall i | 0 <= i < n :: xs[..n][i] == xs[i];
    }
  }

  lemma KeptStep<S, T>(xs: seq<S>, convert: S -> Result<T, ()>, i: nat)
    requires i < |xs|
    ensures Kept(xs[..i + 1], convert) ==
      Kept(xs[..i], convert) + (match convert(xs[i]) case Ok(v) => [v] case Err(_) => [])
  {
    assert xs[..i + 1][..i] == xs[..i];
  }

  // ---------------------------------------------------------------- collecting

  /** `into_values().collect()` (or `into_iter().map(|(_, v)| v).collect()`): the map's
      values in the order its keys were inserted. */
  function IntoValues<V>(m: map<string, V>, order: seq<string>): (vs: seq<V>)
    requires forall k | k in order :: k in m
    ensures |vs| == |order| && forall a | 0 <= a < |order| :: vs[a] == m[order[a]]
  {
    seq(|order|, a requires 0 <= a < |order| => m[order[a]])
  }

  /** `sort_by_key` on values with pairwise different keys: a permutation in strictly
      increasing key order. */
  method SortByKey<V>(values: seq<V>, key: V -> string) returns (sorted: seq<V>)
    requires forall a, b | 0 <= a < b < |values| :: key(values[a]) != key(values[b])
    ensures multiset(sorted) == multiset(values)
    ensures forall i, j | 0 <= i < j < |sorted| :: Text.Lt(key(sorted[i]), key(sorted[j]))
    ensures forall i, j | 0 <= i < j < |sorted| :: key(sorted[i]) != key(sorted[j])
  {
    sorted := Sorting.SortBy(values, key);
    forall i, j | 0 <= i < j < |sorted|
      ensures key(sorted[i]) != key(sorted[j])
    {
      assert sorted[i] in multiset(values) && sorted[j] in multiset(values);
      var a :| 0 <= a < |values| && values[a] == sorted[i];
      var b :| 0 <= b < |values| && values[b] == sorted[j];
      if a == b {
        assert Sorting.Distinct(values) by {
          forall x, y | 0 <= x < y < |values| ensures values[x] != values[y] {
            assert key(values[x]) != key(values[y]);
          }
        }
        Sorting.DistinctPermutation(values, sorted);
      }
    }
    Sorting.StrictlySorted(sorted, key);
  }

  /** Collecting a map whose values carry their own key, and sorting by that key: every
      value exactly once, in strictly increasing key order. */
  method SortValues<V>(m: map<string, V>, order: seq<string>, key: V -> string) returns (sorted: seq<V>)
    requires forall k | k in order :: k in m && key(m[k]) == k
    requires forall k | k in m :: k in order
    requires Sorting.Distinct(order)
    ensures forall i, j | 0 <= i < j < |sorted| :: Text.Lt(key(sorted[i]), key(sorted[j]))
    ensures forall i, j | 0 <= i < j < |sorted| :: key(sorted[i]) != key(sorted[j])
    ensures forall j | 0 <= j < |sorted| :: key(sorted[j]) in m && sorted[j] == m[key(sorted[j])]
    ensures forall k | k in m :: exists j | 0 <= j < |sorted| :: key(sorted[j]) == k
  {
    var values := IntoValues(m, order);
    assert forall a | 0 <= a < |values| :: key(values[a]) == order[a];
    sorted := SortByKey(values, key);
    forall j | 0 <= j < |sorted|
      ensures key(sorted[j]) in m && sorted[j] == m[key(sorted[j])]
    {
      assert sorted[j] in multiset(values);
      var a :| 0 <= a < |values| && values[a] == sorted[j];
    }
    forall k | k in m
      ensures exists j | 0 <= j < |sorted| :: key(sorted[j]) == k
    {
      var a :| 0 <= a < |order| && order[a] == k;
      assert values[a] in multiset(sorted);
      var j :| 0 <= j < |sorted| && sorted[j] == values[a];
    }
  }
}
