/**
 * Sequence operations that pandas performs behind `unique`, `nunique`,
 * `value_counts`, `sort_values` and the key sorting of `groupby`.
 */
module Sequences {

  /** No element occurs twice. */
  ghost predicate NoDup<T>(xs: seq<T>) {
    forall i, j :: 0 <= i < j < |xs| ==> xs[i] != xs[j]
  }

  /** The number of distinct values (pandas `nunique`). */
  function NUnique<T(==)>(xs: seq<T>): nat {
    |set x | x in xs|
  }

  /** A duplicate-free sequence has as many elements as its set. */
  lemma {:induction false} NoDupCard<T>(xs: seq<T>)
    requires NoDup(xs)
    ensures |set x | x in xs| == |xs|
  {
    if xs != [] {
      var last := xs[|xs| - 1];
      var init := xs[..|xs| - 1];
      NoDupCard(init);
      assert (set x | x in xs) == (set x | x in init) + {last};
      assert last !in (set x | x in init);
    }
  }

  /** A sequence has at least as many elements as distinct values. */
  lemma {:induction false} CardAtMostLength<T>(xs: seq<T>)
    ensures |set x | x in xs| <= |xs|
  {
    if xs != [] {
      var init := xs[..|xs| - 1];
      CardAtMostLength(init);
      assert (set x | x in xs) == (set x | x in init) + {xs[|xs| - 1]};
    }
  }

  lemma SameMembersSameSet<T>(xs: seq<T>, ys: seq<T>)
    requires forall x :: x in xs <==> x in ys
    ensures (set x | x in xs) == (set y | y in ys)
  {
  }

  /** A subset is never larger than its superset. */
  lemma SubsetCard<T>(a: set<T>, b: set<T>)
    requires a <= b
    ensures |a| <= |b|
  {
    assert b == a + (b - a);
    assert a !! (b - a);
  }

  /** A sequence with an element has a value. */
  lemma NonEmptyHasValue<T>(xs: seq<T>)
    ensures xs != [] ==> |set x | x in xs| > 0
  {
    if xs != [] {
      SubsetCard({xs[0]}, set x | x in xs);
    }
  }

  /** The distinct values of `xs` in order of first appearance (pandas `unique`). */
  function Distinct<T(==)>(xs: seq<T>): seq<T> {
    if xs == [] then []
    else
      var init := Distinct(xs[..|xs| - 1]);
      if xs[|xs| - 1] in xs[..|xs| - 1] then init else init + [xs[|xs| - 1]]
  }

  lemma {:induction false} DistinctSpec<T>(xs: seq<T>)
    ensures NoDup(Distinct(xs))
    ensures forall x :: x in Distinct(xs) <==> x in xs
    ensures |Distinct(xs)| == NUnique(xs)
  {
    if xs != [] {
      var init := xs[..|xs| - 1];
      DistinctSpec(init);
      assert xs == init + [xs[|xs| - 1]];
      forall x ensures x in Distinct(xs) <==> x in xs {
        assert x in xs <==> x in init || x == xs[|xs| - 1];
      }
    }
    NoDupCard(Distinct(xs));
    SameMembersSameSet(Distinct(xs), xs);
  }

  // ----- stable sort in descending order of an integer key -----

  ghost predicate SortedDesc<T>(xs: seq<T>, key: T -> int) {
    forall i, j :: 0 <= i < j < |xs| ==> key(xs[i]) >= key(xs[j])
  }

  /** Inserts `x` before the first element whose key is not larger. */
  function InsertDesc<T>(x: T, xs: seq<T>, key: T -> int): seq<T> {
    if xs == [] || key(x) >= key(xs[0]) then [x] + xs
    else [xs[0]] + InsertDesc(x, xs[1..], key)
  }

  /** Insertion sort, largest key first; elements with equal keys keep their order. */
  function SortDesc<T>(xs: seq<T>, key: T -> int): seq<T> {
    if xs == [] then [] else InsertDesc(xs[0], SortDesc(xs[1..], key), key)
  }

  lemma {:induction false} InsertDescSpec<T>(x: T, xs: seq<T>, key: T -> int)
    requires SortedDesc(xs, key)
    ensures SortedDesc(InsertDesc(x, xs, key), key)
    ensures multiset(InsertDesc(x, xs, key)) == multiset(xs) + multiset{x}
  {
    if xs == [] {
    } else if key(x) >= key(xs[0]) {
      var r := [x] + xs;
      forall i, j | 0 <= i < j < |r| ensures key(r[i]) >= key(r[j]) {
        if i == 0 {
          assert key(xs[0]) >= key(xs[j - 1]) || j == 1;
        } else {
          assert r[i] == xs[i - 1] && r[j] == xs[j - 1];
        }
      }
    } else {
      var tail := xs[1..];
      InsertDescSpec(x, tail, key);
      var r := InsertDesc(x, tail, key);
      assert xs == [xs[0]] + tail;
      forall k | 0 <= k < |r| ensures key(xs[0]) >= key(r[k]) {
        assert r[k] in multiset(r);
        if r[k] != x {
          assert r[k] in multiset(tail);
          var m :| 0 <= m < |tail| && tail[m] == r[k];
          assert xs[m + 1] == r[k];
        }
      }
      InsertFront(xs[0], r, key);
    }
  }

  lemma InsertFront<T>(y: T, r: seq<T>, key: T -> int)
    requires SortedDesc(r, key)
    requires forall k :: 0 <= k < |r| ==> key(y) >= key(r[k])
    ensures SortedDesc([y] + r, key)
  {
    var s := [y] + r;
    forall i, j | 0 <= i < j < |s| ensures key(s[i]) >= key(s[j]) {
      if i == 0 {
        assert s[j] == r[j - 1];
      } else {
        assert s[i] == r[i - 1] && s[j] == r[j - 1];
      }
    }
  }

  lemma {:induction false} SortDescSpec<T>(xs: seq<T>, key: T -> int)
    ensures SortedDesc(SortDesc(xs, key), key)
    ensures multiset(SortDesc(xs, key)) == multiset(xs)
    ensures |SortDesc(xs, key)| == |xs|
  {
    if xs != [] {
      SortDescSpec(xs[1..], key);
      InsertDescSpec(xs[0], SortDesc(xs[1..], key), key);
      assert xs == [xs[0]] + xs[1..];
    }
    SortDescLength(xs, key);
  }

  lemma {:induction false} SortDescLength<T>(xs: seq<T>, key: T -> int)
    ensures |SortDesc(xs, key)| == |xs|
  {
    if xs != [] {
      SortDescLength(xs[1..], key);
      InsertDescLength(xs[0], SortDesc(xs[1..], key), key);
    }
  }

  lemma {:induction false} InsertDescLength<T>(x: T, xs: seq<T>, key: T -> int)
    ensures |InsertDesc(x, xs, key)| == |xs| + 1
  {
    if xs != [] && key(x) < key(xs[0]) {
      InsertDescLength(x, xs[1..], key);
    }
  }

  /** A permutation of a duplicate-free sequence is duplicate-free. */
  lemma PermutationNoDup<T>(xs: seq<T>, ys: seq<T>)
    requires multiset(xs) == multiset(ys)
    requires NoDup(xs)
    ensures NoDup(ys)
  {
    forall i, j | 0 <= i < j < |ys| ensures ys[i] != ys[j] {
      if ys[i] == ys[j] {
        var y := ys[i];
        assert ys == ys[..i] + [y] + ys[i + 1..j] + [y] + ys[j + 1..];
        assert multiset(ys)[y] >= 2;
        MultiplicityAtMostOne(xs, y);
        assert false;
      }
    }
  }

  lemma {:induction false} MultiplicityAtMostOne<T>(xs: seq<T>, y: T)
    requires NoDup(xs)
    ensures multiset(xs)[y] <= 1
  {
    if xs != [] {
      var init := xs[..|xs| - 1];
      MultiplicityAtMostOne(init, y);
      assert xs == init + [xs[|xs| - 1]];
      if xs[|xs| - 1] == y {
        assert y !in init;
      }
    }
  }

  // ----- sorted sets of keys, as `groupby` produces them -----

  ghost predicate IsStrictTotalOrder<T(!new)>(lt: (T, T) -> bool) {
    && (forall x :: !lt(x, x))
    && (forall x, y, z :: lt(x, y) && lt(y, z) ==> lt(x, z))
    && (forall x, y :: x != y ==> lt(x, y) || lt(y, x))
  }

  ghost predicate StrictlyIncreasing<T>(xs: seq<T>, lt: (T, T) -> bool) {
    forall i, j :: 0 <= i < j < |xs| ==> lt(xs[i], xs[j])
  }

  /** Inserts `x` into a strictly increasing sequence unless it is already there. */
  function InsertUnique<T(==)>(x: T, xs: seq<T>, lt: (T, T) -> bool): seq<T> {
    if xs == [] || lt(x, xs[0]) then [x] + xs
    else if x == xs[0] then xs
    else [xs[0]] + InsertUnique(x, xs[1..], lt)
  }

  /** The distinct values of `xs`, in increasing order of `lt`. */
  function SortedUnique<T(==)>(xs: seq<T>, lt: (T, T) -> bool): seq<T> {
    if xs == [] then [] else InsertUnique(xs[0], SortedUnique(xs[1..], lt), lt)
  }

  lemma {:induction false} InsertUniqueSpec<T(!new)>(x: T, xs: seq<T>, lt: (T, T) -> bool)
    requires IsStrictTotalOrder(lt)
    requires StrictlyIncreasing(xs, lt)
    ensures StrictlyIncreasing(InsertUnique(x, xs, lt), lt)
    ensures forall y :: y in InsertUnique(x, xs, lt) <==> y == x || y in xs
  {
    if xs != [] && !lt(x, xs[0]) && x != xs[0] {
      var tail := xs[1..];
      assert StrictlyIncreasing(tail, lt);
      InsertUniqueSpec(x, tail, lt);
      var r := InsertUnique(x, tail, lt);
      assert xs == [xs[0]] + tail;
      assert lt(xs[0], x);
      forall k | 0 <= k < |r| ensures lt(xs[0], r[k]) {
        assert r[k] in r;
        if r[k] != x {
          var m :| 0 <= m < |tail| && tail[m] == r[k];
          assert xs[m + 1] == r[k];
        }
      }
      assert InsertUnique(x, xs, lt) == [xs[0]] + r;
    } else if xs != [] && lt(x, xs[0]) {
      forall i, j | 0 <= i < j < |xs| + 1 ensures lt(([x] + xs)[i], ([x] + xs)[j]) {
        if i == 0 && j > 1 {
          assert lt(xs[0], xs[j - 1]);
        }
      }
    }
  }

  lemma {:induction false} SortedUniqueSpec<T(!new)>(xs: seq<T>, lt: (T, T) -> bool)
    requires IsStrictTotalOrder(lt)
    ensures StrictlyIncreasing(SortedUnique(xs, lt), lt)
    ensures forall y :: y in SortedUnique(xs, lt) <==> y in xs
    ensures NoDup(SortedUnique(xs, lt))
  {
    if xs != [] {
      SortedUniqueSpec(xs[1..], lt);
      InsertUniqueSpec(xs[0], SortedUnique(xs[1..], lt), lt);
      assert xs == [xs[0]] + xs[1..];
    }
  }
}
