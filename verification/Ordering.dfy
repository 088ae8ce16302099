/** Python's order on byte strings, and `list.sort` with a key: the stable sort by (path, stage). */
module Ordering {
  import opened Bytes

  type Path = seq<Byte>
  datatype Key = Key(path: Path, stage: nat)

  /** `a < b` for byte strings. */
  predicate PathLess(a: Path, b: Path) {
    if a == [] || b == [] then |a| < |b|
    else if a[0] == b[0] then PathLess(a[1..], b[1..])
    else a[0] < b[0]
  }

  predicate KeyLess(a: Key, b: Key) {
    PathLess(a.path, b.path) || (a.path == b.path && a.stage < b.stage)
  }

  lemma PathTrichotomy(a: Path, b: Path)
    ensures PathLess(a, b) || a == b || PathLess(b, a)
  {
    if a != [] && b != [] && a[0] == b[0] {
      PathTrichotomy(a[1..], b[1..]);
      if a[1..] == b[1..] {
        assert a == [a[0]] + a[1..] == b;
      }
    }
  }

  lemma PathTransitive(a: Path, b: Path, c: Path)
    requires PathLess(a, b) && PathLess(b, c)
    ensures PathLess(a, c)
  {
  }

  lemma PathIrreflexive(a: Path)
    ensures !PathLess(a, a)
  {
  }

  lemma KeyTotalOrder(a: Key, b: Key, c: Key)
    ensures KeyLess(a, b) || a == b || KeyLess(b, a)
    ensures KeyLess(a, b) && KeyLess(b, c) ==> KeyLess(a, c)
    ensures !KeyLess(a, a)
  {
    PathTrichotomy(a.path, b.path);
    PathIrreflexive(a.path);
    if PathLess(a.path, b.path) && PathLess(b.path, c.path) {
      PathTransitive(a.path, b.path, c.path);
    }
  }

  /** No later element has a smaller key. */
  ghost predicate Sorted<T(!new)>(xs: seq<T>, key: T -> Key) {
    forall i, j :: 0 <= i < j < |xs| ==> !KeyLess(key(xs[j]), key(xs[i]))
  }

  /** Every later element has a larger key, as in a well-formed index. */
  ghost predicate StrictlySorted<T(!new)>(xs: seq<T>, key: T -> Key) {
    forall i, j :: 0 <= i < j < |xs| ==> KeyLess(key(xs[i]), key(xs[j]))
  }

  /** Puts `x` behind every element whose key is not larger. */
  function Insert<T(!new)>(xs: seq<T>, x: T, key: T -> Key): (ys: seq<T>)
    ensures |ys| == |xs| + 1
  {
    if xs == [] || !KeyLess(key(x), key(xs[|xs| - 1])) then xs + [x]
    else Insert(xs[..|xs| - 1], x, key) + [xs[|xs| - 1]]
  }

  /** `sorted(xs, key=key)`. */
  function StableSort<T(!new)>(xs: seq<T>, key: T -> Key): (ys: seq<T>)
    ensures |ys| == |xs|
  {
    if xs == [] then [] else Insert(StableSort(xs[..|xs| - 1], key), xs[|xs| - 1], key)
  }

  /** The elements of `xs` with key `k`, in the order of `xs`. */
  ghost function WithKey<T(!new)>(xs: seq<T>, k: Key, key: T -> Key): seq<T> {
    if xs == [] then []
    else WithKey(xs[..|xs| - 1], k, key) + (if key(xs[|xs| - 1]) == k then [xs[|xs| - 1]] else [])
  }

  lemma {:induction false} InsertMembers<T(!new)>(xs: seq<T>, x: T, key: T -> Key)
    ensures multiset(Insert(xs, x, key)) == multiset(xs) + multiset{x}
    ensures forall y :: y in Insert(xs, x, key) <==> y in xs || y == x
  {
    var n := |xs|;
    if n > 0 && KeyLess(key(x), key(xs[n - 1])) {
      InsertMembers(xs[..n - 1], x, key);
      assert xs == xs[..n - 1] + [xs[n - 1]];
    }
  }

  lemma {:induction false} InsertKeepsOrder<T(!new)>(xs: seq<T>, x: T, key: T -> Key)
    requires Sorted(xs, key)
    ensures Sorted(Insert(xs, x, key), key)
  {
    var n := |xs|;
    if n > 0 && KeyLess(key(x), key(xs[n - 1])) {
      var front := xs[..n - 1];
      var last := xs[n - 1];
      InsertKeepsOrder(front, x, key);
      InsertMembers(front, x, key);
      var inserted := Insert(front, x, key);
      forall i | 0 <= i < |inserted|
        ensures !KeyLess(key(last), key(inserted[i]))
      {
        var y := inserted[i];
        assert y in inserted;
        KeyTotalOrder(key(x), key(last), key(x));
        if y != x {
          var j :| 0 <= j < |front| && front[j] == y;
          assert xs[j] == y;
        }
      }
    } else if n > 0 {
      forall i | 0 <= i < n
        ensures !KeyLess(key(x), key(xs[i]))
      {
        KeyTotalOrder(key(xs[n - 1]), key(x), key(xs[n - 1]));
        KeyTotalOrder(key(x), key(xs[i]), key(xs[n - 1]));
        KeyTotalOrder(key(xs[i]), key(xs[n - 1]), key(x));
      }
    }
  }

  lemma {:induction false} InsertIsStable<T(!new)>(xs: seq<T>, x: T, key: T -> Key, k: Key)
    ensures WithKey(Insert(xs, x, key), k, key) == WithKey(xs + [x], k, key)
  {
    var n := |xs|;
    assert (xs + [x])[..n] == xs;
    if n > 0 && KeyLess(key(x), key(xs[n - 1])) {
      var front := xs[..n - 1];
      var last := xs[n - 1];
      InsertIsStable(front, x, key, k);
      assert (Insert(front, x, key) + [last])[..n] == Insert(front, x, key);
      assert (front + [x])[..n - 1] == front;
      KeyTotalOrder(key(x), key(last), key(x));
    }
  }

  /** The result is ordered, is a permutation, and keeps equal keys in their order. */
  lemma {:induction false} StableSortCorrect<T(!new)>(xs: seq<T>, key: T -> Key)
    ensures Sorted(StableSort(xs, key), key)
    ensures multiset(StableSort(xs, key)) == multiset(xs)
    ensures forall x :: x in StableSort(xs, key) <==> x in xs
    ensures forall k :: WithKey(StableSort(xs, key), k, key) == WithKey(xs, k, key)
  {
    if xs != [] {
      var front := xs[..|xs| - 1];
      var x := xs[|xs| - 1];
      StableSortCorrect(front, key);
      var sorted := StableSort(front, key);
      InsertKeepsOrder(sorted, x, key);
      InsertMembers(sorted, x, key);
      assert xs == front + [x];
      forall k
        ensures WithKey(StableSort(xs, key), k, key) == WithKey(xs, k, key)
      {
        InsertIsStable(sorted, x, key, k);
        assert (sorted + [x])[..|sorted|] == sorted;
      }
    }
  }

  /** Two strictly ordered lists with the same elements are the same list. */
  lemma {:induction false} StrictOrderIsUnique<T(!new)>(xs: seq<T>, ys: seq<T>, key: T -> Key)
    requires StrictlySorted(xs, key) && StrictlySorted(ys, key)
    requires forall x :: x in xs <==> x in ys
    ensures xs == ys
  {
    assert ys != [] ==> ys[0] in xs;
    if xs != [] {
      assert xs[0] in ys;
      var i :| 0 <= i < |ys| && ys[i] == xs[0];
      assert ys[0] in xs;
      var j :| 0 <= j < |xs| && xs[j] == ys[0];
      if i > 0 && j > 0 {
        KeyTotalOrder(key(xs[0]), key(ys[0]), key(xs[0]));
      }
      assert xs[0] == ys[0];
      var xt := xs[1..];
      var yt := ys[1..];
      forall x
        ensures x in xt <==> x in yt
      {
        KeyTotalOrder(key(x), key(x), key(x));
        if x in xt {
          var k :| 0 <= k < |xt| && xt[k] == x;
          assert x in xs && KeyLess(key(xs[0]), key(xs[k + 1]));
        }
        if x in yt {
          var k :| 0 <= k < |yt| && yt[k] == x;
          assert x in ys && KeyLess(key(ys[0]), key(ys[k + 1]));
        }
      }
      StrictOrderIsUnique(xt, yt, key);
      assert xs == [xs[0]] + xt == ys;
    }
  }

  ghost predicate DistinctKeys<T(!new)>(xs: seq<T>, key: T -> Key) {
    forall i, j :: 0 <= i < j < |xs| ==> key(xs[i]) != key(xs[j])
  }

  lemma StrictKeysDistinct<T(!new)>(xs: seq<T>, key: T -> Key)
    requires StrictlySorted(xs, key)
    ensures DistinctKeys(xs, key)
  {
    forall i, j | 0 <= i < j < |xs|
      ensures key(xs[i]) != key(xs[j])
    {
      KeyTotalOrder(key(xs[i]), key(xs[i]), key(xs[i]));
    }
  }

  /** Sorting any arrangement of a strictly ordered list restores that list. */
  lemma SortRestores<T(!new)>(xs: seq<T>, ordered: seq<T>, key: T -> Key)
    requires DistinctKeys(xs, key) && StrictlySorted(ordered, key)
    requires forall x :: x in xs <==> x in ordered
    ensures StableSort(xs, key) == ordered
  {
    StableSortCorrect(xs, key);
    SortKeepsDistinct(xs, key);
    var ys := StableSort(xs, key);
    forall i, j | 0 <= i < j < |ys|
      ensures KeyLess(key(ys[i]), key(ys[j]))
    {
      KeyTotalOrder(key(ys[i]), key(ys[j]), key(ys[i]));
    }
    StrictOrderIsUnique(ys, ordered, key);
  }

  lemma {:induction false} InsertKeepsDistinct<T(!new)>(xs: seq<T>, x: T, key: T -> Key)
    requires DistinctKeys(xs, key) && forall y :: y in xs ==> key(y) != key(x)
    ensures DistinctKeys(Insert(xs, x, key), key)
  {
    var n := |xs|;
    if n > 0 && KeyLess(key(x), key(xs[n - 1])) {
      var front := xs[..n - 1];
      InsertKeepsDistinct(front, x, key);
      InsertMembers(front, x, key);
      var inserted := Insert(front, x, key);
      forall i | 0 <= i < |inserted|
        ensures key(inserted[i]) != key(xs[n - 1])
      {
        var y := inserted[i];
        assert y in inserted;
        if y != x {
          var j :| 0 <= j < |front| && front[j] == y;
          assert xs[j] == y;
        }
      }
    }
  }

  lemma {:induction false} SortKeepsDistinct<T(!new)>(xs: seq<T>, key: T -> Key)
    requires DistinctKeys(xs, key)
    ensures DistinctKeys(StableSort(xs, key), key)
  {
    if xs != [] {
      var front := xs[..|xs| - 1];
      SortKeepsDistinct(front, key);
      StableSortCorrect(front, key);
      forall y | y in StableSort(front, key)
        ensures key(y) != key(xs[|xs| - 1])
      {
        var j :| 0 <= j < |front| && front[j] == y;
        assert xs[j] == y;
      }
      InsertKeepsDistinct(StableSort(front, key), xs[|xs| - 1], key);
    }
  }
}
