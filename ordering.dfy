/**
 * Sorting as the Go library provides it (`sort.Strings`, `sort.Sort`), over any strict
 * total order, and the sorted listing of a set that the cache's eviction order is
 * stated with.
 */
module Ordering {

  /** `lt` is irreflexive, transitive and connected. */
  ghost predicate StrictTotalOrder<T(!new)>(lt: (T, T) -> bool) {
    && (forall a :: !lt(a, a))
    && (forall a, b, c :: lt(a, b) && lt(b, c) ==> lt(a, c))
    && (forall a, b :: a != b ==> lt(a, b) || lt(b, a))
  }

  /** Strictly increasing under `lt`. */
  predicate Sorted<T>(xs: seq<T>, lt: (T, T) -> bool) {
    forall i, j :: 0 <= i < j < |xs| ==> lt(xs[i], xs[j])
  }

  /** No element occurs twice. */
  predicate Distinct<T(==)>(xs: seq<T>) {
    forall i, j :: 0 <= i < j < |xs| ==> xs[i] != xs[j]
  }

  /** Inserts `x` in front of the first element it does not follow. */
  function Insert<T>(x: T, xs: seq<T>, lt: (T, T) -> bool): (r: seq<T>)
    ensures |r| == |xs| + 1
  {
    if |xs| == 0 then [x]
    else if lt(xs[0], x) then [xs[0]] + Insert(x, xs[1..], lt)
    else [x] + xs
  }

  /** The library sort, written as an insertion sort. */
  function Sort<T>(xs: seq<T>, lt: (T, T) -> bool): (r: seq<T>)
    ensures |r| == |xs|
  {
    if |xs| == 0 then [] else Insert(xs[0], Sort(xs[1..], lt), lt)
  }

  /** Every element of `xs` follows `x`. */
  predicate Below<T>(x: T, xs: seq<T>, lt: (T, T) -> bool) {
    forall k :: 0 <= k < |xs| ==> lt(x, xs[k])
  }

  lemma ConsSorted<T>(x: T, xs: seq<T>, lt: (T, T) -> bool)
    requires Sorted(xs, lt) && Below(x, xs, lt)
    ensures Sorted([x] + xs, lt)
  {
    var r := [x] + xs;
    forall i, j | 0 <= i < j < |r| ensures lt(r[i], r[j]) {
      if i == 0 {
        assert r[j] == xs[j - 1];
      } else {
        assert r[i] == xs[i - 1] && r[j] == xs[j - 1];
      }
    }
  }

  lemma {:induction false} InsertElements<T>(x: T, xs: seq<T>, lt: (T, T) -> bool)
    ensures multiset(Insert(x, xs, lt)) == multiset(xs) + multiset{x}
  {
    if |xs| > 0 && lt(xs[0], x) {
      InsertElements(x, xs[1..], lt);
      assert xs == [xs[0]] + xs[1..];
    }
  }

  lemma {:induction false} InsertSorted<T(!new)>(x: T, xs: seq<T>, lt: (T, T) -> bool)
    requires StrictTotalOrder(lt) && Sorted(xs, lt) && x !in xs
    ensures Sorted(Insert(x, xs, lt), lt)
    ensures multiset(Insert(x, xs, lt)) == multiset(xs) + multiset{x}
  {
    InsertElements(x, xs, lt);
    if |xs| > 0 && lt(xs[0], x) {
      var tail := xs[1..];
      assert x !in tail;
      assert Sorted(tail, lt);
      InsertSorted(x, tail, lt);
      var r := Insert(x, tail, lt);
      forall k | 0 <= k < |r| ensures lt(xs[0], r[k]) {
        assert r[k] in multiset(tail) + multiset{x};
        if r[k] != x {
          var m :| 0 <= m < |tail| && tail[m] == r[k];
          assert tail[m] == xs[m + 1];
        }
      }
      ConsSorted(xs[0], r, lt);
    } else if |xs| > 0 {
      assert lt(x, xs[0]);
      assert Below(x, xs, lt);
      ConsSorted(x, xs, lt);
    }
  }

  lemma {:induction false} SortSorted<T(!new)>(xs: seq<T>, lt: (T, T) -> bool)
    requires StrictTotalOrder(lt) && Distinct(xs)
    ensures Sorted(Sort(xs, lt), lt)
    ensures multiset(Sort(xs, lt)) == multiset(xs)
  {
    if |xs| > 0 {
      var tail := xs[1..];
      assert Distinct(tail);
      SortSorted(tail, lt);
      assert xs[0] !in tail;
      assert xs[0] !in multiset(Sort(tail, lt));
      InsertSorted(xs[0], Sort(tail, lt), lt);
      assert xs == [xs[0]] + tail;
    }
  }

  lemma SortedIsDistinct<T(!new)>(xs: seq<T>, lt: (T, T) -> bool)
    requires StrictTotalOrder(lt) && Sorted(xs, lt)
    ensures Distinct(xs)
  {
    forall i, j | 0 <= i < j < |xs| ensures xs[i] != xs[j] {
      assert lt(xs[i], xs[j]);
    }
  }

  /** Two sorted sequences with the same elements are the same sequence. */
  lemma {:induction false} SortedUnique<T(!new)>(xs: seq<T>, ys: seq<T>, lt: (T, T) -> bool)
    requires StrictTotalOrder(lt) && Sorted(xs, lt) && Sorted(ys, lt)
    requires forall z :: z in xs <==> z in ys
    ensures xs == ys
    decreases |xs|
  {
    if |xs| == 0 {
      forall z ensures multiset(ys)[z] == 0 {
        assert z !in ys;
      }
      assert multiset(ys) == multiset{};
      assert |ys| == |multiset(ys)| == 0;
    } else {
      assert xs[0] in ys;
      assert !lt(ys[0], xs[0]) by {
        assert ys[0] in xs;
        var i :| 0 <= i < |xs| && xs[i] == ys[0];
        assert Sorted(xs, lt);
      }
      assert !lt(xs[0], ys[0]) by {
        var j :| 0 <= j < |ys| && ys[j] == xs[0];
        assert Sorted(ys, lt);
      }
      forall z ensures z in xs[1..] <==> z in ys[1..] {
        if z in xs[1..] {
          var i :| 1 <= i < |xs| && xs[i] == z;
          assert lt(xs[0], z);
          assert z in ys;
        }
        if z in ys[1..] {
          var j :| 1 <= j < |ys| && ys[j] == z;
          assert lt(ys[0], z);
          assert z in xs;
        }
      }
      SortedUnique(xs[1..], ys[1..], lt);
      assert xs == [xs[0]] + xs[1..];
      assert ys == [ys[0]] + ys[1..];
    }
  }

  /** What `Insert` holds: `x` and the elements of `xs`. */
  lemma InsertMembers<T>(x: T, xs: seq<T>, lt: (T, T) -> bool)
    ensures forall z :: z in Insert(x, xs, lt) <==> z == x || z in xs
  {
    InsertElements(x, xs, lt);
    forall z ensures z in Insert(x, xs, lt) <==> z == x || z in xs {
      assert z in Insert(x, xs, lt) <==> z in multiset(Insert(x, xs, lt));
      assert z in xs <==> z in multiset(xs);
    }
  }

  lemma {:induction false} ListingExists<T(!new)>(s: set<T>, lt: (T, T) -> bool)
    requires StrictTotalOrder(lt)
    ensures exists xs :: Sorted(xs, lt) && (forall z :: z in xs <==> z in s) && |xs| == |s|
    decreases |s|
  {
    if s == {} {
      var empty: seq<T> := [];
      assert Sorted(empty, lt) && (forall z :: z in empty <==> z in s) && |empty| == |s|;
    } else {
      var x :| x in s;
      var rest := s - {x};
      ListingExists(rest, lt);
      var ys :| Sorted(ys, lt) && (forall z :: z in ys <==> z in rest) && |ys| == |rest|;
      assert x !in ys;
      InsertSorted(x, ys, lt);
      var zs := Insert(x, ys, lt);
      InsertMembers(x, ys, lt);
      assert |rest| + 1 == |s|;
      assert forall z :: z in zs <==> z in s;
      assert Sorted(zs, lt) && (forall z :: z in zs <==> z in s) && |zs| == |s|;
    }
  }

  /** The elements of `s` in increasing order: what sorting any enumeration of `s` yields. */
  ghost function Listing<T(!new)>(s: set<T>, lt: (T, T) -> bool): (xs: seq<T>)
    requires StrictTotalOrder(lt)
    ensures Sorted(xs, lt) && (forall z :: z in xs <==> z in s) && |xs| == |s|
  {
    ListingExists(s, lt);
    var xs :| Sorted(xs, lt) && (forall z :: z in xs <==> z in s) && |xs| == |s|; xs
  }

  /** Sorting an enumeration of a set, in whatever order it came, gives its listing. */
  lemma SortIsListing<T(!new)>(xs: seq<T>, s: set<T>, lt: (T, T) -> bool)
    requires StrictTotalOrder(lt) && Distinct(xs)
    requires forall z :: z in xs <==> z in s
    ensures Sort(xs, lt) == Listing(s, lt)
  {
    SortSorted(xs, lt);
    var r := Sort(xs, lt);
    assert forall z :: z in r <==> z in multiset(xs);
    SortedUnique(r, Listing(s, lt), lt);
  }

  /** A sorted sequence is the listing of its own elements. */
  lemma ListingOfSorted<T(!new)>(xs: seq<T>, s: set<T>, lt: (T, T) -> bool)
    requires StrictTotalOrder(lt) && Sorted(xs, lt)
    requires forall z :: z in xs <==> z in s
    ensures Listing(s, lt) == xs
  {
    SortedUnique(xs, Listing(s, lt), lt);
  }
}
