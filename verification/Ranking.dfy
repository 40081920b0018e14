// Sorted sequences with one possible order: why sorting may be done by any
// algorithm and from any starting order.
module Ranking {

  ghost predicate StrictOrder<T(!new)>(less: (T, T) -> bool) {
    && (forall x :: !less(x, x))
    && (forall x, y, z :: less(x, y) && less(y, z) ==> less(x, z))
  }

  predicate Sorted<T>(xs: seq<T>, less: (T, T) -> bool) {
    forall i, j | 0 <= i < j < |xs| :: less(xs[i], xs[j])
  }

  ghost predicate SameElements<T(!new)>(xs: seq<T>, ys: seq<T>) {
    forall x :: x in xs <==> x in ys
  }

  lemma HasElement<T(!new)>(xs: seq<T>)
    requires xs != []
    ensures exists x :: x in xs
  {
    assert xs[0] in xs;
  }

  /** Two strictly sorted sequences with the same elements are equal. */
  lemma {:induction false} SortedUnique<T(!new)>(xs: seq<T>, ys: seq<T>, less: (T, T) -> bool)
    requires StrictOrder(less) && Sorted(xs, less) && Sorted(ys, less) && SameElements(xs, ys)
    ensures xs == ys
  {
    if xs == [] {
      if ys != [] { HasElement(ys); }
    } else {
      assert xs[0] in ys;
      assert ys[0] in xs;
      var i :| 0 <= i < |ys| && ys[i] == xs[0];
      var j :| 0 <= j < |xs| && xs[j] == ys[0];
      assert i == 0;
      forall x ensures x in xs[1..] <==> x in ys[1..] {
        if x in xs[1..] {
          var k :| 1 <= k < |xs| && xs[k] == x;
          assert x in ys && less(xs[0], x);
          var l :| 0 <= l < |ys| && ys[l] == x;
          assert ys[1..][l - 1] == x;
        }
        if x in ys[1..] {
          var k :| 1 <= k < |ys| && ys[k] == x;
          assert x in xs && less(ys[0], x);
          var l :| 0 <= l < |xs| && xs[l] == x;
          assert xs[1..][l - 1] == x;
        }
      }
      SortedUnique(xs[1..], ys[1..], less);
    }
  }

  /** Inserts `x` before the first element it precedes. */
  function Insert<T>(x: T, xs: seq<T>, less: (T, T) -> bool): seq<T> {
    if xs == [] then [x]
    else if less(x, xs[0]) then [x] + xs
    else [xs[0]] + Insert(x, xs[1..], less)
  }

  /** Any sort will do; see `SortedUnique`. */
  function SortBy<T>(xs: seq<T>, less: (T, T) -> bool): seq<T> {
    if xs == [] then [] else Insert(xs[0], SortBy(xs[1..], less), less)
  }

  lemma {:induction false} InsertElements<T>(x: T, xs: seq<T>, less: (T, T) -> bool, y: T)
    ensures y in Insert(x, xs, less) <==> y == x || y in xs
  {
    if xs != [] && !less(x, xs[0]) {
      InsertElements(x, xs[1..], less, y);
      assert xs == [xs[0]] + xs[1..];
    }
  }

  lemma {:induction false} InsertSorted<T(!new)>(x: T, xs: seq<T>, less: (T, T) -> bool)
    requires StrictOrder(less) && Sorted(xs, less)
    requires forall y | y in xs :: less(x, y) || less(y, x)
    ensures Sorted(Insert(x, xs, less), less)
  {
    if xs != [] {
      if less(x, xs[0]) {
        forall i, j | 0 <= i < j < |[x] + xs| ensures less(([x] + xs)[i], ([x] + xs)[j]) {
          if i == 0 && j > 1 { assert less(xs[0], xs[j - 1]); }
        }
      } else {
        var rest := Insert(x, xs[1..], less);
        forall y | y in xs[1..] ensures less(x, y) || less(y, x) { assert y in xs; }
        InsertSorted(x, xs[1..], less);
        assert xs[0] in xs;
        forall k | 0 <= k < |rest| ensures less(xs[0], rest[k]) {
          InsertElements(x, xs[1..], less, rest[k]);
          assert rest[k] in rest;
        }
      }
    }
  }

  predicate Distinct<T(==)>(xs: seq<T>) {
    forall i, j | 0 <= i < j < |xs| :: xs[i] != xs[j]
  }

  lemma {:induction false} SortByElements<T>(xs: seq<T>, less: (T, T) -> bool, y: T)
    ensures y in SortBy(xs, less) <==> y in xs
  {
    if xs != [] {
      SortByElements(xs[1..], less, y);
      InsertElements(xs[0], SortBy(xs[1..], less), less, y);
      assert xs == [xs[0]] + xs[1..];
    }
  }

  /** Sorting distinct, comparable elements. */
  lemma {:induction false} SortBySorts<T(!new)>(xs: seq<T>, less: (T, T) -> bool)
    requires StrictOrder(less) && Distinct(xs)
    requires forall x, y | x in xs && y in xs && x != y :: less(x, y) || less(y, x)
    ensures Sorted(SortBy(xs, less), less) && SameElements(SortBy(xs, less), xs)
  {
    forall y ensures y in SortBy(xs, less) <==> y in xs { SortByElements(xs, less, y); }
    if xs != [] {
      assert xs == [xs[0]] + xs[1..];
      SortBySorts(xs[1..], less);
      forall y | y in SortBy(xs[1..], less) ensures less(xs[0], y) || less(y, xs[0]) {
        SortByElements(xs[1..], less, y);
        assert y in xs[1..];
        var k :| 0 <= k < |xs| - 1 && xs[1..][k] == y;
        assert xs[k + 1] == y && xs[0] != xs[k + 1];
        assert xs[0] in xs && y in xs;
      }
      InsertSorted(xs[0], SortBy(xs[1..], less), less);
    }
  }
}
