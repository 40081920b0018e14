// Most-recent-first lists of distinct things.
module Recency {
  import opened Ranking

  /** `xs` without the first occurrence of `x`. */
  function Without<T(==)>(xs: seq<T>, x: T): (ys: seq<T>)
    ensures |ys| <= |xs|
  {
    if xs == [] then [] else if xs[0] == x then xs[1..] else [xs[0]] + Without(xs[1..], x)
  }

  function MoveToFront<T(==)>(xs: seq<T>, x: T): seq<T> {
    [x] + Without(xs, x)
  }

  function Take<T>(k: nat, xs: seq<T>): (ys: seq<T>)
    ensures |ys| == if |xs| <= k then |xs| else k
  {
    if |xs| <= k then xs else xs[..k]
  }

  lemma {:induction false} TakeWithout<T>(xs: seq<T>, x: T, k: nat)
    requires k > 0
    ensures Take(k - 1, Without(Take(k, xs), x)) == Take(k - 1, Without(xs, x))
  {
    if xs != [] && xs[0] != x && k > 1 {
      TakeWithout(xs[1..], x, k - 1);
      assert Take(k, xs) == [xs[0]] + Take(k - 1, xs[1..]);
      assert Take(k - 1, [xs[0]] + Without(xs[1..], x)) == [xs[0]] + Take(k - 2, Without(xs[1..], x));
      var cut := Take(k - 1, xs[1..]);
      assert ([xs[0]] + cut)[1..] == cut;
      assert Take(k - 1, [xs[0]] + Without(cut, x)) == [xs[0]] + Take(k - 2, Without(cut, x));
    } else if xs != [] && xs[0] == x {
      assert Take(k, xs)[1..] == Take(k - 1, xs[1..]);
    }
  }

  /** Cutting a list to its first `k` elements before moving an element to the
      front makes no difference to the first `k` elements afterwards. */
  lemma TakeMoveToFront<T>(xs: seq<T>, x: T, k: nat)
    requires k > 0
    ensures Take(k, MoveToFront(Take(k, xs), x)) == Take(k, MoveToFront(xs, x))
  {
    TakeWithout(xs, x, k);
    var a, b := Without(Take(k, xs), x), Without(xs, x);
    assert Take(k, [x] + a) == [x] + Take(k - 1, a);
    assert Take(k, [x] + b) == [x] + Take(k - 1, b);
  }

  lemma {:induction false} WithoutAbsent<T>(xs: seq<T>, x: T)
    requires x !in xs
    ensures Without(xs, x) == xs
  {
    if xs != [] {
      assert xs[0] in xs;
      WithoutAbsent(xs[1..], x);
      assert xs == [xs[0]] + xs[1..];
    }
  }

  lemma {:induction false} WithoutPresent<T>(xs: seq<T>, i: nat)
    requires i < |xs| && forall j | 0 <= j < i :: xs[j] != xs[i]
    ensures Without(xs, xs[i]) == xs[..i] + xs[i + 1..]
  {
    if i > 0 {
      WithoutPresent(xs[1..], i - 1);
      assert xs[..i] == [xs[0]] + xs[1..][..i - 1];
      assert xs[1..][i - 1 + 1..] == xs[i + 1..];
    }
  }

  lemma {:induction false} WithoutMembers<T>(xs: seq<T>, x: T, y: T)
    requires Distinct(xs)
    ensures y in Without(xs, x) <==> y in xs && y != x
    ensures Distinct(Without(xs, x))
    ensures x in xs ==> |Without(xs, x)| == |xs| - 1
  {
    hide Without;
    if x in xs {
      var i :| 0 <= i < |xs| && xs[i] == x;
      WithoutPresent(xs, i);
    } else {
      WithoutAbsent(xs, x);
    }
  }

  lemma MoveToFrontMembers<T>(xs: seq<T>, x: T)
    requires Distinct(xs)
    ensures Distinct(MoveToFront(xs, x))
    ensures forall y :: y in MoveToFront(xs, x) <==> y == x || y in xs
  {
    forall y ensures y in MoveToFront(xs, x) <==> y == x || y in xs { WithoutMembers(xs, x, y); }
    WithoutMembers(xs, x, x);
  }

  /** The values of `f` fall strictly along the list. */
  predicate Falling<T>(xs: seq<T>, f: T -> int) {
    forall i, j | 0 <= i < j < |xs| :: f(xs[i]) > f(xs[j])
  }

  lemma FallingWithout<T>(xs: seq<T>, x: T, f: T -> int)
    requires Falling(xs, f)
    ensures Falling(Without(xs, x), f)
  {
    hide Without;
    if x in xs {
      var i :| 0 <= i < |xs| && xs[i] == x;
      forall j | 0 <= j < i ensures xs[j] != xs[i] { assert f(xs[j]) > f(xs[i]); }
      WithoutPresent(xs, i);
    } else {
      WithoutAbsent(xs, x);
    }
  }

  lemma FallingIsDistinct<T>(xs: seq<T>, f: T -> int)
    requires Falling(xs, f)
    ensures Distinct(xs)
  {
    forall i, j | 0 <= i < j < |xs| ensures xs[i] != xs[j] { assert f(xs[i]) > f(xs[j]); }
  }

  lemma FallingUnique<T(!new)>(xs: seq<T>, ys: seq<T>, f: T -> int)
    requires Falling(xs, f) && Falling(ys, f) && SameElements(xs, ys)
    ensures xs == ys
  {
    SortedUnique(xs, ys, (a: T, b: T) => f(a) > f(b));
  }

  lemma {:induction false} SizeOfDistinct<T>(xs: seq<T>, s: set<T>)
    requires Distinct(xs) && forall x :: x in s <==> x in xs
    ensures |s| == |xs|
  {
    if xs == [] {
      assert s == {};
    } else {
      var n := |xs| - 1;
      assert xs[n] in xs;
      forall x ensures x in s - {xs[n]} <==> x in xs[..n] {
        if x in xs && x != xs[n] {
          var i :| 0 <= i < |xs| && xs[i] == x;
          assert xs[..n][i] == x;
        }
      }
      SizeOfDistinct(xs[..n], s - {xs[n]});
    }
  }
}
