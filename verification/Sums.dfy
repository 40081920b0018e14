// Weighted sums over maps and counts over ranges, selected by a predicate.
module Sums {

  // ---------- Maps ----------

  function Weight<K>(m: map<K, nat>, p: K -> bool, k: K): nat
    requires k in m
  {
    if p(k) then m[k] else 0
  }

  /** The sum of `m[k]` over the keys that satisfy `p`. */
  ghost function SumWhere<K>(m: map<K, nat>, p: K -> bool): nat
    decreases |m|
  {
    if m == map[] then 0
    else
      var k :| k in m;
      Weight(m, p, k) + SumWhere(m - {k}, p)
  }

  /** Any key may be taken out first. */
  lemma {:induction false} SumWithout<K>(m: map<K, nat>, p: K -> bool, k: K)
    requires k in m
    ensures SumWhere(m, p) == Weight(m, p, k) + SumWhere(m - {k}, p)
    decreases |m|
  {
    var j :| j in m && SumWhere(m, p) == Weight(m, p, j) + SumWhere(m - {j}, p);
    if j != k {
      var mj, mk := m - {j}, m - {k};
      assert |mj| < |m| && |mk| < |m| && k in mj && j in mk;
      SumWithout(mj, p, k);
      SumWithout(mk, p, j);
      assert mj - {k} == mk - {j};
      assert Weight(mj, p, k) == Weight(m, p, k) && Weight(mk, p, j) == Weight(m, p, j);
    }
  }

  lemma SumPut<K>(m: map<K, nat>, p: K -> bool, k: K, v: nat)
    ensures SumWhere(m[k := v], p) == SumWhere(m - {k}, p) + if p(k) then v else 0
  {
    SumWithout(m[k := v], p, k);
    assert m[k := v] - {k} == m - {k};
  }

  lemma SumAbsent<K>(m: map<K, nat>, p: K -> bool, k: K)
    ensures SumWhere(m, p) == SumWhere(m - {k}, p) + if k in m && p(k) then m[k] else 0
  {
    if k in m { SumWithout(m, p, k); } else { assert m - {k} == m; }
  }

  /** Predicates that agree on the keys give the same sum. */
  lemma {:induction false} SumSame<K>(m: map<K, nat>, p: K -> bool, q: K -> bool)
    requires forall k | k in m :: p(k) == q(k)
    ensures SumWhere(m, p) == SumWhere(m, q)
    decreases |m|
  {
    if m != map[] {
      var k :| k in m;
      SumWithout(m, p, k);
      SumWithout(m, q, k);
      SumSame(m - {k}, p, q);
    }
  }

  /** A predicate that picks one key sums to that key's value. */
  lemma SumSingle<K>(m: map<K, nat>, p: K -> bool, k: K)
    requires forall j :: p(j) <==> j == k
    ensures SumWhere(m, p) == if k in m then m[k] else 0
  {
    SumAbsent(m, p, k);
  }

  // ---------- Ranges ----------

  /** How many integers of [lo, hi) satisfy `f`. */
  function Count(lo: int, hi: int, f: int -> bool): (n: nat)
    decreases hi - lo
  {
    if lo >= hi then 0 else Count(lo, hi - 1, f) + if f(hi - 1) then 1 else 0
  }

  lemma {:induction false} CountSplit(lo: int, mid: int, hi: int, f: int -> bool)
    requires lo <= mid <= hi
    ensures Count(lo, hi, f) == Count(lo, mid, f) + Count(mid, hi, f)
    decreases hi - mid
  {
    if mid < hi { CountSplit(lo, mid, hi - 1, f); }
  }

  lemma {:induction false} CountSame(lo: int, hi: int, f: int -> bool, g: int -> bool)
    requires forall s | lo <= s < hi :: f(s) == g(s)
    ensures Count(lo, hi, f) == Count(lo, hi, g)
    decreases hi - lo
  {
    if lo < hi { CountSame(lo, hi - 1, f, g); }
  }

  lemma {:induction false} CountConstant(lo: int, hi: int, f: int -> bool, b: bool)
    requires lo <= hi
    requires forall s | lo <= s < hi :: f(s) == b
    ensures Count(lo, hi, f) == if b then hi - lo else 0
    decreases hi - lo
  {
    if lo < hi { CountConstant(lo, hi - 1, f, b); }
  }

  lemma {:induction false} CountAtMost(lo: int, hi: int, f: int -> bool)
    requires lo <= hi
    ensures Count(lo, hi, f) <= hi - lo
    decreases hi - lo
  {
    if lo < hi { CountAtMost(lo, hi - 1, f); }
  }

  /** Only the part of the range where `f` can hold matters. */
  lemma CountWithin(lo: int, hi: int, a: int, b: int, f: int -> bool)
    requires a <= b
    requires forall s | lo <= s < hi && f(s) :: a <= s < b
    ensures Count(lo, hi, f) <= b - a
  {
    var x := if lo < a then a else lo;
    var y := if hi < b then hi else b;
    if lo <= x <= y <= hi {
      CountSplit(lo, x, hi, f);
      CountSplit(x, y, hi, f);
      CountConstant(lo, x, f, false);
      CountConstant(y, hi, f, false);
      CountAtMost(x, y, f);
    } else if lo <= hi {
      CountConstant(lo, hi, f, false);
    }
  }
}
