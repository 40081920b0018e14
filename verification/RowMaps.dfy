// Seconds of stored rows grouped under a name: what the nested maps of
// server/internal/usage/aggregate.go hold.
module RowMaps {
  import opened Sums
  import opened UsageTypes
  import opened Store

  type Selector = Row -> bool
  type Naming = Row -> string

  function Keyed(q: Selector, name: Naming, k: string): Selector {
    (r: Row) => q(r) && name(r) == k
  }

  function Names(rows: seq<Row>, q: Selector, name: Naming): set<string> {
    set r | r in rows && q(r) :: name(r)
  }

  /** For every name a selected row carries, the seconds of the selected rows that carry it. */
  function By(rows: seq<Row>, q: Selector, name: Naming): map<string, nat> {
    map k | k in Names(rows, q, name) :: SumRows(rows, Keyed(q, name, k))
  }

  function All(): string -> bool { (k: string) => true }

  lemma SumRowsGrows(rows: seq<Row>, r: Row, q: Selector)
    ensures SumRows(rows + [r], q) == SumRows(rows, q) + if q(r) then r.seconds else 0
  {
    assert (rows + [r])[..|rows|] == rows;
  }

  lemma {:induction false} SumRowsNone(rows: seq<Row>, q: Selector)
    requires forall r | r in rows :: !q(r)
    ensures SumRows(rows, q) == 0
  {
    if rows != [] {
      assert rows[|rows| - 1] in rows;
      SumRowsNone(rows[..|rows| - 1], q);
    }
  }

  lemma {:induction false} SumRowsSame(rows: seq<Row>, q: Selector, p: Selector)
    requires forall r | r in rows :: q(r) == p(r)
    ensures SumRows(rows, q) == SumRows(rows, p)
  {
    if rows != [] {
      assert rows[|rows| - 1] in rows;
      SumRowsSame(rows[..|rows| - 1], q, p);
    }
  }

  lemma NamesGrow(rows: seq<Row>, r: Row, q: Selector, name: Naming)
    ensures Names(rows + [r], q, name) == Names(rows, q, name) + if q(r) then {name(r)} else {}
  {}

  /** One more row adds its seconds under its name, if it is selected. */
  lemma ByGrows(rows: seq<Row>, r: Row, q: Selector, name: Naming)
    ensures var m := By(rows, q, name);
            By(rows + [r], q, name) ==
            if q(r) then m[name(r) := (if name(r) in m then m[name(r)] else 0) + r.seconds] else m
  {
    hide SumRows, Keyed, Names;
    var m, n := By(rows, q, name), By(rows + [r], q, name);
    NamesGrow(rows, r, q, name);
    var put := if q(r) then m[name(r) := (if name(r) in m then m[name(r)] else 0) + r.seconds] else m;
    forall k | k in n ensures n[k] == put[k] {
      KeyedGrows(rows, r, q, name, k);
    }
    assert n.Keys == put.Keys;
  }

  lemma KeyedGrows(rows: seq<Row>, r: Row, q: Selector, name: Naming, k: string)
    ensures SumRows(rows + [r], Keyed(q, name, k)) ==
            SumRows(rows, Keyed(q, name, k)) + if q(r) && name(r) == k then r.seconds else 0
    ensures k !in Names(rows, q, name) ==> SumRows(rows, Keyed(q, name, k)) == 0
  {
    SumRowsGrows(rows, r, Keyed(q, name, k));
    if k !in Names(rows, q, name) { SumRowsNone(rows, Keyed(q, name, k)); }
  }

  lemma NothingToSum(q: Selector, name: Naming)
    ensures SumWhere(By([], q, name), All()) == 0 == SumRows([], q)
  {
    assert SumWhere<string>(map[], All()) == 0;
  }

  /** Grouping loses nothing: the groups sum to the selected rows. */
  lemma {:induction false} BySum(rows: seq<Row>, q: Selector, name: Naming)
    ensures SumWhere(By(rows, q, name), All()) == SumRows(rows, q)
  {
    hide By, Keyed, SumRows, SumWhere;
    if rows == [] {
      NothingToSum(q, name);
    } else {
      var front, r := rows[..|rows| - 1], rows[|rows| - 1];
      assert rows == front + [r];
      BySum(front, q, name);
      ByGrows(front, r, q, name);
      SumRowsGrows(front, r, q);
      var m := By(front, q, name);
      if q(r) {
        SumPut(m, All(), name(r), (if name(r) in m then m[name(r)] else 0) + r.seconds);
        SumAbsent(m, All(), name(r));
      }
    }
  }

  // ---------- Order does not matter ----------

  lemma {:induction false} SumRowsConcat(xs: seq<Row>, ys: seq<Row>, q: Selector)
    ensures SumRows(xs + ys, q) == SumRows(xs, q) + SumRows(ys, q)
  {
    if ys == [] {
      assert xs + ys == xs;
    } else {
      var front, r := ys[..|ys| - 1], ys[|ys| - 1];
      assert xs + ys == xs + front + [r];
      SumRowsConcat(xs, front, q);
      SumRowsGrows(xs + front, r, q);
    }
  }

  predicate Permuted(xs: seq<Row>, ys: seq<Row>) { multiset(xs) == multiset(ys) }

  lemma PermutedMembers(xs: seq<Row>, ys: seq<Row>, r: Row)
    requires Permuted(xs, ys)
    ensures r in xs <==> r in ys
  {
    assert r in xs <==> r in multiset(xs);
    assert r in ys <==> r in multiset(ys);
  }

  lemma {:induction false} SumRowsPermuted(xs: seq<Row>, ys: seq<Row>, q: Selector)
    requires Permuted(xs, ys)
    ensures SumRows(xs, q) == SumRows(ys, q)
  {
    if xs == [] {
      assert |ys| == |multiset(ys)|;
      assert ys == [];
    } else {
      var n := |xs| - 1;
      var r := xs[n];
      assert xs == xs[..n] + [r];
      PermutedMembers(xs, ys, r);
      var i :| 0 <= i < |ys| && ys[i] == r;
      var rest := ys[..i] + ys[i + 1..];
      assert ys == ys[..i] + [r] + ys[i + 1..];
      assert xs[..n] + xs[n + 1..] == xs[..n];
      assert multiset(xs[..n]) == multiset(xs) - multiset{r} == multiset(rest);
      SumRowsPermuted(xs[..n], rest, q);
      SumRowsConcat(ys[..i], ys[i + 1..], q);
      SumRowsGrows(ys[..i], r, q);
      SumRowsConcat(ys[..i] + [r], ys[i + 1..], q);
    }
  }

  lemma ByPermuted(xs: seq<Row>, ys: seq<Row>, q: Selector, name: Naming)
    requires Permuted(xs, ys)
    ensures By(xs, q, name) == By(ys, q, name)
  {
    forall r ensures r in xs <==> r in ys { PermutedMembers(xs, ys, r); }
    assert Names(xs, q, name) == Names(ys, q, name);
    forall k | k in Names(xs, q, name) ensures SumRows(xs, Keyed(q, name, k)) == SumRows(ys, Keyed(q, name, k)) {
      SumRowsPermuted(xs, ys, Keyed(q, name, k));
    }
  }
}
