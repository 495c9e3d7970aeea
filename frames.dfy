/// The table operations every view of the dashboard is built from,
/// stated once over any row or key type: boolean-mask selection `df[mask]`
/// (app.py:300, 305-306, 315, 343, 497-498, 526-527), `groupby(keys).size()`
/// (a count per distinct key; app.py:355-359, 411-415, 475-479, 502-506,
/// 531-535) and `sort_values` (app.py:426, 480, 507, 536).
module Frames {

  // ---------------------------------------------------------------------
  // df[mask]
  // ---------------------------------------------------------------------

  /** `df[mask]`: the rows for which `keep` holds, in table order. */
  function Where<T>(xs: seq<T>, keep: T -> bool): (r: seq<T>)
    ensures |r| <= |xs|
  {
    if xs == [] then []
    else (if keep(xs[0]) then [xs[0]] else []) + Where(xs[1..], keep)
  }

  /** A row is selected exactly when it is in the table and passes. */
  lemma {:induction false} WhereMembers<T>(xs: seq<T>, keep: T -> bool)
    ensures forall x :: x in Where(xs, keep) <==> x in xs && keep(x)
  {
    if xs != [] {
      WhereMembers(xs[1..], keep);
      assert xs == [xs[0]] + xs[1..];
    }
  }

  lemma {:induction false} WhereCons<T>(x: T, xs: seq<T>, keep: T -> bool)
    ensures Where([x] + xs, keep) == (if keep(x) then [x] else []) + Where(xs, keep)
  {
    assert ([x] + xs)[0] == x && ([x] + xs)[1..] == xs;
  }

  /** Selection keeps table order: it distributes over concatenation. */
  lemma {:induction false} WhereAppend<T>(a: seq<T>, b: seq<T>, keep: T -> bool)
    ensures Where(a + b, keep) == Where(a, keep) + Where(b, keep)
  {
    if a == [] {
      assert a + b == b;
    } else {
      var head := if keep(a[0]) then [a[0]] else [];
      calc {
        Where(a + b, keep);
        { assert a + b == [a[0]] + (a[1..] + b); WhereCons(a[0], a[1..] + b, keep); }
        head + Where(a[1..] + b, keep);
        { WhereAppend(a[1..], b, keep); }
        head + (Where(a[1..], keep) + Where(b, keep));
        (head + Where(a[1..], keep)) + Where(b, keep);
        { assert a == [a[0]] + a[1..]; WhereCons(a[0], a[1..], keep); }
        Where(a, keep) + Where(b, keep);
      }
    }
  }

  /** A mask every row passes keeps the table as it is. */
  lemma {:induction false} WhereAll<T>(xs: seq<T>, keep: T -> bool)
    requires forall i :: 0 <= i < |xs| ==> keep(xs[i])
    ensures Where(xs, keep) == xs
  {
    if xs != [] {
      WhereAll(xs[1..], keep);
    }
  }

  /** The selection is empty exactly when no row passes. */
  lemma {:induction false} WhereEmpty<T>(xs: seq<T>, keep: T -> bool)
    ensures Where(xs, keep) == [] <==> forall i :: 0 <= i < |xs| ==> !keep(xs[i])
  {
    if xs != [] {
      WhereEmpty(xs[1..], keep);
      if !keep(xs[0]) {
        assert forall i :: 1 <= i < |xs| ==> xs[i] == xs[1..][i - 1];
      }
    }
  }

  /** Every selected row passes the mask. */
  lemma {:induction false} WherePasses<T>(xs: seq<T>, keep: T -> bool)
    ensures forall i :: 0 <= i < |Where(xs, keep)| ==> keep(Where(xs, keep)[i])
  {
    if xs != [] {
      WherePasses(xs[1..], keep);
    }
  }

  /** Applying the same mask twice selects nothing more and nothing less. */
  lemma {:induction false} WhereIdempotent<T>(xs: seq<T>, keep: T -> bool)
    ensures Where(Where(xs, keep), keep) == Where(xs, keep)
  {
    WherePasses(xs, keep);
    WhereAll(Where(xs, keep), keep);
  }

  /** Two masks can be applied in either order. */
  lemma {:induction false} WhereCommute<T>(xs: seq<T>, p: T -> bool, q: T -> bool)
    ensures Where(Where(xs, p), q) == Where(Where(xs, q), p)
  {
    if xs != [] {
      WhereCommute(xs[1..], p, q);
      var h := xs[0];
      var hp := if p(h) then [h] else [];
      var hq := if q(h) then [h] else [];
      WhereAppend(hp, Where(xs[1..], p), q);
      WhereAppend(hq, Where(xs[1..], q), p);
    }
  }

  /** The positions of `xs` whose row passes the mask. */
  function Passing<T>(xs: seq<T>, keep: T -> bool): set<int> {
    set i | 0 <= i < |xs| && keep(xs[i])
  }

  /** The number of selected rows is the number of positions whose row
      passes the mask. */
  lemma {:induction false} WhereCount<T>(xs: seq<T>, keep: T -> bool)
    ensures |Where(xs, keep)| == |Passing(xs, keep)|
  {
    if xs != [] {
      var n := |xs| - 1;
      var init := xs[..n];
      WhereCount(init, keep);
      assert xs == init + [xs[n]];
      WhereAppend(init, [xs[n]], keep);
      assert ([xs[n]])[1..] == [];
      var before := Passing(init, keep);
      var all := Passing(xs, keep);
      assert n !in before;
      if keep(xs[n]) {
        assert all == before + {n};
      } else {
        assert all == before;
      }
    }
  }

  /** The conjunction of two masks, `p & q`. */
  function Both<T>(p: T -> bool, q: T -> bool): T -> bool {
    x => p(x) && q(x)
  }

  /** Selecting by `p` and then by `q` is selecting by both at once. */
  lemma {:induction false} WhereBoth<T>(xs: seq<T>, p: T -> bool, q: T -> bool)
    ensures Where(Where(xs, p), q) == Where(xs, Both(p, q))
  {
    if xs != [] {
      WhereBoth(xs[1..], p, q);
      var h := xs[0];
      var hp := if p(h) then [h] else [];
      WhereAppend(hp, Where(xs[1..], p), q);
    }
  }

  // ---------------------------------------------------------------------
  // groupby(...).size()
  // ---------------------------------------------------------------------

  /** One row of `groupby(...).size().reset_index()`: a key and the number of
      rows that carry it. */
  datatype Group<K> = Group(key: K, size: nat)

  /** Counts one more row with key `k`: its group grows by one, or a new
      group of size one is appended. */
  function Bump<K(==)>(groups: seq<Group<K>>, k: K): seq<Group<K>> {
    if groups == [] then [Group(k, 1)]
    else if groups[0].key == k then [Group(k, groups[0].size + 1)] + groups[1..]
    else [groups[0]] + Bump(groups[1..], k)
  }

  /** `groupby(...).size()` over the row keys `keys`, one group per distinct
      key in order of first appearance. */
  function GroupSizes<K(==)>(keys: seq<K>): seq<Group<K>> {
    if keys == [] then [] else Bump(GroupSizes(keys[..|keys| - 1]), keys[|keys| - 1])
  }

  /** The size of the group of `k`, or 0 when there is none (the
      `fill_value=0` of a pivot). */
  function SizeOf<K(==)>(groups: seq<Group<K>>, k: K): nat {
    if groups == [] then 0
    else if groups[0].key == k then groups[0].size
    else SizeOf(groups[1..], k)
  }

  /** The sum of the group sizes. */
  function SumSizes<K>(groups: seq<Group<K>>): nat {
    if groups == [] then 0 else groups[0].size + SumSizes(groups[1..])
  }

  predicate HasKey<K(==)>(groups: seq<Group<K>>, k: K) {
    exists i :: 0 <= i < |groups| && groups[i].key == k
  }

  predicate DistinctKeys<K(==)>(groups: seq<Group<K>>) {
    forall i, j :: 0 <= i < j < |groups| ==> groups[i].key != groups[j].key
  }

  predicate AllPositive<K>(groups: seq<Group<K>>) {
    forall i :: 0 <= i < |groups| ==> groups[i].size > 0
  }

  /** The keys of a table with one more group in front. */
  lemma {:induction false} HasKeyCons<K>(g: Group<K>, gs: seq<Group<K>>)
    ensures forall x :: HasKey([g] + gs, x) <==> g.key == x || HasKey(gs, x)
  {
    var r := [g] + gs;
    forall x ensures HasKey(r, x) <==> g.key == x || HasKey(gs, x) {
      if HasKey(gs, x) {
        var m :| 0 <= m < |gs| && gs[m].key == x;
        assert r[m + 1].key == x;
      }
      if HasKey(r, x) && g.key != x {
        var m :| 0 <= m < |r| && r[m].key == x;
        assert gs[m - 1].key == x;
      }
      assert r[0] == g;
    }
  }

  /** A table with one more group in front has distinct keys exactly when
      the rest has and the new key is not among them. */
  lemma {:induction false} DistinctCons<K>(g: Group<K>, gs: seq<Group<K>>)
    ensures DistinctKeys([g] + gs) <==> !HasKey(gs, g.key) && DistinctKeys(gs)
  {
    var r := [g] + gs;
    if DistinctKeys(r) {
      forall m | 0 <= m < |gs| ensures gs[m].key != g.key {
        assert r[m + 1] == gs[m] && r[0] == g;
      }
      forall i, j | 0 <= i < j < |gs| ensures gs[i].key != gs[j].key {
        assert r[i + 1] == gs[i] && r[j + 1] == gs[j];
      }
    }
    if !HasKey(gs, g.key) && DistinctKeys(gs) {
      forall i, j | 0 <= i < j < |r| ensures r[i].key != r[j].key {
        if i == 0 {
          assert r[j] == gs[j - 1];
        } else {
          assert r[i] == gs[i - 1] && r[j] == gs[j - 1];
        }
      }
    }
  }

  lemma {:induction false} BumpSpec<K>(groups: seq<Group<K>>, k: K)
    requires DistinctKeys(groups) && AllPositive(groups)
    ensures var b := Bump(groups, k);
      && DistinctKeys(b) && AllPositive(b)
      && SumSizes(b) == SumSizes(groups) + 1
      && SizeOf(b, k) == SizeOf(groups, k) + 1
      && (forall x :: x != k ==> SizeOf(b, x) == SizeOf(groups, x))
      && (forall x :: HasKey(b, x) <==> x == k || HasKey(groups, x))
  {
    if groups == [] {
      HasKeyCons(Group(k, 1), []);
      DistinctCons(Group(k, 1), []);
      assert Bump(groups, k) == [Group(k, 1)] + [];
    } else {
      var g, rest := groups[0], groups[1..];
      assert groups == [g] + rest;
      DistinctCons(g, rest);
      HasKeyCons(g, rest);
      if g.key == k {
        var g' := Group(k, g.size + 1);
        DistinctCons(g', rest);
        HasKeyCons(g', rest);
      } else {
        var tail := Bump(rest, k);
        BumpSpec(rest, k);
        DistinctCons(g, tail);
        HasKeyCons(g, tail);
        var b := [g] + tail;
        assert b[1..] == tail;
      }
    }
  }

  /** What `groupby(...).size()` promises: one group per distinct key, every
      group non-empty and as large as the number of rows with its key, and so
      the sizes add up to the number of rows. */
  lemma {:induction false} GroupSizesSpec<K>(keys: seq<K>)
    ensures var g := GroupSizes(keys);
      && DistinctKeys(g) && AllPositive(g)
      && SumSizes(g) == |keys|
      && (forall x :: SizeOf(g, x) == multiset(keys)[x])
      && (forall x :: HasKey(g, x) <==> x in keys)
  {
    if keys != [] {
      var init, last := keys[..|keys| - 1], keys[|keys| - 1];
      GroupSizesSpec(init);
      BumpSpec(GroupSizes(init), last);
      assert keys == init + [last];
      assert multiset(keys) == multiset(init) + multiset{last};
    }
  }

  /** Within groups with distinct keys, looking a group's key up finds that
      group. */
  lemma {:induction false} SizeOfAt<K>(groups: seq<Group<K>>, i: nat)
    requires DistinctKeys(groups) && i < |groups|
    ensures SizeOf(groups, groups[i].key) == groups[i].size
  {
    if i > 0 {
      assert groups[0].key != groups[i].key;
      SizeOfAt(groups[1..], i - 1);
    }
  }

  /** A key without a group has size 0, and a group with a positive size is
      a group of the table. */
  lemma {:induction false} SizeOfAbsent<K>(groups: seq<Group<K>>, k: K)
    requires AllPositive(groups)
    ensures SizeOf(groups, k) > 0 <==> HasKey(groups, k)
  {
    if groups != [] {
      SizeOfAbsent(groups[1..], k);
      if HasKey(groups, k) && groups[0].key != k {
        var m :| 0 <= m < |groups| && groups[m].key == k;
        assert groups[1..][m - 1].key == k;
      }
      if HasKey(groups[1..], k) {
        var m :| 0 <= m < |groups[1..]| && groups[1..][m].key == k;
        assert groups[m + 1].key == k;
      }
    }
  }

  // ---------------------------------------------------------------------
  // sort_values
  // ---------------------------------------------------------------------

  /** The rows are in non-decreasing order of `f`. */
  predicate SortedBy<T>(xs: seq<T>, f: T -> int) {
    forall i, j :: 0 <= i < j < |xs| ==> f(xs[i]) <= f(xs[j])
  }

  /** Places `x` before the first row whose `f` is not below its own. */
  function InsertBy<T>(x: T, xs: seq<T>, f: T -> int): seq<T> {
    if xs == [] then [x]
    else if f(x) <= f(xs[0]) then [x] + xs
    else [xs[0]] + InsertBy(x, xs[1..], f)
  }

  /** `sort_values` ascending on the column `f`: insertion sort, which keeps
      rows with equal `f` in their input order. */
  function SortBy<T>(xs: seq<T>, f: T -> int): seq<T> {
    if xs == [] then [] else InsertBy(xs[0], SortBy(xs[1..], f), f)
  }

  /** Every row has `f` at least `lo`. */
  predicate AtLeast<T>(xs: seq<T>, f: T -> int, lo: int) {
    forall i :: 0 <= i < |xs| ==> lo <= f(xs[i])
  }

  lemma {:induction false} SortedCons<T>(x: T, xs: seq<T>, f: T -> int)
    ensures SortedBy([x] + xs, f) <==> AtLeast(xs, f, f(x)) && SortedBy(xs, f)
  {
    var r := [x] + xs;
    if SortedBy(r, f) {
      forall i | 0 <= i < |xs| ensures f(x) <= f(xs[i]) {
        assert r[0] == x && r[i + 1] == xs[i];
      }
      forall i, j | 0 <= i < j < |xs| ensures f(xs[i]) <= f(xs[j]) {
        assert r[i + 1] == xs[i] && r[j + 1] == xs[j];
      }
    }
  }

  lemma {:induction false} InsertByBound<T>(x: T, xs: seq<T>, f: T -> int, lo: int)
    requires AtLeast(xs, f, lo) && lo <= f(x)
    ensures AtLeast(InsertBy(x, xs, f), f, lo)
  {
    if xs != [] && f(x) > f(xs[0]) {
      InsertByBound(x, xs[1..], f, lo);
      var r := InsertBy(x, xs, f);
      assert r == [xs[0]] + InsertBy(x, xs[1..], f);
    }
  }

  lemma {:induction false} InsertBySpec<T>(x: T, xs: seq<T>, f: T -> int)
    requires SortedBy(xs, f)
    ensures SortedBy(InsertBy(x, xs, f), f)
    ensures multiset(InsertBy(x, xs, f)) == multiset(xs) + multiset{x}
  {
    if xs == [] {
    } else if f(x) <= f(xs[0]) {
      SortedCons(xs[0], xs[1..], f);
      assert xs == [xs[0]] + xs[1..];
      SortedCons(x, xs, f);
    } else {
      SortedCons(xs[0], xs[1..], f);
      assert xs == [xs[0]] + xs[1..];
      var tail := InsertBy(x, xs[1..], f);
      InsertBySpec(x, xs[1..], f);
      InsertByBound(x, xs[1..], f, f(xs[0]));
      SortedCons(xs[0], tail, f);
    }
  }

  /** `sort_values` returns the same rows, in non-decreasing order of the
      sort column. */
  lemma {:induction false} SortBySpec<T>(xs: seq<T>, f: T -> int)
    ensures SortedBy(SortBy(xs, f), f)
    ensures multiset(SortBy(xs, f)) == multiset(xs)
  {
    if xs != [] {
      SortBySpec(xs[1..], f);
      InsertBySpec(xs[0], SortBy(xs[1..], f), f);
      assert xs == [xs[0]] + xs[1..];
    }
  }

  lemma {:induction false} InsertByGroups<K>(x: Group<K>, xs: seq<Group<K>>, f: Group<K> -> int)
    requires DistinctKeys(xs) && !HasKey(xs, x.key)
    ensures DistinctKeys(InsertBy(x, xs, f))
    ensures forall k :: HasKey(InsertBy(x, xs, f), k) <==> k == x.key || HasKey(xs, k)
    ensures SumSizes(InsertBy(x, xs, f)) == x.size + SumSizes(xs)
  {
    if xs == [] {
      HasKeyCons(x, []);
      DistinctCons(x, []);
      assert InsertBy(x, xs, f) == [x] + [];
    } else if f(x) <= f(xs[0]) {
      HasKeyCons(x, xs);
      DistinctCons(x, xs);
    } else {
      var y, rest := xs[0], xs[1..];
      assert xs == [y] + rest;
      HasKeyCons(y, rest);
      DistinctCons(y, rest);
      var tail := InsertBy(x, rest, f);
      InsertByGroups(x, rest, f);
      HasKeyCons(y, tail);
      DistinctCons(y, tail);
      assert InsertBy(x, xs, f) == [y] + tail;
    }
  }

  /** Sorting groups keeps each key in one group and keeps the total. */
  lemma {:induction false} SortByGroups<K>(xs: seq<Group<K>>, f: Group<K> -> int)
    requires DistinctKeys(xs)
    ensures DistinctKeys(SortBy(xs, f))
    ensures forall k :: HasKey(SortBy(xs, f), k) <==> HasKey(xs, k)
    ensures SumSizes(SortBy(xs, f)) == SumSizes(xs)
  {
    if xs != [] {
      var y, rest := xs[0], xs[1..];
      assert xs == [y] + rest;
      HasKeyCons(y, rest);
      DistinctCons(y, rest);
      SortByGroups(rest, f);
      InsertByGroups(y, SortBy(rest, f), f);
    }
  }
}
