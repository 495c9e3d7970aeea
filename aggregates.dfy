/// The data tables behind the charts of the reference year: the annual
/// type x class counts (`acumulado_anual`, app.py:342-364), the monthly
/// counts with percentages (`acumulado_mensal`, app.py:398-432), the
/// month x class summary pivot (app.py:467-483) and the counts of
/// improcedent notes by regional unit or by reason
/// (`improcedencias_por_regional_am` and `motivos_improcedencia`,
/// app.py:493-549). Each function stops at the table handed to the plot.
module Aggregates {
  import opened Wrappers
  import opened Text
  import opened Order
  import opened Format
  import opened Frames
  import opened Columns
  import opened Dates
  import opened Classify
  import opened Selection

  // ---------------------------------------------------------------------
  // ACUMULADO ANUAL (app.py:342-364)
  // ---------------------------------------------------------------------

  /** The group key of the annual chart: (TIPO_NORM, CLASSE). */
  datatype TypeClass = TypeClass(kind: string, cls: Class)

  function AnnualKey(d: Dated): TypeClass {
    TypeClass(TypeNorm(d.rec.kind), ResultClass(d.rec.result))
  }

  function AnnualKeys(base: seq<Dated>): seq<TypeClass> {
    seq(|base|, i requires 0 <= i < |base| => AnnualKey(base[i]))
  }

  /** The TIPO_NORM column of the grouped table. */
  function KindsOf(counts: seq<Group<TypeClass>>): seq<string> {
    seq(|counts|, i requires 0 <= i < |counts| => counts[i].key.kind)
  }

  /** `ordem_tipo`: "AM" and "AS" in that order, those of them present;
      when neither is, every type present in sorted order. */
  function TypeOrder(types: seq<string>): seq<string> {
    var fixed := (if "AM" in types then ["AM"] else []) + (if "AS" in types then ["AS"] else []);
    if fixed != [] then fixed else SortedDistinct(types)
  }

  /** The type order lists each type at most once and in increasing order
      (so "AM" before "AS"); it holds "AM" and "AS" when present, and every
      other type only when neither of them is present. */
  lemma {:induction false} TypeOrderSpec(types: seq<string>)
    ensures StrictlySorted(TypeOrder(types))
    ensures forall t :: t in TypeOrder(types) <==>
      t in types && (t == "AM" || t == "AS" || ("AM" !in types && "AS" !in types))
  {
    var fixed := (if "AM" in types then ["AM"] else []) + (if "AS" in types then ["AS"] else []);
    if "AM" in types && "AS" in types {
      assert fixed == ["AM", "AS"];
      assert Less("AM", "AS") by {
        assert "AM"[0] == "AS"[0] && "AM"[1..] == "M" && "AS"[1..] == "S";
      }
    }
  }

  /** What `acumulado_anual` hands to the plot: the counts per (type, class)
      and the order of the type axis. */
  datatype AnnualView = AnnualView(counts: seq<Group<TypeClass>>, typeOrder: seq<string>)

  /** `acumulado_anual(df_base, ano)`; `None` when the year has no row. */
  function Annual(df: seq<Dated>, year: Year): Option<AnnualView> {
    var base := InYear(df, year);
    if base == [] then None
    else
      var counts := GroupSizes(AnnualKeys(base));
      Some(AnnualView(counts, TypeOrder(KindsOf(counts))))
  }

  /** Some row of the slice has type `t`. */
  predicate HasKind(keys: seq<TypeClass>, t: string) {
    exists i :: 0 <= i < |keys| && keys[i].kind == t
  }

  /** The TIPO_NORM column of the grouped table holds exactly the types of
      the rows that were grouped. */
  lemma {:induction false} KindsOfSpec(keys: seq<TypeClass>)
    ensures forall t :: t in KindsOf(GroupSizes(keys)) <==> HasKind(keys, t)
  {
    var counts := GroupSizes(keys);
    GroupSizesSpec(keys);
    forall t ensures t in KindsOf(counts) <==> HasKind(keys, t) {
      if t in KindsOf(counts) {
        var j :| 0 <= j < |counts| && KindsOf(counts)[j] == t;
        assert HasKey(counts, counts[j].key);
        var i :| 0 <= i < |keys| && keys[i] == counts[j].key;
      }
      if HasKind(keys, t) {
        var i :| 0 <= i < |keys| && keys[i].kind == t;
        assert keys[i] in keys;
        var j :| 0 <= j < |counts| && counts[j].key == keys[i];
        assert KindsOf(counts)[j] == t;
      }
    }
  }

  /** The annual table exists exactly when the year has a row. Its counts
      are one per (type, class) pair that occurs, each positive and equal to
      the number of the year's rows with that pair, and they add up to the
      number of the year's rows. The type axis is strictly increasing and
      lists "AM" and "AS" when a row of the year has them, and every other
      type of the year's rows only when neither of them occurs. */
  lemma {:induction false} AnnualSpec(df: seq<Dated>, year: Year)
    ensures Annual(df, year).None? <==> forall i :: 0 <= i < |df| ==> df[i].year != year
    ensures Annual(df, year).Some? ==>
      var v := Annual(df, year).value;
      var keys := AnnualKeys(InYear(df, year));
      && DistinctKeys(v.counts) && AllPositive(v.counts)
      && SumSizes(v.counts) == |InYear(df, year)|
      && (forall k :: SizeOf(v.counts, k) == multiset(keys)[k])
      && StrictlySorted(v.typeOrder)
      && (forall t :: t in v.typeOrder <==>
            HasKind(keys, t)
            && (t == "AM" || t == "AS" || (!HasKind(keys, "AM") && !HasKind(keys, "AS"))))
  {
    InYearSpec(df, year);
    var base := InYear(df, year);
    if base != [] {
      var keys := AnnualKeys(base);
      var counts := GroupSizes(keys);
      GroupSizesSpec(keys);
      KindsOfSpec(keys);
      TypeOrderSpec(KindsOf(counts));
    }
  }

  // ---------------------------------------------------------------------
  // ACUMULADO MENSAL (app.py:398-432)
  // ---------------------------------------------------------------------

  /** The group key of the monthly chart: (MES_NUM, MES_ANO_LABEL,
      TIPO_NORM, CLASSE). */
  datatype MonthKey = MonthKey(month: Month, monthYear: string, kind: string, cls: Class)

  /** The (MES_NUM, MES_ANO_LABEL, TIPO_NORM) a percentage is taken over. */
  datatype Slot = Slot(month: Month, monthYear: string, kind: string)

  function MonthlyKey(d: Dated): MonthKey {
    MonthKey(d.month, d.monthYear, TypeNorm(d.rec.kind), ResultClass(d.rec.result))
  }

  function MonthlyKeys(base: seq<Dated>): seq<MonthKey> {
    seq(|base|, i requires 0 <= i < |base| => MonthlyKey(base[i]))
  }

  function SlotOf(k: MonthKey): Slot {
    Slot(k.month, k.monthYear, k.kind)
  }

  /** `transform("sum")` over the groups of a slot: the sum of their
      counts. */
  function SlotTotal(groups: seq<Group<MonthKey>>, s: Slot): nat {
    if groups == [] then 0
    else (if SlotOf(groups[0].key) == s then groups[0].size else 0) + SlotTotal(groups[1..], s)
  }

  /** The number of rows of a slot. */
  function SlotCount(keys: seq<MonthKey>, s: Slot): nat {
    if keys == [] then 0
    else SlotCount(keys[..|keys| - 1], s) + (if SlotOf(keys[|keys| - 1]) == s then 1 else 0)
  }

  /** A group's slot total is at least its own count. */
  lemma {:induction false} SlotTotalCovers(groups: seq<Group<MonthKey>>, i: nat)
    requires i < |groups|
    ensures SlotTotal(groups, SlotOf(groups[i].key)) >= groups[i].size
  {
    if i > 0 {
      SlotTotalCovers(groups[1..], i - 1);
    }
  }

  lemma {:induction false} SlotTotalBump(groups: seq<Group<MonthKey>>, k: MonthKey, s: Slot)
    ensures SlotTotal(Bump(groups, k), s) == SlotTotal(groups, s) + (if SlotOf(k) == s then 1 else 0)
  {
    if groups != [] && groups[0].key != k {
      SlotTotalBump(groups[1..], k, s);
      assert Bump(groups, k)[1..] == Bump(groups[1..], k);
    } else if groups != [] {
      assert Bump(groups, k)[1..] == groups[1..];
    }
  }

  /** The total a percentage divides by is the number of the year's rows in
      its (month, label, type). */
  lemma {:induction false} SlotTotalCounts(keys: seq<MonthKey>, s: Slot)
    ensures SlotTotal(GroupSizes(keys), s) == SlotCount(keys, s)
  {
    if keys != [] {
      SlotTotalCounts(keys[..|keys| - 1], s);
      SlotTotalBump(GroupSizes(keys[..|keys| - 1]), keys[|keys| - 1], s);
    }
  }

  /** numpy's `round(0)` on the exact quotient `n / d`: to the nearest
      integer, a tie to the even one. */
  function RoundHalfEven(n: nat, d: nat): nat
    requires d > 0
  {
    var q, rem := n / d, n % d;
    if 2 * rem < d then q
    else if 2 * rem > d then q + 1
    else if q % 2 == 0 then q else q + 1
  }

  /** PCT: the count as a rounded percentage of its slot total. */
  function Pct(count: nat, total: nat): nat
    requires total > 0
  {
    RoundHalfEven(100 * count, total)
  }

  /** The rounding picks the integer nearest to `n / d`, and on a tie the
      even one. */
  lemma {:induction false} RoundHalfEvenSpec(n: nat, d: nat)
    requires d > 0
    ensures var r := RoundHalfEven(n, d);
      && 2 * (r * d - n) <= d && 2 * (n - r * d) <= d
      && (2 * (r * d - n) == d || 2 * (n - r * d) == d ==> r % 2 == 0)
  {
    var q, rem := n / d, n % d;
    assert n == q * d + rem;
    assert (q + 1) * d == q * d + d;
  }

  /** A share of a total is a percentage between 0 and 100. */
  lemma {:induction false} PctBounds(count: nat, total: nat)
    requires 0 < total && count <= total
    ensures Pct(count, total) <= 100
  {
    var n := 100 * count;
    var q, rem := n / total, n % total;
    assert n == q * total + rem;
    QuotientBound(q, total, rem, 100);
    if q == 100 {
      assert rem == 0;
    }
  }

  /** A quotient whose product with the divisor stays within `m` divisors
      is at most `m`. */
  lemma {:induction false} QuotientBound(q: nat, d: nat, rem: nat, m: nat)
    requires d > 0 && q * d + rem <= m * d
    ensures q <= m
  {
    assert (q - m) * d <= 0;
  }

  /** One row of the monthly table: the group, its count, PCT and the text
      shown on the bar. */
  datatype MonthlyRow = MonthlyRow(key: MonthKey, count: nat, pct: nat, text: string)

  /** The row of the `i`-th group: PCT over the group's slot total; LABEL
      "PCT%" for PROCEDENTE and "" otherwise. */
  function RowOf(groups: seq<Group<MonthKey>>, i: nat): MonthlyRow
    requires i < |groups| && AllPositive(groups)
  {
    var g := groups[i];
    SlotTotalCovers(groups, i);
    var pct := Pct(g.size, SlotTotal(groups, SlotOf(g.key)));
    MonthlyRow(g.key, g.size, pct, if g.key.cls == Procedente then Decimal(pct) + "%" else "")
  }

  function MonthlyRows(groups: seq<Group<MonthKey>>): seq<MonthlyRow>
    requires AllPositive(groups)
  {
    seq(|groups|, i requires 0 <= i < |groups| => RowOf(groups, i))
  }

  /** The month axis entry: (MES_NUM, MES_ANO_LABEL). */
  datatype MonthPair = MonthPair(month: Month, monthYear: string)

  function PairMonth(g: Group<MonthPair>): int {
    g.key.month
  }

  /** `drop_duplicates().sort_values("MES_NUM")` on the (month, label)
      pairs. */
  function MonthAxis(pairs: seq<MonthPair>): seq<Group<MonthPair>> {
    SortBy(GroupSizes(pairs), PairMonth)
  }

  function AxisLabels(axis: seq<Group<MonthPair>>): seq<string> {
    seq(|axis|, i requires 0 <= i < |axis| => axis[i].key.monthYear)
  }

  /** The month axis lists every (month, label) pair that occurs, once
      each, and in non-decreasing month order. */
  lemma {:induction false} MonthAxisSpec(pairs: seq<MonthPair>)
    ensures var axis := MonthAxis(pairs);
      && DistinctKeys(axis)
      && SortedBy(axis, PairMonth)
      && forall p :: HasKey(axis, p) <==> p in pairs
  {
    GroupSizesSpec(pairs);
    SortBySpec(GroupSizes(pairs), PairMonth);
    SortByGroups(GroupSizes(pairs), PairMonth);
  }

  function PairsOf(groups: seq<Group<MonthKey>>): seq<MonthPair> {
    seq(|groups|, i requires 0 <= i < |groups| => MonthPair(groups[i].key.month, groups[i].key.monthYear))
  }

  /** What `acumulado_mensal` hands to the plot: the rows and `ordem_mes`. */
  datatype MonthlyView = MonthlyView(rows: seq<MonthlyRow>, monthOrder: seq<string>)

  /** `acumulado_mensal(df_base, ano)`; `None` when the year has no row. */
  function Monthly(df: seq<Dated>, year: Year): Option<MonthlyView> {
    var base := InYear(df, year);
    if base == [] then None
    else
      var keys := MonthlyKeys(base);
      var groups := GroupSizes(keys);
      GroupSizesSpec(keys);
      Some(MonthlyView(MonthlyRows(groups), AxisLabels(MonthAxis(PairsOf(groups)))))
  }

  /** The `i`-th monthly row counts the rows of its group; its PCT is the
      count over the number of rows in its (month, label, type), rounded to
      the nearest integer (a tie to even), so it lies in 0..100; its text is
      PCT followed by "%" for PROCEDENTE and empty otherwise. */
  lemma {:induction false} MonthlyRowSpec(keys: seq<MonthKey>, i: nat)
    requires i < |GroupSizes(keys)|
    ensures AllPositive(GroupSizes(keys))
    ensures var r := RowOf(GroupSizes(keys), i);
      var t := SlotCount(keys, SlotOf(r.key));
      && r.key == GroupSizes(keys)[i].key
      && 0 < r.count == multiset(keys)[r.key] <= t
      && 2 * (r.pct * t - 100 * r.count) <= t && 2 * (100 * r.count - r.pct * t) <= t
      && r.pct <= 100
      && (r.key.cls == Procedente ==> r.text == Decimal(r.pct) + "%")
      && (r.key.cls != Procedente ==> r.text == "")
  {
    var groups := GroupSizes(keys);
    GroupSizesSpec(keys);
    var g := groups[i];
    SizeOfAt(groups, i);
    SlotTotalCovers(groups, i);
    SlotTotalCounts(keys, SlotOf(g.key));
    var t := SlotTotal(groups, SlotOf(g.key));
    RoundHalfEvenSpec(100 * g.size, t);
    PctBounds(g.size, t);
  }

  /** The sum of PCT over the rows of slot `s` from the `i`-th group on. */
  function SlotPctFrom(groups: seq<Group<MonthKey>>, s: Slot, i: nat): nat
    requires i <= |groups| && AllPositive(groups)
    decreases |groups| - i
  {
    if i == |groups| then 0
    else (if SlotOf(groups[i].key) == s then RowOf(groups, i).pct else 0) + SlotPctFrom(groups, s, i + 1)
  }

  /** The classes of the groups of slot `s` from the `i`-th group on. */
  function SlotClassesFrom(groups: seq<Group<MonthKey>>, s: Slot, i: nat): set<Class>
    requires i <= |groups|
    decreases |groups| - i
  {
    if i == |groups| then {}
    else (if SlotOf(groups[i].key) == s then {groups[i].key.cls} else {}) + SlotClassesFrom(groups, s, i + 1)
  }

  lemma {:induction false} SlotClassesWitness(groups: seq<Group<MonthKey>>, s: Slot, i: nat, c: Class)
    requires i <= |groups| && c in SlotClassesFrom(groups, s, i)
    ensures exists j :: i <= j < |groups| && SlotOf(groups[j].key) == s && groups[j].key.cls == c
    decreases |groups| - i
  {
    if !(SlotOf(groups[i].key) == s && groups[i].key.cls == c) {
      SlotClassesWitness(groups, s, i + 1, c);
    }
  }

  /** A group of slot `s` adds a class not seen in the later groups of the
      slot, the keys being distinct. */
  lemma {:induction false} SlotClassesStep(groups: seq<Group<MonthKey>>, s: Slot, i: nat)
    requires i < |groups| && DistinctKeys(groups) && SlotOf(groups[i].key) == s
    ensures |SlotClassesFrom(groups, s, i)| == |SlotClassesFrom(groups, s, i + 1)| + 1
  {
    var c := groups[i].key.cls;
    if c in SlotClassesFrom(groups, s, i + 1) {
      SlotClassesWitness(groups, s, i + 1, c);
      assert false;
    }
    assert SlotClassesFrom(groups, s, i) == {c} + SlotClassesFrom(groups, s, i + 1);
  }

  /** From the `i`-th group on, the PCTs of slot `s` differ from 100 times
      the slot's counts over its total `t` by at most half a point per
      class present. */
  lemma {:induction false} SlotPctError(groups: seq<Group<MonthKey>>, s: Slot, i: nat)
    requires i <= |groups| && AllPositive(groups) && DistinctKeys(groups)
    requires SlotTotal(groups, s) > 0
    ensures WithinHalfPoints(SlotPctFrom(groups, s, i), SlotTotal(groups[i..], s),
                             |SlotClassesFrom(groups, s, i)|, SlotTotal(groups, s))
    decreases |groups| - i
  {
    var t := SlotTotal(groups, s);
    if i < |groups| {
      SlotPctError(groups, s, i + 1);
      assert groups[i..][1..] == groups[i + 1..];
      var g := groups[i];
      var p, c, k := SlotPctFrom(groups, s, i + 1), SlotTotal(groups[i + 1..], s), |SlotClassesFrom(groups, s, i + 1)|;
      if SlotOf(g.key) == s {
        assert SlotTotal(groups[i..], s) == g.size + c;
        assert SlotPctFrom(groups, s, i) == RowOf(groups, i).pct + p;
        SlotClassesStep(groups, s, i);
        RowPctError(groups, i);
        ErrorStep(p, c, k, RowOf(groups, i).pct, g.size, t);
      } else {
        assert SlotTotal(groups[i..], s) == c;
        assert SlotPctFrom(groups, s, i) == p;
        assert SlotClassesFrom(groups, s, i) == SlotClassesFrom(groups, s, i + 1);
      }
    } else {
      assert groups[i..] == [];
    }
  }

  /** The PCTs of one (month, label, type) add up to 100 give or take
      rounding: a slot holds at most three classes, each PCT within half a
      point of its exact share. */
  lemma {:induction false} SlotPctSum(keys: seq<MonthKey>, s: Slot)
    requires SlotCount(keys, s) > 0
    ensures AllPositive(GroupSizes(keys))
    ensures 99 <= SlotPctFrom(GroupSizes(keys), s, 0) <= 101
  {
    var groups := GroupSizes(keys);
    GroupSizesSpec(keys);
    SlotTotalCounts(keys, s);
    var t := SlotTotal(groups, s);
    SlotPctError(groups, s, 0);
    assert groups[0..] == groups;
    var classes := SlotClassesFrom(groups, s, 0);
    forall c | c in classes ensures c in {Procedente, Improcedente, Outros} {
      match c
      case Procedente =>
      case Improcedente =>
      case Outros =>
    }
    SubsetSize(classes, {Procedente, Improcedente, Outros});
    PctSumBound(SlotPctFrom(groups, s, 0), |classes|, t);
  }

  /** An error of at most `k <= 3` half points around 100 leaves a sum
      between 99 and 101. */
  lemma PctSumBound(p: int, k: int, t: int)
    requires t > 0 && k <= 3 && WithinHalfPoints(p, t, k, t)
    ensures 99 <= p <= 101
  {
    assert 2 * (p * t - 100 * t) == (2 * (p - 100)) * t;
    assert 2 * (100 * t - p * t) == (2 * (100 - p)) * t;
    ScaledBound(2 * (p - 100), k, t);
    ScaledBound(2 * (100 - p), k, t);
  }

  /** The percentage sum `p` lies within `k` half points of 100 times
      the count `c` over the total `t`. */
  predicate WithinHalfPoints(p: int, c: int, k: int, t: int) {
    2 * (p * t - 100 * c) <= k * t && 2 * (100 * c - p * t) <= k * t
  }

  /** A row's PCT lies within half a point of its exact share. */
  lemma RowPctError(groups: seq<Group<MonthKey>>, i: nat)
    requires i < |groups| && AllPositive(groups)
    ensures WithinHalfPoints(RowOf(groups, i).pct, groups[i].size, 1, SlotTotal(groups, SlotOf(groups[i].key)))
  {
    var t := SlotTotal(groups, SlotOf(groups[i].key));
    SlotTotalCovers(groups, i);
    RoundHalfEvenSpec(100 * groups[i].size, t);
  }

  /** Adding one row's rounding error to the errors accumulated so far. */
  lemma ErrorStep(p: int, c: int, k: int, pct: int, size: int, t: int)
    requires WithinHalfPoints(p, c, k, t) && WithinHalfPoints(pct, size, 1, t)
    ensures WithinHalfPoints(pct + p, size + c, k + 1, t)
  {
    assert (pct + p) * t == pct * t + p * t;
    assert (k + 1) * t == k * t + t;
  }

  /** A subset is no larger than its superset. */
  lemma {:induction false} SubsetSize<T>(a: set<T>, b: set<T>)
    requires a <= b
    ensures |a| <= |b|
  {
    if a != {} {
      var x :| x in a;
      SubsetSize(a - {x}, b - {x});
    }
  }

  /** Dividing both sides of `x * t <= k * t` by a positive `t`. */
  lemma ScaledBound(x: int, k: int, t: int)
    requires t > 0 && x * t <= k * t
    ensures x <= k
  {
  }

  /** The monthly table exists exactly when the year has a row, and then
      has one row per group of the year's rows, each as `MonthlyRowSpec`
      describes. */
  lemma {:induction false} MonthlySpec(df: seq<Dated>, year: Year)
    ensures Monthly(df, year).None? <==> forall i :: 0 <= i < |df| ==> df[i].year != year
    ensures Monthly(df, year).Some? ==>
      var keys := MonthlyKeys(InYear(df, year));
      && AllPositive(GroupSizes(keys))
      && Monthly(df, year).value.rows == MonthlyRows(GroupSizes(keys))
      && DistinctKeys(GroupSizes(keys))
      && SumSizes(GroupSizes(keys)) == |InYear(df, year)|
  {
    InYearSpec(df, year);
    GroupSizesSpec(MonthlyKeys(InYear(df, year)));
  }

  /** The month axis built from the groups of `keys` lists each (month,
      label) pair of the keys once, in non-decreasing month order. */
  lemma {:induction false} MonthAxisOfKeys(keys: seq<MonthKey>)
    ensures var axis := MonthAxis(PairsOf(GroupSizes(keys)));
      && DistinctKeys(axis) && SortedBy(axis, PairMonth)
      && forall p :: HasKey(axis, p) <==>
           exists i :: 0 <= i < |keys| && keys[i].month == p.month && keys[i].monthYear == p.monthYear
  {
    var groups := GroupSizes(keys);
    GroupSizesSpec(keys);
    MonthAxisSpec(PairsOf(groups));
    forall p ensures p in PairsOf(groups) <==>
      exists i :: 0 <= i < |keys| && keys[i].month == p.month && keys[i].monthYear == p.monthYear
    {
      if p in PairsOf(groups) {
        var j :| 0 <= j < |groups| && PairsOf(groups)[j] == p;
        assert HasKey(groups, groups[j].key);
        var i :| 0 <= i < |keys| && keys[i] == groups[j].key;
      }
      if exists i :: 0 <= i < |keys| && keys[i].month == p.month && keys[i].monthYear == p.monthYear {
        var i :| 0 <= i < |keys| && keys[i].month == p.month && keys[i].monthYear == p.monthYear;
        assert keys[i] in keys;
        var j :| 0 <= j < |groups| && groups[j].key == keys[i];
        assert PairsOf(groups)[j] == p;
      }
    }
  }

  /** The month axis of the monthly chart lists the (month, label) pairs of
      the year's rows once each, in non-decreasing month order. */
  lemma {:induction false} MonthOrderSpec(df: seq<Dated>, year: Year)
    requires Monthly(df, year).Some?
    ensures var base := InYear(df, year);
      var axis := MonthAxis(PairsOf(GroupSizes(MonthlyKeys(base))));
      && Monthly(df, year).value.monthOrder == AxisLabels(axis)
      && DistinctKeys(axis) && SortedBy(axis, PairMonth)
      && forall p :: HasKey(axis, p) <==>
           exists i :: 0 <= i < |base| && base[i].month == p.month && base[i].monthYear == p.monthYear
  {
    var base := InYear(df, year);
    var keys := MonthlyKeys(base);
    MonthAxisOfKeys(keys);
    assert forall i :: 0 <= i < |base| ==> keys[i].month == base[i].month && keys[i].monthYear == base[i].monthYear;
  }

  // ---------------------------------------------------------------------
  // Summary pivot (app.py:467-483)
  // ---------------------------------------------------------------------

  /** The group key of the summary table: (MES_NUM, MES_ANO_LABEL, CLASSE). */
  datatype SummaryKey = SummaryKey(month: Month, monthYear: string, cls: Class)

  function SummaryKeyOf(d: Dated): SummaryKey {
    SummaryKey(d.month, d.monthYear, ResultClass(d.rec.result))
  }

  function SummaryKeys(base: seq<Dated>): seq<SummaryKey> {
    seq(|base|, i requires 0 <= i < |base| => SummaryKeyOf(base[i]))
  }

  predicate HasClass(groups: seq<Group<SummaryKey>>, c: Class) {
    exists i :: 0 <= i < |groups| && groups[i].key.cls == c
  }

  /** The pivot's columns: the classes that occur, in the sorted order of
      their names. */
  function PivotColumns(groups: seq<Group<SummaryKey>>): seq<Class> {
    ColumnOf(groups, Improcedente) + ColumnOf(groups, Outros) + ColumnOf(groups, Procedente)
  }

  /** The column of class `c`, present when some group has that class. */
  function ColumnOf(groups: seq<Group<SummaryKey>>, c: Class): seq<Class> {
    if HasClass(groups, c) then [c] else []
  }

  /** One line of the summary: the month label, a count per pivot column
      (0 where the month has none of that class) and TOTAL. */
  datatype SummaryRow = SummaryRow(monthYear: string, cells: seq<nat>, total: int)

  datatype Summary = Summary(columns: seq<Class>, rows: seq<SummaryRow>)

  function Sum(xs: seq<nat>): nat {
    if xs == [] then 0 else xs[0] + Sum(xs[1..])
  }

  function Cells(groups: seq<Group<SummaryKey>>, p: MonthPair, columns: seq<Class>): seq<nat> {
    seq(|columns|, j requires 0 <= j < |columns| => SizeOf(groups, SummaryKey(p.month, p.monthYear, columns[j])))
  }

  function SummaryPairs(groups: seq<Group<SummaryKey>>): seq<MonthPair> {
    seq(|groups|, i requires 0 <= i < |groups| => MonthPair(groups[i].key.month, groups[i].key.monthYear))
  }

  /** A summary line as the source computes it: TOTAL is the row sum over
      every numeric column, and MES_NUM is still one of them. */
  function SummaryRowAsWritten(groups: seq<Group<SummaryKey>>, p: MonthPair, columns: seq<Class>): SummaryRow {
    var cells := Cells(groups, p, columns);
    SummaryRow(p.monthYear, cells, p.month + Sum(cells))
  }

  /** A summary line with TOTAL summing the class columns only. */
  function SummaryRowCorrected(groups: seq<Group<SummaryKey>>, p: MonthPair, columns: seq<Class>): SummaryRow {
    var cells := Cells(groups, p, columns);
    SummaryRow(p.monthYear, cells, Sum(cells))
  }

  /** The pivot of the year's keys as the source computes it. */
  function PivotAsWritten(keys: seq<SummaryKey>): Summary {
    var groups := GroupSizes(keys);
    var columns := PivotColumns(groups);
    var axis := MonthAxis(SummaryPairs(groups));
    Summary(columns, seq(|axis|, i requires 0 <= i < |axis| =>
      SummaryRowAsWritten(groups, axis[i].key, columns)))
  }

  /** The pivot of the year's keys with TOTAL counting the month's notes. */
  function Pivot(keys: seq<SummaryKey>): Summary {
    var groups := GroupSizes(keys);
    var columns := PivotColumns(groups);
    var axis := MonthAxis(SummaryPairs(groups));
    Summary(columns, seq(|axis|, i requires 0 <= i < |axis| =>
      SummaryRowCorrected(groups, axis[i].key, columns)))
  }

  function SummaryAsWritten(df: seq<Dated>, year: Year): Option<Summary> {
    var base := InYear(df, year);
    if base == [] then None else Some(PivotAsWritten(SummaryKeys(base)))
  }

  /** The summary table the page shows (`None` when the year has no row),
      with TOTAL counting the month's notes. */
  function SummaryTable(df: seq<Dated>, year: Year): Option<Summary> {
    var base := InYear(df, year);
    if base == [] then None else Some(Pivot(SummaryKeys(base)))
  }

  /** The number of rows of a (month, label) pair, whatever their class. */
  function PairCount(keys: seq<SummaryKey>, p: MonthPair): nat {
    if keys == [] then 0
    else
      var k := keys[|keys| - 1];
      PairCount(keys[..|keys| - 1], p) + (if k.month == p.month && k.monthYear == p.monthYear then 1 else 0)
  }

  /** The three classes' counts of a pair add up to the pair's rows. */
  lemma {:induction false} PairCountByClass(keys: seq<SummaryKey>, p: MonthPair)
    ensures PairCount(keys, p) ==
      multiset(keys)[SummaryKey(p.month, p.monthYear, Improcedente)]
      + multiset(keys)[SummaryKey(p.month, p.monthYear, Outros)]
      + multiset(keys)[SummaryKey(p.month, p.monthYear, Procedente)]
  {
    if keys != [] {
      var init, k := keys[..|keys| - 1], keys[|keys| - 1];
      PairCountByClass(init, p);
      assert keys == init + [k];
      assert multiset(keys) == multiset(init) + multiset{k};
      var ki := SummaryKey(p.month, p.monthYear, Improcedente);
      var ko := SummaryKey(p.month, p.monthYear, Outros);
      var kp := SummaryKey(p.month, p.monthYear, Procedente);
      assert multiset(keys)[ki] == multiset(init)[ki] + (if k == ki then 1 else 0);
      assert multiset(keys)[ko] == multiset(init)[ko] + (if k == ko then 1 else 0);
      assert multiset(keys)[kp] == multiset(init)[kp] + (if k == kp then 1 else 0);
      if k.month == p.month && k.monthYear == p.monthYear {
        assert k == SummaryKey(p.month, p.monthYear, k.cls);
        assert k.cls == Improcedente || k.cls == Outros || k.cls == Procedente;
      } else {
        assert k != ki && k != ko && k != kp;
      }
    }
  }

  /** A class missing from the year contributes nothing to any month. */
  lemma {:induction false} AbsentClassIsZero(keys: seq<SummaryKey>, p: MonthPair, c: Class)
    requires !HasClass(GroupSizes(keys), c)
    ensures multiset(keys)[SummaryKey(p.month, p.monthYear, c)] == 0
  {
    GroupSizesSpec(keys);
    var groups := GroupSizes(keys);
    var k := SummaryKey(p.month, p.monthYear, c);
    forall j | 0 <= j < |groups| ensures groups[j].key != k {
      assert groups[j].key.cls != c;
    }
    assert !HasKey(groups, k);
  }

  lemma CellsAppend(groups: seq<Group<SummaryKey>>, p: MonthPair, a: seq<Class>, b: seq<Class>)
    ensures Cells(groups, p, a + b) == Cells(groups, p, a) + Cells(groups, p, b)
  {
  }

  /** The cell of one class column is the class's count in the month, and a
      class absent from the year has no cell and counts 0. */
  lemma {:induction false} ColumnCellSum(keys: seq<SummaryKey>, p: MonthPair, c: Class)
    ensures var groups := GroupSizes(keys);
      Sum(Cells(groups, p, ColumnOf(groups, c))) == multiset(keys)[SummaryKey(p.month, p.monthYear, c)]
  {
    var groups := GroupSizes(keys);
    if HasClass(groups, c) {
      GroupSizesSpec(keys);
      assert Cells(groups, p, [c]) == [SizeOf(groups, SummaryKey(p.month, p.monthYear, c))];
    } else {
      AbsentClassIsZero(keys, p, c);
    }
  }

  /** The class cells of a month add up to the number of the year's notes in
      that month: every class present has its count, a class absent from
      the year counts 0. */
  lemma {:induction false} SummaryCellsCount(keys: seq<SummaryKey>, p: MonthPair)
    ensures var groups := GroupSizes(keys);
      Sum(Cells(groups, p, PivotColumns(groups))) == PairCount(keys, p)
  {
    PairCountByClass(keys, p);
    var groups := GroupSizes(keys);
    var ci, co, cp := ColumnOf(groups, Improcedente), ColumnOf(groups, Outros), ColumnOf(groups, Procedente);
    CellsAppend(groups, p, ci + co, cp);
    CellsAppend(groups, p, ci, co);
    SumAppend(Cells(groups, p, ci) + Cells(groups, p, co), Cells(groups, p, cp));
    SumAppend(Cells(groups, p, ci), Cells(groups, p, co));
    ColumnCellSum(keys, p, Improcedente);
    ColumnCellSum(keys, p, Outros);
    ColumnCellSum(keys, p, Procedente);
  }

  lemma {:induction false} SumAppend(a: seq<nat>, b: seq<nat>)
    ensures Sum(a + b) == Sum(a) + Sum(b)
  {
    if a == [] {
      assert a + b == b;
    } else {
      assert (a + b)[1..] == a[1..] + b;
      SumAppend(a[1..], b);
    }
  }

  /** The pivot's columns are exactly the classes of the keys. */
  lemma {:induction false} PivotColumnsSpec(keys: seq<SummaryKey>)
    ensures forall c :: c in PivotColumns(GroupSizes(keys)) <==> exists i :: 0 <= i < |keys| && keys[i].cls == c
  {
    var groups := GroupSizes(keys);
    GroupSizesSpec(keys);
    forall c ensures HasClass(groups, c) <==> exists i :: 0 <= i < |keys| && keys[i].cls == c {
      if HasClass(groups, c) {
        var j :| 0 <= j < |groups| && groups[j].key.cls == c;
        assert HasKey(groups, groups[j].key);
        var i :| 0 <= i < |keys| && keys[i] == groups[j].key;
      }
      if exists i :: 0 <= i < |keys| && keys[i].cls == c {
        var i :| 0 <= i < |keys| && keys[i].cls == c;
        assert keys[i] in keys;
        var j :| 0 <= j < |groups| && groups[j].key == keys[i];
      }
    }
  }

  /** The names the pivot's columns are stored under. */
  function ColumnNames(cols: seq<Class>): seq<string> {
    seq(|cols|, i requires 0 <= i < |cols| => cols[i].Name())
  }

  /** `pivot_table` sorts its columns: the column names are strictly
      increasing. */
  lemma {:induction false} PivotColumnsSorted(groups: seq<Group<SummaryKey>>)
    ensures StrictlySorted(ColumnNames(PivotColumns(groups)))
  {
    var names := ColumnNames(PivotColumns(groups));
    assert Less("IMPROCEDENTE", "OUTROS") by { assert "IMPROCEDENTE"[0] == 'I' && "OUTROS"[0] == 'O'; }
    assert Less("OUTROS", "PROCEDENTE") by { assert "OUTROS"[0] == 'O' && "PROCEDENTE"[0] == 'P'; }
    LessTransitive("IMPROCEDENTE", "OUTROS", "PROCEDENTE");
    forall i, j | 0 <= i < j < |names| ensures Less(names[i], names[j]) {
      assert names[i] == PivotColumns(groups)[i].Name();
    }
  }

  /** The summary's month axis lists each (month, label) pair of the keys
      once, in non-decreasing month order. */
  lemma {:induction false} SummaryAxisOfKeys(keys: seq<SummaryKey>)
    ensures var axis := MonthAxis(SummaryPairs(GroupSizes(keys)));
      && DistinctKeys(axis) && SortedBy(axis, PairMonth)
      && forall p :: HasKey(axis, p) <==>
           exists i :: 0 <= i < |keys| && keys[i].month == p.month && keys[i].monthYear == p.monthYear
  {
    var groups := GroupSizes(keys);
    GroupSizesSpec(keys);
    MonthAxisSpec(SummaryPairs(groups));
    forall p ensures p in SummaryPairs(groups) <==>
      exists i :: 0 <= i < |keys| && keys[i].month == p.month && keys[i].monthYear == p.monthYear
    {
      if p in SummaryPairs(groups) {
        var j :| 0 <= j < |groups| && SummaryPairs(groups)[j] == p;
        assert HasKey(groups, groups[j].key);
        var i :| 0 <= i < |keys| && keys[i] == groups[j].key;
      }
      if exists i :: 0 <= i < |keys| && keys[i].month == p.month && keys[i].monthYear == p.monthYear {
        var i :| 0 <= i < |keys| && keys[i].month == p.month && keys[i].monthYear == p.monthYear;
        assert keys[i] in keys;
        var j :| 0 <= j < |groups| && groups[j].key == keys[i];
        assert SummaryPairs(groups)[j] == p;
      }
    }
  }

  /** Every cell of the pivot, with zero fill, is the number of keys of its
      month and class. */
  lemma {:induction false} CellsCount(keys: seq<SummaryKey>, p: MonthPair)
    ensures var groups := GroupSizes(keys);
      var cells := Cells(groups, p, PivotColumns(groups));
      forall j :: 0 <= j < |cells| ==>
        cells[j] == multiset(keys)[SummaryKey(p.month, p.monthYear, PivotColumns(groups)[j])]
  {
    GroupSizesSpec(keys);
  }

  /** The pivot of the year's keys has one line per (month, label) of the
      keys, once each, in non-decreasing month order; its columns are the
      classes that occur; each cell counts the keys of its month and class
      (0 where there are none); TOTAL is the number of notes of its month. */
  lemma {:induction false} PivotSpec(keys: seq<SummaryKey>)
    ensures var s := Pivot(keys);
      var axis := MonthAxis(SummaryPairs(GroupSizes(keys)));
      && |s.rows| == |axis|
      && DistinctKeys(axis) && SortedBy(axis, PairMonth)
      && (forall p :: HasKey(axis, p) <==>
            exists i :: 0 <= i < |keys| && keys[i].month == p.month && keys[i].monthYear == p.monthYear)
      && (forall c :: c in s.columns <==> exists i :: 0 <= i < |keys| && keys[i].cls == c)
      && (forall i :: 0 <= i < |s.rows| ==>
            && s.rows[i].monthYear == axis[i].key.monthYear
            && |s.rows[i].cells| == |s.columns|
            && (forall j :: 0 <= j < |s.columns| ==>
                  s.rows[i].cells[j] == multiset(keys)[SummaryKey(axis[i].key.month, axis[i].key.monthYear, s.columns[j])])
            && s.rows[i].total == PairCount(keys, axis[i].key))
  {
    var groups := GroupSizes(keys);
    SummaryAxisOfKeys(keys);
    PivotColumnsSpec(keys);
    var axis := MonthAxis(SummaryPairs(groups));
    forall i | 0 <= i < |axis|
      ensures Sum(Cells(groups, axis[i].key, PivotColumns(groups))) == PairCount(keys, axis[i].key)
      ensures var cells := Cells(groups, axis[i].key, PivotColumns(groups));
        forall j :: 0 <= j < |cells| ==>
          cells[j] == multiset(keys)[SummaryKey(axis[i].key.month, axis[i].key.monthYear, PivotColumns(groups)[j])]
    {
      SummaryCellsCount(keys, axis[i].key);
      CellsCount(keys, axis[i].key);
    }
  }

  /** The corrected summary exists exactly when the year has a row, and is
      then the pivot of the year's keys that `PivotSpec` describes. */
  lemma {:induction false} SummaryTableSpec(df: seq<Dated>, year: Year)
    ensures SummaryTable(df, year).None? <==> forall i :: 0 <= i < |df| ==> df[i].year != year
    ensures SummaryTable(df, year).Some? ==>
      var s := SummaryTable(df, year).value;
      var keys := SummaryKeys(InYear(df, year));
      var axis := MonthAxis(SummaryPairs(GroupSizes(keys)));
      && |s.rows| == |axis|
      && DistinctKeys(axis) && SortedBy(axis, PairMonth)
      && (forall p :: HasKey(axis, p) <==>
            exists i :: 0 <= i < |keys| && keys[i].month == p.month && keys[i].monthYear == p.monthYear)
      && (forall c :: c in s.columns <==> exists i :: 0 <= i < |keys| && keys[i].cls == c)
      && (forall i :: 0 <= i < |s.rows| ==>
            && s.rows[i].monthYear == axis[i].key.monthYear
            && |s.rows[i].cells| == |s.columns|
            && (forall j :: 0 <= j < |s.columns| ==>
                  s.rows[i].cells[j] == multiset(keys)[SummaryKey(axis[i].key.month, axis[i].key.monthYear, s.columns[j])])
            && s.rows[i].total == PairCount(keys, axis[i].key))
  {
    InYearSpec(df, year);
    PivotSpec(SummaryKeys(InYear(df, year)));
  }

  /** As written, each line's TOTAL is the month's note count plus its
      month number, and the class cells are those of the corrected pivot. */
  lemma {:induction false} PivotAsWrittenSpec(keys: seq<SummaryKey>)
    ensures var written := PivotAsWritten(keys);
      var meant := Pivot(keys);
      var axis := MonthAxis(SummaryPairs(GroupSizes(keys)));
      && |written.rows| == |meant.rows| == |axis|
      && written.columns == meant.columns
      && forall i :: 0 <= i < |written.rows| ==>
           && written.rows[i].cells == meant.rows[i].cells
           && written.rows[i].total == PairCount(keys, axis[i].key) + axis[i].key.month
  {
    PivotSpec(keys);
  }

  /** As written, TOTAL overstates every line of the page's summary by its
      month number, so it exceeds the month's note count. */
  lemma {:induction false} SummaryTotalOverstates(df: seq<Dated>, year: Year)
    requires SummaryAsWritten(df, year).Some?
    ensures var written := SummaryAsWritten(df, year).value;
      var meant := SummaryTable(df, year).value;
      && |written.rows| == |meant.rows|
      && forall i :: 0 <= i < |written.rows| ==>
           written.rows[i].total > meant.rows[i].total
           && written.rows[i].cells == meant.rows[i].cells
  {
    PivotAsWrittenSpec(SummaryKeys(InYear(df, year)));
  }

  /** The summary the page shows exists exactly when the year has a row.
      It then has one line per (month, label) of the year's rows, once
      each, in non-decreasing month order; its columns are the classes that
      occur; each cell counts the year's notes of its month and class (0
      where there are none); and TOTAL, as app.py computes it, is the
      month's note count plus its month number. */
  lemma {:induction false} SummaryAsWrittenSpec(df: seq<Dated>, year: Year)
    ensures SummaryAsWritten(df, year).None? <==> forall i :: 0 <= i < |df| ==> df[i].year != year
    ensures SummaryAsWritten(df, year).Some? ==>
      var s := SummaryAsWritten(df, year).value;
      var keys := SummaryKeys(InYear(df, year));
      var axis := MonthAxis(SummaryPairs(GroupSizes(keys)));
      && |s.rows| == |axis|
      && DistinctKeys(axis) && SortedBy(axis, PairMonth)
      && (forall p :: HasKey(axis, p) <==>
            exists i :: 0 <= i < |keys| && keys[i].month == p.month && keys[i].monthYear == p.monthYear)
      && (forall c :: c in s.columns <==> exists i :: 0 <= i < |keys| && keys[i].cls == c)
      && (forall i :: 0 <= i < |s.rows| ==>
            && s.rows[i].monthYear == axis[i].key.monthYear
            && |s.rows[i].cells| == |s.columns|
            && (forall j :: 0 <= j < |s.columns| ==>
                  s.rows[i].cells[j] == multiset(keys)[SummaryKey(axis[i].key.month, axis[i].key.monthYear, s.columns[j])])
            && s.rows[i].total == PairCount(keys, axis[i].key) + axis[i].key.month)
  {
    InYearSpec(df, year);
    var keys := SummaryKeys(InYear(df, year));
    PivotSpec(keys);
    PivotAsWrittenSpec(keys);
  }

  /** One PROCEDENTE note in January: the source's TOTAL reads 2, the
      month's note count is 1. */
  lemma {:induction false} SummaryJanuaryExample()
    ensures var keys := [SummaryKey(1, "JAN/2024", Procedente)];
      && |PivotAsWritten(keys).rows| == 1 && PivotAsWritten(keys).rows[0].total == 2
      && |Pivot(keys).rows| == 1 && Pivot(keys).rows[0].total == 1
  {
    var k := SummaryKey(1, "JAN/2024", Procedente);
    var keys := [k];
    assert keys[..0] == [] && keys[|keys| - 1] == k;
    assert GroupSizes(keys) == Bump(GroupSizes(keys[..0]), k) == Bump([], k);
    var groups := GroupSizes(keys);
    assert groups == [Group(k, 1)];
    assert groups[0].key.cls == Procedente;
    assert HasClass(groups, Procedente);
    assert !HasClass(groups, Improcedente) && !HasClass(groups, Outros);
    assert PivotColumns(groups) == [Procedente];
    var pr := MonthPair(1, "JAN/2024");
    assert SummaryPairs(groups) == [pr];
    assert [pr][..0] == [] && [pr][|[pr]| - 1] == pr;
    assert GroupSizes([pr]) == Bump(GroupSizes([pr][..0]), pr) == Bump([], pr);
    assert GroupSizes([pr]) == [Group(pr, 1)];
    assert SortBy([Group(pr, 1)], PairMonth) == [Group(pr, 1)];
    assert MonthAxis(SummaryPairs(groups)) == [Group(pr, 1)];
    assert SizeOf(groups, k) == 1;
    assert Cells(groups, pr, [Procedente]) == [1];
    assert Sum([1]) == 1;
  }

  // ---------------------------------------------------------------------
  // Improcedent slices (app.py:493-549)
  // ---------------------------------------------------------------------

  /** Which optional column a slice groups by. */
  datatype SliceBy = ByRegional | ByReason

  function SliceCell(grouping: SliceBy, r: Record): Cell {
    match grouping
    case ByRegional => r.regional
    case ByReason => r.reason
  }

  /** The rows of the target type that were judged improcedent. */
  function Improcedent(df: seq<Dated>, target: string): seq<Dated> {
    Where(Where(df, Mask(KindHas(target))), Mask(ResultHas("IMPROCED")))
  }

  /** The raw group values of the rows; `groupby` drops missing ones. */
  function SliceKeys(base: seq<Dated>, grouping: SliceBy): seq<string> {
    if base == [] then []
    else
      var c := SliceCell(grouping, base[0].rec);
      (if c.Text? then [c.s] else []) + SliceKeys(base[1..], grouping)
  }

  lemma {:induction false} SliceKeysMembers(base: seq<Dated>, grouping: SliceBy)
    ensures forall k :: k in SliceKeys(base, grouping) <==>
      exists i :: 0 <= i < |base| && SliceCell(grouping, base[i].rec) == Text(k)
  {
    if base != [] {
      SliceKeysMembers(base[1..], grouping);
      forall k ensures k in SliceKeys(base, grouping) <==>
        exists i :: 0 <= i < |base| && SliceCell(grouping, base[i].rec) == Text(k)
      {
        if exists i :: 0 <= i < |base| && SliceCell(grouping, base[i].rec) == Text(k) {
          var i :| 0 <= i < |base| && SliceCell(grouping, base[i].rec) == Text(k);
          if i > 0 {
            assert base[1..][i - 1] == base[i];
          }
        }
        if k in SliceKeys(base[1..], grouping) {
          var i :| 0 <= i < |base[1..]| && SliceCell(grouping, base[1..][i].rec) == Text(k);
          assert base[i + 1] == base[1..][i];
        }
      }
    }
  }

  function GroupSize(g: Group<string>): int {
    g.size
  }

  /** `improcedencias_por_regional_am` (target "AM", by regional) and
      `motivos_improcedencia` (by reason): `None` when the column is absent
      or no row of the target type is improcedent, otherwise the count per
      value, sorted by count ascending. */
  function ImprocedentBy(df: seq<Dated>, columnPresent: bool, target: string, grouping: SliceBy)
    : Option<seq<Group<string>>>
  {
    if !columnPresent then None
    else
      var base := Improcedent(df, target);
      if base == [] then None
      else Some(SortBy(GroupSizes(SliceKeys(base, grouping)), GroupSize))
  }

  /** A row is improcedent for a target exactly when its type holds the
      target and its result holds "IMPROCED". */
  lemma {:induction false} ImprocedentMembers(df: seq<Dated>, target: string)
    ensures forall d :: d in Improcedent(df, target) <==>
      d in df && SafeContains(d.rec.kind, target) && SafeContains(d.rec.result, "IMPROCED")
  {
    WhereMembers(df, Mask(KindHas(target)));
    WhereMembers(Where(df, Mask(KindHas(target))), Mask(ResultHas("IMPROCED")));
  }

  lemma {:induction false} ImprocedentEmpty(df: seq<Dated>, target: string)
    ensures Improcedent(df, target) == [] <==> forall i :: 0 <= i < |df| ==>
      !(SafeContains(df[i].rec.kind, target) && SafeContains(df[i].rec.result, "IMPROCED"))
  {
    ImprocedentMembers(df, target);
    var base := Improcedent(df, target);
    if base != [] {
      assert base[0] in base;
    } else {
      forall i | 0 <= i < |df|
        ensures !(SafeContains(df[i].rec.kind, target) && SafeContains(df[i].rec.result, "IMPROCED"))
      {
        assert df[i] !in base;
      }
    }
  }

  /** Counting values and sorting the counts ascending gives one group per
      value, each counting its value, in non-decreasing count order, the
      counts adding up to the number of values. */
  lemma {:induction false} SortedCountsSpec(keys: seq<string>)
    ensures var groups := SortBy(GroupSizes(keys), GroupSize);
      && SortedBy(groups, GroupSize)
      && DistinctKeys(groups)
      && SumSizes(groups) == |keys|
      && (forall i :: 0 <= i < |groups| ==> 0 < groups[i].size == multiset(keys)[groups[i].key])
      && (forall k :: HasKey(groups, k) <==> k in keys)
  {
    var grouped := GroupSizes(keys);
    var groups := SortBy(grouped, GroupSize);
    GroupSizesSpec(keys);
    SortBySpec(grouped, GroupSize);
    SortByGroups(grouped, GroupSize);
    forall i | 0 <= i < |groups| ensures 0 < groups[i].size == multiset(keys)[groups[i].key] {
      assert groups[i] in multiset(groups);
      assert groups[i] in grouped;
      var j :| 0 <= j < |grouped| && grouped[j] == groups[i];
      SizeOfAt(grouped, j);
    }
  }

  /** A slice is missing exactly when its column is absent or no row has a
      type holding the target and a result holding "IMPROCED". Otherwise it
      has one group per value found among those rows, each counting the rows
      with that value, in non-decreasing count order; the counts add up to
      the matching rows with a value in the column. */
  lemma {:induction false} ImprocedentBySpec(df: seq<Dated>, columnPresent: bool, target: string, grouping: SliceBy)
    ensures ImprocedentBy(df, columnPresent, target, grouping).None? <==>
      !columnPresent || forall i :: 0 <= i < |df| ==>
        !(SafeContains(df[i].rec.kind, target) && SafeContains(df[i].rec.result, "IMPROCED"))
    ensures ImprocedentBy(df, columnPresent, target, grouping).Some? ==>
      var groups := ImprocedentBy(df, columnPresent, target, grouping).value;
      var keys := SliceKeys(Improcedent(df, target), grouping);
      && SortedBy(groups, GroupSize)
      && DistinctKeys(groups)
      && SumSizes(groups) == |keys|
      && (forall i :: 0 <= i < |groups| ==> 0 < groups[i].size == multiset(keys)[groups[i].key])
      && (forall k :: HasKey(groups, k) <==> k in keys)
  {
    ImprocedentEmpty(df, target);
    SortedCountsSpec(SliceKeys(Improcedent(df, target), grouping));
  }
}
