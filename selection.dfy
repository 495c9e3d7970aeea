/// Row selection: the boolean masks the page filters the table with, the
/// list of selectable states and the state filter (app.py:284-300), the
/// AM/AS split (app.py:305-306), the reference year and the year's KPIs
/// (app.py:314-319).
module Selection {
  import opened Wrappers
  import opened Text
  import opened Order
  import opened Columns
  import opened Dates
  import opened Frames

  /** The conditions the source builds its boolean masks from. */
  datatype Cond =
    | StateIs(selected: string)
    | KindHas(pattern: string)
    | ResultHas(pattern: string)
    | YearIs(year: Year)

  /** Whether a row passes a mask: `norm_str(state) == selected`,
      `safe_contains` on the type or on the result, `ANO == year`. */
  predicate Holds(c: Cond, d: Dated) {
    match c
    case StateIs(selected) => NormCell(d.rec.state) == selected
    case KindHas(pattern) => SafeContains(d.rec.kind, pattern)
    case ResultHas(pattern) => SafeContains(d.rec.result, pattern)
    case YearIs(year) => d.year == year
  }

  /** The mask of a condition, as a function on rows. */
  function Mask(c: Cond): Dated -> bool {
    d => Holds(c, d)
  }

  // ---------------------------------------------------------------------
  // State selection (app.py:284-300)
  // ---------------------------------------------------------------------

  /** `df[state].dropna().astype(str).str.upper().str.strip()`. */
  function StateValues(df: seq<Dated>): seq<string> {
    if df == [] then []
    else (if df[0].rec.state.Text? then [Norm(df[0].rec.state.s)] else []) + StateValues(df[1..])
  }

  /** The buttons of the state bar: "TOTAL", then the distinct normalised
      states in sorted order. */
  function StateOptions(df: seq<Dated>): seq<string> {
    ["TOTAL"] + SortedDistinct(StateValues(df))
  }

  lemma {:induction false} StateValuesMembers(df: seq<Dated>)
    ensures forall s :: s in StateValues(df) <==>
      exists i :: 0 <= i < |df| && df[i].rec.state.Text? && Norm(df[i].rec.state.s) == s
  {
    if df != [] {
      StateValuesMembers(df[1..]);
      forall s ensures s in StateValues(df) <==>
        exists i :: 0 <= i < |df| && df[i].rec.state.Text? && Norm(df[i].rec.state.s) == s
      {
        if s in StateValues(df[1..]) {
          var i :| 0 <= i < |df[1..]| && df[1..][i].rec.state.Text? && Norm(df[1..][i].rec.state.s) == s;
          assert df[i + 1] == df[1..][i];
        }
        if exists i :: 0 <= i < |df| && df[i].rec.state.Text? && Norm(df[i].rec.state.s) == s {
          var i :| 0 <= i < |df| && df[i].rec.state.Text? && Norm(df[i].rec.state.s) == s;
          if i > 0 {
            assert df[1..][i - 1] == df[i];
          }
        }
      }
    }
  }

  /** The options start with "TOTAL", followed by every normalised state
      that occurs, once each, in increasing order, and nothing else. */
  lemma {:induction false} StateOptionsSpec(df: seq<Dated>)
    ensures var opts := StateOptions(df);
      && opts[0] == "TOTAL"
      && StrictlySorted(opts[1..])
      && forall s :: s in opts[1..] <==>
           exists i :: 0 <= i < |df| && df[i].rec.state.Text? && Norm(df[i].rec.state.s) == s
  {
    StateValuesMembers(df);
    assert StateOptions(df)[1..] == SortedDistinct(StateValues(df));
  }

  /** `df_filtro`: the whole table for "TOTAL", otherwise the rows whose
      normalised state equals the selection. */
  function FilterState(df: seq<Dated>, selected: string): seq<Dated> {
    if selected == "TOTAL" then df else Where(df, Mask(StateIs(selected)))
  }

  /** "TOTAL" keeps the table; any other selection keeps exactly the rows of
      that state, in table order, and never more rows than the table has. */
  lemma {:induction false} FilterStateSpec(df: seq<Dated>, selected: string)
    ensures selected == "TOTAL" ==> FilterState(df, selected) == df
    ensures selected != "TOTAL" ==>
      forall d :: d in FilterState(df, selected) <==> d in df && NormCell(d.rec.state) == selected
    ensures |FilterState(df, selected)| <= |df|
  {
    WhereMembers(df, Mask(StateIs(selected)));
  }

  /** Filtering the filtered table again by the same state changes nothing. */
  lemma {:induction false} FilterStateIdempotent(df: seq<Dated>, selected: string)
    ensures FilterState(FilterState(df, selected), selected) == FilterState(df, selected)
  {
    if selected != "TOTAL" {
      WhereIdempotent(df, Mask(StateIs(selected)));
    }
  }

  /** Every state button selects at least one row. */
  lemma {:induction false} OptionSelectsRows(df: seq<Dated>, s: string)
    requires s in StateOptions(df)
    ensures FilterState(df, s) != [] || (s == "TOTAL" && df == [])
  {
    StateOptionsSpec(df);
    if s != "TOTAL" {
      assert s in StateOptions(df)[1..];
      var i :| 0 <= i < |df| && df[i].rec.state.Text? && Norm(df[i].rec.state.s) == s;
      assert NormCell(df[i].rec.state) == s;
      WhereMembers(df, Mask(StateIs(s)));
      assert df[i] in Where(df, Mask(StateIs(s)));
    }
  }

  // ---------------------------------------------------------------------
  // AM / AS split (app.py:305-306)
  // ---------------------------------------------------------------------

  /** `df_am` and `df_as`: the rows whose type holds "AM", and those whose
      type holds "AS". */
  function SplitByType(filtered: seq<Dated>): (seq<Dated>, seq<Dated>) {
    (Where(filtered, Mask(KindHas("AM"))), Where(filtered, Mask(KindHas("AS"))))
  }

  /** The two parts are not a partition: a type holding both substrings puts
      its row in both, and a type holding neither in none. */
  lemma {:induction false} SplitByTypeSpec(filtered: seq<Dated>)
    ensures var (am, as_) := SplitByType(filtered);
      && (forall d :: d in am <==> d in filtered && SafeContains(d.rec.kind, "AM"))
      && (forall d :: d in as_ <==> d in filtered && SafeContains(d.rec.kind, "AS"))
      && (forall d :: d in am && d in as_ <==>
            d in filtered && SafeContains(d.rec.kind, "AM") && SafeContains(d.rec.kind, "AS"))
  {
    WhereMembers(filtered, Mask(KindHas("AM")));
    WhereMembers(filtered, Mask(KindHas("AS")));
  }

  // ---------------------------------------------------------------------
  // Reference year and KPIs (app.py:314-319)
  // ---------------------------------------------------------------------

  /** `df[df["ANO"] == year]`, the slice every chart starts from. */
  function InYear(df: seq<Dated>, year: Year): seq<Dated> {
    Where(df, Mask(YearIs(year)))
  }

  /** The year's slice holds exactly the rows of that year. */
  lemma {:induction false} InYearSpec(df: seq<Dated>, year: Year)
    ensures forall d :: d in InYear(df, year) <==> d in df && d.year == year
    ensures InYear(df, year) == [] <==> forall i :: 0 <= i < |df| ==> df[i].year != year
  {
    WhereMembers(df, Mask(YearIs(year)));
    WhereEmpty(df, Mask(YearIs(year)));
  }

  /** `df["ANO"].max()` of a non-empty table. */
  function MaxYear(df: seq<Dated>): (y: Year)
    requires df != []
    ensures forall i :: 0 <= i < |df| ==> df[i].year <= y
    ensures exists i :: 0 <= i < |df| && df[i].year == y
  {
    if |df| == 1 then df[0].year
    else
      var rest := MaxYear(df[1..]);
      assert forall i :: 1 <= i < |df| ==> df[i] == df[1..][i - 1];
      if df[0].year >= rest then df[0].year else rest
  }

  /** `ano_ref`: the latest year of the filtered rows, or of the whole table
      when the filter selects nothing. `None` stands for the whole table
      being empty, where the source fails converting a missing maximum to
      an integer. */
  function ReferenceYear(df: seq<Dated>, selected: string): Option<Year> {
    var filtered := FilterState(df, selected);
    if filtered != [] then Some(MaxYear(filtered))
    else if df != [] then Some(MaxYear(df))
    else None
  }

  /** The reference year exists exactly when the table has a row. When the
      filter selects rows, it is the year of one of them and no selected row
      is later; so the year's slice of the filtered table is not empty. When
      the filter selects nothing, it is the latest year of the whole table. */
  lemma {:induction false} ReferenceYearSpec(df: seq<Dated>, selected: string)
    ensures ReferenceYear(df, selected).None? <==> df == []
    ensures var filtered := FilterState(df, selected);
      ReferenceYear(df, selected).Some? && filtered != [] ==>
        var y := ReferenceYear(df, selected).value;
        && (forall d :: d in filtered ==> d.year <= y)
        && InYear(filtered, y) != []
    ensures var filtered := FilterState(df, selected);
      ReferenceYear(df, selected).Some? && filtered == [] ==>
        var y := ReferenceYear(df, selected).value;
        && (forall d :: d in df ==> d.year <= y)
        && (exists d :: d in df && d.year == y)
  {
    var filtered := FilterState(df, selected);
    if filtered != [] {
      var y := MaxYear(filtered);
      var i :| 0 <= i < |filtered| && filtered[i].year == y;
      assert Mask(YearIs(y))(filtered[i]);
      WhereEmpty(filtered, Mask(YearIs(y)));
      forall d | d in filtered ensures d.year <= y {
        var j :| 0 <= j < |filtered| && filtered[j] == d;
      }
    } else if df != [] {
      var y := MaxYear(df);
      var i :| 0 <= i < |df| && df[i].year == y;
      assert df[i] in df;
      forall d | d in df ensures d.year <= y {
        var j :| 0 <= j < |df| && df[j] == d;
      }
    }
  }

  /** The three counters of the first card. */
  datatype Kpis = Kpis(total: nat, am: nat, asCount: nat)

  /** `total_ano`, `am_ano` and `as_ano` for the reference year. */
  function YearKpis(filtered: seq<Dated>, year: Year): Kpis {
    var base := InYear(filtered, year);
    Kpis(|base|, |Where(base, Mask(KindHas("AM")))|, |Where(base, Mask(KindHas("AS")))|)
  }

  /** Each counter is the number of positions of the filtered table whose
      row is of the year (and, for AM and AS, whose type contains that
      code); so AM and AS are each bounded by the year's total, and the
      total is zero exactly when no filtered row has the year. */
  lemma {:induction false} YearKpisSpec(filtered: seq<Dated>, year: Year)
    ensures var k := YearKpis(filtered, year);
      && k.total == |set i | 0 <= i < |filtered| && filtered[i].year == year|
      && k.am == |set i | 0 <= i < |filtered| && filtered[i].year == year
                            && SafeContains(filtered[i].rec.kind, "AM")|
      && k.asCount == |set i | 0 <= i < |filtered| && filtered[i].year == year
                                 && SafeContains(filtered[i].rec.kind, "AS")|
    ensures var k := YearKpis(filtered, year);
      && k.am <= k.total && k.asCount <= k.total && k.total <= |filtered|
      && (k.total == 0 <==> forall i :: 0 <= i < |filtered| ==> filtered[i].year != year)
  {
    var inYear := Mask(YearIs(year));
    WhereEmpty(filtered, inYear);
    WhereCount(filtered, inYear);
    var byMask := Passing(filtered, inYear);
    var byYear := set i | 0 <= i < |filtered| && filtered[i].year == year;
    forall i ensures i in byMask <==> i in byYear {
      if 0 <= i < |filtered| {
        assert inYear(filtered[i]) == (filtered[i].year == year);
      }
    }
    assert byMask == byYear;
    YearKindCount(filtered, year, "AM");
    YearKindCount(filtered, year, "AS");
  }

  /** The rows of the year whose type contains `code`, counted by position. */
  lemma {:induction false} YearKindCount(filtered: seq<Dated>, year: Year, code: string)
    ensures |Where(InYear(filtered, year), Mask(KindHas(code)))|
         == |set i | 0 <= i < |filtered| && filtered[i].year == year
                     && SafeContains(filtered[i].rec.kind, code)|
  {
    var inYear := Mask(YearIs(year));
    var hasKind := Mask(KindHas(code));
    WhereBoth(filtered, inYear, hasKind);
    var both := Both(inYear, hasKind);
    WhereCount(filtered, both);
    var byMask := Passing(filtered, both);
    var byField := set i | 0 <= i < |filtered| && filtered[i].year == year
                           && SafeContains(filtered[i].rec.kind, code);
    forall i ensures i in byMask <==> i in byField {
      if 0 <= i < |filtered| {
        assert both(filtered[i])
            == (filtered[i].year == year && SafeContains(filtered[i].rec.kind, code));
      }
    }
    assert byMask == byField;
  }
}
