/// The page's data flow from a loaded table to every number it shows:
/// header normalisation and column roles (app.py:220, 228-241), the date
/// step (app.py:246-253), the state options and filter (app.py:284-300),
/// the reference year and KPIs (app.py:314-319), and the tables behind the
/// charts of the reference year (app.py:388, 460, 467-483, 553, 562, 571).
module Dashboard {
  import opened Wrappers
  import opened Text
  import opened Frames
  import opened Columns
  import opened Dates
  import opened Selection
  import opened Aggregates

  /** Why the page stops: a required role has no header (app.py:235-241),
      or no row has a date, so the reference year is the maximum of nothing
      and its conversion to `int` fails (app.py:314). */
  datatype LoadError = MissingRequiredColumns | NoDatedRecords

  /** Everything the page shows for one state selection. */
  datatype View = View(
    options: seq<string>,
    filtered: seq<Dated>,
    refYear: Year,
    kpis: Kpis,
    annual: Option<AnnualView>,
    monthly: Option<MonthlyView>,
    summary: Option<Summary>,
    regional: Option<seq<Group<string>>>,
    reasonsAm: Option<seq<Group<string>>>,
    reasonsAs: Option<seq<Group<string>>>)

  function Records(rows: seq<seq<Cell>>, s: Schema): seq<Record> {
    seq(|rows|, i requires 0 <= i < |rows| => Project(rows[i], s))
  }

  /** The views of the reference year computed from the prepared table. */
  function ViewOf(df: seq<Dated>, s: Schema, selected: string, year: Year): View {
    var filtered := FilterState(df, selected);
    var slice := InYear(filtered, year);
    View(StateOptions(df), filtered, year, YearKpis(filtered, year),
         Annual(filtered, year), Monthly(filtered, year), SummaryAsWritten(filtered, year),
         ImprocedentBy(slice, s.regional.Some?, "AM", ByRegional),
         ImprocedentBy(slice, s.reason.Some?, "AM", ByReason),
         ImprocedentBy(slice, s.reason.Some?, "AS", ByReason))
  }

  /** The page for headers `headers`, rows `rows`, the date parser's reading
      `parsed` of each row's date cell, the locale's month names and the
      selected state. */
  function Build(headers: seq<string>, rows: seq<seq<Cell>>, parsed: seq<Option<Date>>,
                 locale: Locale, selected: string): Result<View, LoadError>
    requires |parsed| == |rows|
  {
    match Resolve(NormalizeHeaders(headers))
    case None => Failure(MissingRequiredColumns)
    case Some(s) =>
      var df := Prepared(Records(rows, s), parsed, locale);
      match ReferenceYear(df, selected)
      case None => Failure(NoDatedRecords)
      case Some(year) => Success(ViewOf(df, s, selected, year))
  }

  /** The script's own order of steps: normalise the headers in place,
      search each role's column, stop without a required one, derive the
      date columns, then compute the views. */
  method Run(headers: seq<string>, rows: seq<seq<Cell>>, parsed: seq<Option<Date>>,
             locale: Locale, selected: string) returns (r: Result<View, LoadError>)
    requires |parsed| == |rows|
    ensures r == Build(headers, rows, parsed, locale, selected)
  {
    var columns := new string[|headers|](i requires 0 <= i < |headers| => headers[i]);
    var i := 0;
    while i < columns.Length
      invariant 0 <= i <= columns.Length
      invariant forall j :: 0 <= j < i ==> columns[j] == Norm(headers[j])
      invariant forall j :: i <= j < columns.Length ==> columns[j] == headers[j]
    {
      columns[i] := Norm(columns[i]);
      i := i + 1;
    }
    var cols := columns[..];
    assert cols == NormalizeHeaders(headers);
    var state := FindColumn(cols, StateKeywords);
    var result := FindColumn(cols, ResultKeywords);
    var kind := FindColumn(cols, KindKeywords);
    var reason := FindColumn(cols, ReasonKeywords);
    var regional := FindColumn(cols, RegionalKeywords);
    var date := FindColumn(cols, DateKeywords);
    if state.None? || result.None? || kind.None? || date.None? {
      return Failure(MissingRequiredColumns);
    }
    var s := Schema(state.value, result.value, kind.value, date.value, reason, regional);
    var df := PrepareDates(Records(rows, s), parsed, locale);
    var year := ReferenceYear(df, selected);
    if year.None? {
      return Failure(NoDatedRecords);
    }
    r := Success(ViewOf(df, s, selected, year.value));
  }

  /** The page stops for missing columns exactly when a required role has no
      header, and for want of dates exactly when the roles resolve but no
      row's date parsed; otherwise it shows a view. */
  lemma {:induction false} BuildFails(headers: seq<string>, rows: seq<seq<Cell>>, parsed: seq<Option<Date>>,
                   locale: Locale, selected: string)
    requires |parsed| == |rows|
    ensures var r := Build(headers, rows, parsed, locale, selected);
      && (r == Failure(MissingRequiredColumns) <==> Resolve(NormalizeHeaders(headers)).None?)
      && (r == Failure(NoDatedRecords) <==>
            Resolve(NormalizeHeaders(headers)).Some? && ParsedCount(parsed) == 0)
  {
    var sch := Resolve(NormalizeHeaders(headers));
    if sch.Some? {
      var recs := Records(rows, sch.value);
      PreparedSpec(recs, parsed, locale);
      ReferenceYearSpec(Prepared(recs, parsed, locale), selected);
    }
  }

  /** When the selection has rows, every chart of the reference year has
      data: the reference year is a year of the selection, the annual and
      monthly tables and the summary exist, and the annual counts add up to
      the year's KPI total, which counts at least one row. */
  lemma {:induction false} ViewConsistent(df: seq<Dated>, s: Schema, selected: string)
    requires FilterState(df, selected) != []
    ensures ReferenceYear(df, selected).Some?
    ensures var v := ViewOf(df, s, selected, ReferenceYear(df, selected).value);
      && v.kpis.total > 0
      && v.annual.Some? && v.monthly.Some? && v.summary.Some?
      && SumSizes(v.annual.value.counts) == v.kpis.total
  {
    FilterStateSpec(df, selected);
    ReferenceYearSpec(df, selected);
    var year := ReferenceYear(df, selected).value;
    var filtered := FilterState(df, selected);
    AnnualSpec(filtered, year);
    InYearSpec(filtered, year);
    MonthlySpec(filtered, year);
    SummaryAsWrittenSpec(filtered, year);
  }
}
