/// Date handling (app.py:246-253): rows whose date does not parse are
/// dropped, and the year, the month and three month labels are derived
/// from the rest. The date parser (`pd.to_datetime(..., dayfirst=True)`)
/// and the locale's month names are inputs: the parser's reading of every
/// row's date cell, and a `Locale` value.
module Dates {
  import opened Wrappers
  import opened Text
  import opened Format
  import opened Columns

  /** The years a pandas timestamp can hold; a date outside them does not
      parse. */
  type Year = y: int | 1677 <= y <= 2262 witness 2000

  type Month = m: int | 1 <= m <= 12 witness 1

  /** What the dashboard reads of a parsed date. */
  datatype Date = Date(year: Year, month: Month)

  /** The locale's full (`%B`) and abbreviated (`%b`) month names. */
  datatype Locale = Locale(monthName: Month -> string, monthAbbrev: Month -> string)

  /** A record with a parsed date and the columns derived from it: ANO,
      MES_NUM, MES_NOME, MES_ANO and MES_ANO_LABEL. */
  datatype Dated = Dated(
    rec: Record, year: Year, month: Month,
    monthName: string, period: string, monthYear: string)

  /** The month with a leading zero, as `%m` writes it. */
  function TwoDigits(m: Month): string {
    if m < 10 then "0" + Decimal(m) else Decimal(m)
  }

  /** MES_ANO: `to_period("M").astype(str)`, "YYYY-MM". */
  function Period(d: Date): string {
    Decimal(d.year) + "-" + TwoDigits(d.month)
  }

  /** MES_ANO_LABEL: `strftime("%b/%Y")` upper-cased. */
  function MonthLabel(d: Date, locale: Locale): string {
    Upper(locale.monthAbbrev(d.month) + "/" + Decimal(d.year))
  }

  /** The derived columns of one row with a parsed date. */
  function Derive(r: Record, d: Date, locale: Locale): Dated {
    Dated(r, d.year, d.month, Upper(locale.monthName(d.month)), Period(d), MonthLabel(d, locale))
  }

  /** The table after `dropna` on the parsed date and the derivations:
      the rows whose date parsed, in their order, with their derived
      columns. */
  function Prepared(records: seq<Record>, parsed: seq<Option<Date>>, locale: Locale): seq<Dated>
    requires |parsed| == |records|
  {
    if records == [] then []
    else
      var n := |records| - 1;
      Prepared(records[..n], parsed[..n], locale)
        + (if parsed[n].Some? then [Derive(records[n], parsed[n].value, locale)] else [])
  }

  /** The number of dates that parsed. */
  function ParsedCount(parsed: seq<Option<Date>>): nat {
    if parsed == [] then 0
    else ParsedCount(parsed[..|parsed| - 1]) + (if parsed[|parsed| - 1].Some? then 1 else 0)
  }

  /** The date step of the load: drops the rows whose date did not parse
      and adds the derived columns to the others. */
  method PrepareDates(records: seq<Record>, parsed: seq<Option<Date>>, locale: Locale)
    returns (df: seq<Dated>)
    requires |parsed| == |records|
    ensures df == Prepared(records, parsed, locale)
  {
    df := [];
    var i := 0;
    while i < |records|
      invariant 0 <= i <= |records|
      invariant df == Prepared(records[..i], parsed[..i], locale)
    {
      assert records[..i + 1][..i] == records[..i];
      assert parsed[..i + 1][..i] == parsed[..i];
      if parsed[i].Some? {
        df := df + [Derive(records[i], parsed[i].value, locale)];
      }
      i := i + 1;
    }
    assert records[..i] == records && parsed[..i] == parsed;
  }

  /** The prepared table has one row per date that parsed, so never more
      rows than the input. */
  lemma {:induction false} PreparedLength(records: seq<Record>, parsed: seq<Option<Date>>, locale: Locale)
    requires |parsed| == |records|
    ensures |Prepared(records, parsed, locale)| == ParsedCount(parsed) <= |records|
  {
    if records != [] {
      var n := |records| - 1;
      PreparedLength(records[..n], parsed[..n], locale);
    }
  }

  /** Every row whose date parsed is kept, with the columns its own date
      gives. */
  lemma {:induction false} PreparedKeeps(records: seq<Record>, parsed: seq<Option<Date>>, locale: Locale, i: nat)
    requires |parsed| == |records| && i < |records| && parsed[i].Some?
    ensures Derive(records[i], parsed[i].value, locale) in Prepared(records, parsed, locale)
  {
    var n := |records| - 1;
    if i < n {
      PreparedKeeps(records[..n], parsed[..n], locale, i);
      assert records[..n][i] == records[i] && parsed[..n][i] == parsed[i];
    }
  }

  /** Every prepared row comes from an input row whose date parsed. */
  lemma {:induction false} PreparedFrom(records: seq<Record>, parsed: seq<Option<Date>>, locale: Locale, d: Dated)
    requires |parsed| == |records| && d in Prepared(records, parsed, locale)
    ensures exists i :: 0 <= i < |records| && parsed[i].Some? && d == Derive(records[i], parsed[i].value, locale)
  {
    var n := |records| - 1;
    if d in Prepared(records[..n], parsed[..n], locale) {
      PreparedFrom(records[..n], parsed[..n], locale, d);
      var i :| 0 <= i < n && parsed[..n][i].Some? && d == Derive(records[..n][i], parsed[..n][i].value, locale);
      assert records[..n][i] == records[i] && parsed[..n][i] == parsed[i];
    }
  }

  /** Exactly the rows whose date parsed survive, each with the columns its
      own date gives, and no other row appears. */
  lemma {:induction false} PreparedSpec(records: seq<Record>, parsed: seq<Option<Date>>, locale: Locale)
    requires |parsed| == |records|
    ensures var df := Prepared(records, parsed, locale);
      && |df| == ParsedCount(parsed) <= |records|
      && (forall i :: 0 <= i < |records| && parsed[i].Some? ==>
            Derive(records[i], parsed[i].value, locale) in df)
      && (forall d :: d in df ==>
            exists i :: 0 <= i < |records| && parsed[i].Some? && d == Derive(records[i], parsed[i].value, locale))
  {
    PreparedLength(records, parsed, locale);
    forall i | 0 <= i < |records| && parsed[i].Some?
      ensures Derive(records[i], parsed[i].value, locale) in Prepared(records, parsed, locale)
    {
      PreparedKeeps(records, parsed, locale, i);
    }
    forall d | d in Prepared(records, parsed, locale)
      ensures exists i :: 0 <= i < |records| && parsed[i].Some? && d == Derive(records[i], parsed[i].value, locale)
    {
      PreparedFrom(records, parsed, locale, d);
    }
  }

  /** A single row survives, with its derived columns, exactly when its
      date parsed. */
  lemma PreparedSingle(r: Record, p: Option<Date>, locale: Locale)
    ensures Prepared([r], [p], locale) == if p.Some? then [Derive(r, p.value, locale)] else []
  {
    assert [r][..0] == [];
  }

  /** Preparing splits over concatenation: the surviving rows keep the order
      and the multiplicity of the rows they come from. */
  lemma {:induction false} PreparedAppend(r1: seq<Record>, p1: seq<Option<Date>>,
                                          r2: seq<Record>, p2: seq<Option<Date>>, locale: Locale)
    requires |p1| == |r1| && |p2| == |r2|
    ensures Prepared(r1 + r2, p1 + p2, locale)
         == Prepared(r1, p1, locale) + Prepared(r2, p2, locale)
  {
    if r2 != [] {
      var n := |r2| - 1;
      PreparedAppend(r1, p1, r2[..n], p2[..n], locale);
      var m := |r1 + r2| - 1;
      assert (r1 + r2)[..m] == r1 + r2[..n];
      assert (p1 + p2)[..m] == p1 + p2[..n];
      assert (r1 + r2)[m] == r2[n] && (p1 + p2)[m] == p2[n];
    } else {
      assert r1 + r2 == r1 && p1 + p2 == p1;
    }
  }

  /** When every date parses, no row is dropped. */
  lemma {:induction false} PreparedKeepsAll(records: seq<Record>, parsed: seq<Option<Date>>, locale: Locale)
    requires |parsed| == |records|
    requires forall i :: 0 <= i < |parsed| ==> parsed[i].Some?
    ensures |Prepared(records, parsed, locale)| == |records|
    ensures forall i :: 0 <= i < |records| ==>
      Prepared(records, parsed, locale)[i] == Derive(records[i], parsed[i].value, locale)
  {
    if records != [] {
      var n := |records| - 1;
      PreparedKeepsAll(records[..n], parsed[..n], locale);
    }
  }

  lemma DecimalStep(n: nat)
    requires n >= 10
    ensures |Decimal(n)| == |Decimal(n / 10)| + 1
  {
  }

  lemma {:induction false} YearDigits(y: Year)
    ensures |Decimal(y)| == 4 && DigitsValue(Decimal(y)) == y
  {
    DecimalSpec(y);
    var a := y / 10;
    var b := a / 10;
    var c := b / 10;
    assert 1 <= c < 10 && b >= 10 && a >= 10;
    DecimalStep(b);
    DecimalStep(a);
    DecimalStep(y);
  }

  lemma {:induction false} MonthDigits(m: Month)
    ensures |TwoDigits(m)| == 2 && DigitsValue(TwoDigits(m)) == m
  {
    DecimalSpec(m);
    var t := TwoDigits(m);
    if m < 10 {
      assert t == ['0', DigitChar(m)];
      assert t[..1] == ['0'] && t[..1][..0] == [];
    } else {
      assert Decimal(m) == Decimal(m / 10) + [DigitChar(m % 10)];
      assert Decimal(m / 10) == [DigitChar(m / 10)];
    }
  }

  /** MES_ANO reads back as the date it was made from: four year digits, a
      "-", two month digits. */
  lemma {:induction false} PeriodReadsBack(d: Date)
    ensures var p := Period(d);
      && |p| == 7 && p[4] == '-'
      && DigitsValue(p[..4]) == d.year
      && DigitsValue(p[5..]) == d.month
  {
    YearDigits(d.year);
    MonthDigits(d.month);
    var p := Period(d);
    assert p[..4] == Decimal(d.year);
    assert p[5..] == TwoDigits(d.month);
  }

  /** Two dates with the same MES_ANO are in the same month. */
  lemma {:induction false} PeriodInjective(a: Date, b: Date)
    requires Period(a) == Period(b)
    ensures a == b
  {
    PeriodReadsBack(a);
    PeriodReadsBack(b);
  }
}
