/// Column resolution: the table's headers are normalised when it is loaded
/// (app.py:220), each role is mapped to the first header holding one of its
/// keywords (`achar_coluna`, app.py:196-202, called at app.py:228-233), and
/// the page stops unless the four required roles were all found
/// (app.py:235-241).
module Columns {
  import opened Wrappers
  import opened Text

  const StateKeywords: seq<string> := ["ESTADO", "LOCALIDADE", "UF"]
  const ResultKeywords: seq<string> := ["RESULTADO"]
  const KindKeywords: seq<string> := ["TIPO"]
  const ReasonKeywords: seq<string> := ["MOTIVO"]
  const RegionalKeywords: seq<string> := ["REGIONAL"]
  const DateKeywords: seq<string> := ["DATA", "DT", "EMISSAO", "EMISS\U{C3}O", "DIA"]

  /** Header normalisation at load time: every header upper-cased and
      trimmed. */
  function NormalizeHeaders(headers: seq<string>): seq<string> {
    seq(|headers|, i requires 0 <= i < |headers| => Norm(headers[i]))
  }

  /** Normalising the headers of an already normalised table changes
      nothing. */
  lemma {:induction false} NormalizeHeadersIdempotent(headers: seq<string>)
    ensures NormalizeHeaders(NormalizeHeaders(headers)) == NormalizeHeaders(headers)
  {
    forall i | 0 <= i < |headers|
      ensures NormalizeHeaders(NormalizeHeaders(headers))[i] == NormalizeHeaders(headers)[i]
    {
      NormIdempotent(headers[i]);
    }
  }

  /** Some keyword is a substring of the header. */
  predicate MatchesAny(column: string, keywords: seq<string>) {
    exists k :: 0 <= k < |keywords| && Contains(column, keywords[k])
  }

  /** The position of the first header, at or after `from`, that holds one
      of the keywords. */
  function FirstMatchFrom(columns: seq<string>, keywords: seq<string>, from: nat): (r: Option<nat>)
    decreases |columns| - from
    ensures r.Some? ==> from <= r.value < |columns| && MatchesAny(columns[r.value], keywords)
    ensures r.Some? ==> forall j :: from <= j < r.value ==> !MatchesAny(columns[j], keywords)
    ensures r.None? <==> forall j :: from <= j < |columns| ==> !MatchesAny(columns[j], keywords)
  {
    if from >= |columns| then None
    else if MatchesAny(columns[from], keywords) then Some(from)
    else FirstMatchFrom(columns, keywords, from + 1)
  }

  /** The position of the first header, in header order, that holds one of
      the keywords; `None` exactly when no header holds any. */
  function FirstMatch(columns: seq<string>, keywords: seq<string>): Option<nat> {
    FirstMatchFrom(columns, keywords, 0)
  }

  /** `achar_coluna`: for each header in order, for each keyword in order,
      return the header as soon as it contains the keyword. The header is
      returned as its position in `columns`. */
  method FindColumn(columns: seq<string>, keywords: seq<string>) returns (r: Option<nat>)
    ensures r == FirstMatch(columns, keywords)
  {
    var c := 0;
    while c < |columns|
      invariant 0 <= c <= |columns|
      invariant forall j :: 0 <= j < c ==> !MatchesAny(columns[j], keywords)
    {
      var k := 0;
      while k < |keywords|
        invariant 0 <= k <= |keywords|
        invariant forall j :: 0 <= j < k ==> !Contains(columns[c], keywords[j])
      {
        if Contains(columns[c], keywords[k]) {
          FirstMatchUnique(columns, keywords, c);
          return Some(c);
        }
        k := k + 1;
      }
      c := c + 1;
    }
    FirstMatchUnique(columns, keywords, |columns|);
    return None;
  }

  /** The conditions "every earlier header fails, this one matches" pin the
      result of `FirstMatch` down. */
  lemma FirstMatchUnique(columns: seq<string>, keywords: seq<string>, c: nat)
    requires c <= |columns|
    requires forall j :: 0 <= j < c ==> !MatchesAny(columns[j], keywords)
    ensures c < |columns| && MatchesAny(columns[c], keywords) ==> FirstMatch(columns, keywords) == Some(c)
    ensures c == |columns| ==> FirstMatch(columns, keywords) == None
  {
  }

  /** Header order beats keyword order: when an earlier header holds a later
      keyword and a later header holds an earlier keyword, the earlier header
      wins. */
  lemma {:induction false} HeaderOrderWins(columns: seq<string>, keywords: seq<string>, i: nat, j: nat, ki: nat, kj: nat)
    requires i < j < |columns| && kj < ki < |keywords|
    requires Contains(columns[i], keywords[ki]) && Contains(columns[j], keywords[kj])
    ensures FirstMatch(columns, keywords).Some?
    ensures FirstMatch(columns, keywords).value <= i
  {
    assert MatchesAny(columns[i], keywords);
  }

  /** The positions of the headers playing each role. The four required
      roles always have one; the reason and the regional unit may not. */
  datatype Schema = Schema(
    state: nat, result: nat, kind: nat, date: nat,
    reason: Option<nat>, regional: Option<nat>)

  /** The role resolution of app.py:228-241 on normalised headers: `None`
      stands for the page stopping with "required columns not found". */
  function Resolve(headers: seq<string>): Option<Schema> {
    var state := FirstMatch(headers, StateKeywords);
    var result := FirstMatch(headers, ResultKeywords);
    var kind := FirstMatch(headers, KindKeywords);
    var reason := FirstMatch(headers, ReasonKeywords);
    var regional := FirstMatch(headers, RegionalKeywords);
    var date := FirstMatch(headers, DateKeywords);
    if state.None? || result.None? || kind.None? || date.None? then None
    else Some(Schema(state.value, result.value, kind.value, date.value, reason, regional))
  }

  /** A role can be resolved when some header holds one of its keywords. */
  predicate Resolvable(headers: seq<string>, keywords: seq<string>) {
    exists j :: 0 <= j < |headers| && MatchesAny(headers[j], keywords)
  }

  /** Header `c` is the first, in header order, that holds one of the
      keywords. */
  predicate IsFirstMatch(headers: seq<string>, keywords: seq<string>, c: nat) {
    && c < |headers| && MatchesAny(headers[c], keywords)
    && forall j :: 0 <= j < c ==> !MatchesAny(headers[j], keywords)
  }

  /** Loading fails exactly when one of the four required roles has no
      header; otherwise every role points at the first header holding one of
      its keywords, and an optional role is absent exactly when no header
      holds its keyword. */
  lemma {:induction false} ResolveSpec(headers: seq<string>)
    ensures Resolve(headers).None? <==>
      || !Resolvable(headers, StateKeywords) || !Resolvable(headers, ResultKeywords)
      || !Resolvable(headers, KindKeywords) || !Resolvable(headers, DateKeywords)
    ensures Resolve(headers).Some? ==>
      var s := Resolve(headers).value;
      && IsFirstMatch(headers, StateKeywords, s.state)
      && IsFirstMatch(headers, ResultKeywords, s.result)
      && IsFirstMatch(headers, KindKeywords, s.kind)
      && IsFirstMatch(headers, DateKeywords, s.date)
      && (s.reason.None? <==> !Resolvable(headers, ReasonKeywords))
      && (s.reason.Some? ==> IsFirstMatch(headers, ReasonKeywords, s.reason.value))
      && (s.regional.None? <==> !Resolvable(headers, RegionalKeywords))
      && (s.regional.Some? ==> IsFirstMatch(headers, RegionalKeywords, s.regional.value))
  {
    ResolvableIff(headers, StateKeywords);
    ResolvableIff(headers, ResultKeywords);
    ResolvableIff(headers, KindKeywords);
    ResolvableIff(headers, DateKeywords);
    ResolvableIff(headers, ReasonKeywords);
    ResolvableIff(headers, RegionalKeywords);
  }

  /** One loaded row reduced to the cells the dashboard reads, by role. A
      role without a header reads as missing. */
  datatype Record = Record(
    state: Cell, result: Cell, kind: Cell, reason: Cell, regional: Cell, date: Cell)

  /** The cell of a row at a column position; a short row is padded with
      missing values, as the CSV reader does. */
  function CellAt(row: seq<Cell>, i: nat): Cell {
    if i < |row| then row[i] else Missing
  }

  function OptionalCell(row: seq<Cell>, i: Option<nat>): Cell {
    if i.Some? then CellAt(row, i.value) else Missing
  }

  /** The record a row gives under a resolved schema. */
  function Project(row: seq<Cell>, s: Schema): Record {
    Record(CellAt(row, s.state), CellAt(row, s.result), CellAt(row, s.kind),
           OptionalCell(row, s.reason), OptionalCell(row, s.regional), CellAt(row, s.date))
  }

  lemma ResolvableIff(headers: seq<string>, keywords: seq<string>)
    ensures FirstMatch(headers, keywords).Some? <==> Resolvable(headers, keywords)
  {
  }
}
