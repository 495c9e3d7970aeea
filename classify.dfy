/// The two derived fields every chart groups by: the note type TIPO_NORM
/// (app.py:347) and the outcome class CLASSE (app.py:351-353). app.py
/// repeats both steps verbatim at app.py:403-408 and app.py:469-473.
module Classify {
  import opened Wrappers
  import opened Text

  /** The three outcome classes; `Name` is the text the source stores. */
  datatype Class = Procedente | Improcedente | Outros {
    function Name(): string {
      match this
      case Procedente => "PROCEDENTE"
      case Improcedente => "IMPROCEDENTE"
      case Outros => "OUTROS"
    }
  }

  // ---------------------------------------------------------------------
  // TIPO_NORM
  // ---------------------------------------------------------------------

  /** One of the two note types occurs in `s` at position `i`. */
  predicate TypeAt(s: string, i: int) {
    OccursAt(s, "AM", i) || OccursAt(s, "AS", i)
  }

  /** `str.extract(r"(AM|AS)")` from position `i` on: the first position
      where either alternative matches, "AM" tried before "AS". */
  function ExtractTypeFrom(s: string, i: nat): (r: Option<string>)
    decreases |s| - i
  {
    if i + 2 > |s| then None
    else if s[i..i + 2] == "AM" then Some("AM")
    else if s[i..i + 2] == "AS" then Some("AS")
    else ExtractTypeFrom(s, i + 1)
  }

  /** The match of `(AM|AS)` in `s`, if any. */
  function ExtractType(s: string): Option<string> {
    ExtractTypeFrom(s, 0)
  }

  /** The extraction returns the type found at the leftmost position where
      either type occurs; it finds nothing exactly when neither occurs. */
  lemma {:induction false} ExtractTypeFromSpec(s: string, i: nat)
    ensures var r := ExtractTypeFrom(s, i);
      && (r.None? <==> forall j :: i <= j ==> !TypeAt(s, j))
      && (r.Some? ==> exists p :: && i <= p && OccursAt(s, r.value, p)
                                   && (r.value == "AM" || r.value == "AS")
                                   && forall j :: i <= j < p ==> !TypeAt(s, j))
    decreases |s| - i
  {
    if i + 2 <= |s| && s[i..i + 2] != "AM" && s[i..i + 2] != "AS" {
      ExtractTypeFromSpec(s, i + 1);
      var r := ExtractTypeFrom(s, i);
      if r.Some? {
        var p :| && i + 1 <= p && OccursAt(s, r.value, p)
                 && (r.value == "AM" || r.value == "AS")
                 && forall j :: i + 1 <= j < p ==> !TypeAt(s, j);
        assert forall j :: i <= j < p ==> !TypeAt(s, j);
      }
    } else if i + 2 <= |s| {
      var r := ExtractTypeFrom(s, i);
      assert OccursAt(s, r.value, i) && TypeAt(s, i);
    }
  }

  /** TIPO_NORM (app.py:347): the first "AM" or "AS" in the normalised type,
      otherwise the normalised type itself. */
  function TypeNorm(kind: Cell): string {
    var n := NormCell(kind);
    match ExtractType(n)
    case Some(t) => t
    case None => n
  }

  /** TIPO_NORM is the type at the leftmost occurrence of "AM" or "AS" in the
      normalised value, and the normalised value unchanged when neither
      occurs. */
  lemma {:induction false} TypeNormSpec(kind: Cell)
    ensures var n := NormCell(kind); var t := TypeNorm(kind);
      && ((exists j :: TypeAt(n, j)) ==>
            && (t == "AM" || t == "AS")
            && exists p :: OccursAt(n, t, p) && forall j :: 0 <= j < p ==> !TypeAt(n, j))
      && ((forall j :: !TypeAt(n, j)) ==> t == n)
  {
    var n := NormCell(kind);
    ExtractTypeFromSpec(n, 0);
    if forall j :: !TypeAt(n, j) {
    } else {
      var j :| TypeAt(n, j);
      assert 0 <= j;
    }
  }

  /** "XASAM" yields "AS": position beats the order of the alternatives. */
  lemma {:induction false} TypeNormLeftmost()
    ensures TypeNorm(Text("xasam")) == "AS"
  {
    var n := NormCell(Text("xasam"));
    assert Upper("xasam") == "XASAM";
    assert TrimStart("XASAM") == "XASAM";
    assert TrimEnd("XASAM") == "XASAM";
    assert n == "XASAM";
    assert n[0..2] == "XA";
    assert n[1..3] == "AS";
  }

  // ---------------------------------------------------------------------
  // CLASSE
  // ---------------------------------------------------------------------

  /** CLASSE after its first two assignments: "OUTROS", overwritten by
      PROCEDENTE where "PROCED" occurs. */
  function FirstPass(res: string): Class {
    if Contains(res, "PROCED") then Procedente else Outros
  }

  /** CLASSE of a normalised result, as the source assigns it: the first
      pass, then overwritten by IMPROCEDENTE where "IMPROCED" occurs. */
  function ClassOf(res: string): Class {
    if Contains(res, "IMPROCED") then Improcedente else FirstPass(res)
  }

  /** CLASSE of a row, from its raw result (RES_NORM = `norm_str`). */
  function ResultClass(result: Cell): Class {
    ClassOf(NormCell(result))
  }

  /** "IMPROCED" holds "PROCED", so a text holding the first holds the
      second. */
  lemma {:induction false} ImprocedHoldsProced(s: string)
    requires Contains(s, "IMPROCED")
    ensures Contains(s, "PROCED")
  {
    assert OccursAt("IMPROCED", "PROCED", 2);
    ContainsTransitive(s, "IMPROCED", "PROCED");
  }

  /** The class is decided by the two substrings alone, each class by one
      condition: IMPROCEDENTE exactly when "IMPROCED" occurs, PROCEDENTE
      exactly when "PROCED" occurs without "IMPROCED", OUTROS exactly when
      "PROCED" does not occur at all. */
  lemma {:induction false} ClassOfSpec(res: string)
    ensures ClassOf(res) == Improcedente <==> Contains(res, "IMPROCED")
    ensures ClassOf(res) == Procedente <==> Contains(res, "PROCED") && !Contains(res, "IMPROCED")
    ensures ClassOf(res) == Outros <==> !Contains(res, "PROCED")
  {
    if Contains(res, "IMPROCED") {
      ImprocedHoldsProced(res);
    }
  }

  /** The regression case of the tie-break: "IMPROCEDENTE" is never
      PROCEDENTE, although it holds "PROCED". */
  lemma {:induction false} ImprocedenteIsImprocedente()
    ensures ClassOf("IMPROCEDENTE") == Improcedente
  {
    assert OccursAt("IMPROCEDENTE", "IMPROCED", 0);
  }

  /** `base.loc[res.str.contains(pattern), "CLASSE"] = value`: overwrites
      the rows whose normalised result holds `pattern` and leaves the others
      as they were. */
  method AssignWhere(column: array<Class>, resNorm: seq<string>, pattern: string, value: Class)
    requires column.Length == |resNorm|
    modifies column
    ensures forall j :: 0 <= j < column.Length ==>
      column[j] == (if Contains(resNorm[j], pattern) then value else old(column[j]))
  {
    var i := 0;
    while i < column.Length
      invariant 0 <= i <= column.Length
      invariant forall j :: 0 <= j < i ==>
        column[j] == (if Contains(resNorm[j], pattern) then value else old(column[j]))
      invariant forall j :: i <= j < column.Length ==> column[j] == old(column[j])
    {
      if Contains(resNorm[i], pattern) {
        column[i] := value;
      }
      i := i + 1;
    }
  }

  /** The CLASSE column built the way the source builds it: a column filled
      with OUTROS, then overwritten where the normalised result holds
      "PROCED", then where it holds "IMPROCED". */
  method ClassColumn(resNorm: seq<string>) returns (classes: seq<Class>)
    ensures |classes| == |resNorm|
    ensures forall i :: 0 <= i < |resNorm| ==> classes[i] == ClassOf(resNorm[i])
  {
    var column := new Class[|resNorm|](_ => Outros);
    AssignWhere(column, resNorm, "PROCED", Procedente);
    assert forall j :: 0 <= j < column.Length ==> column[j] == FirstPass(resNorm[j]);
    AssignWhere(column, resNorm, "IMPROCED", Improcedente);
    classes := column[..];
  }
}
