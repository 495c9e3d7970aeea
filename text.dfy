/// The cell model and the string helpers of app.py: `norm_str` (stringify,
/// upper-case, trim) and `safe_contains` (substring test on the normalised
/// value), with the substring search they rest on.
module Text {
  import opened Wrappers

  /** A table cell as the CSV reader delivers it: absent (NaN) or its text. */
  datatype Cell = Missing | Text(s: string)

  /** `astype(str)`: a missing value prints as "nan". */
  function Stringify(c: Cell): string {
    match c
    case Missing => "nan"
    case Text(s) => s
  }

  // ---------------------------------------------------------------------
  // Upper-casing and trimming
  // ---------------------------------------------------------------------

  /** The lower-case letters whose upper case `str.upper` gives one code point
      lower by 0x20: ASCII a-z and the Latin-1 letters U+00E0..U+00FE but
      the division sign U+00F7. */
  predicate IsLower(c: char) {
    ('a' <= c <= 'z') || ('\U{E0}' <= c <= '\U{FE}' && c != '\U{F7}')
  }

  function UpperChar(c: char): char {
    if IsLower(c) then (c as int - 32) as char else c
  }

  /** `str.upper`, character by character. */
  function Upper(s: string): string {
    seq(|s|, i requires 0 <= i < |s| => UpperChar(s[i]))
  }

  /** The characters Python's `str.isspace` accepts, which `str.strip()`
      removes. */
  predicate IsSpace(c: char) {
    || c == ' '
    || '\t' <= c <= '\r'
    || '\U{1C}' <= c <= '\U{1F}'
    || c == '\U{85}' || c == '\U{A0}' || c == '\U{1680}'
    || '\U{2000}' <= c <= '\U{200A}'
    || c == '\U{2028}' || c == '\U{2029}' || c == '\U{202F}'
    || c == '\U{205F}' || c == '\U{3000}'
  }

  function TrimStart(s: string): string {
    if s != [] && IsSpace(s[0]) then TrimStart(s[1..]) else s
  }

  function TrimEnd(s: string): string {
    if s != [] && IsSpace(s[|s| - 1]) then TrimEnd(s[..|s| - 1]) else s
  }

  /** `str.strip()`: leading and trailing whitespace removed. */
  function Strip(s: string): string {
    TrimEnd(TrimStart(s))
  }

  /** Header normalisation (`str.upper().str.strip()`), app.py:220. */
  function Norm(s: string): string {
    Strip(Upper(s))
  }

  /** `norm_str`: stringify, upper-case, trim. */
  function NormCell(c: Cell): string {
    Norm(Stringify(c))
  }

  lemma {:induction false} TrimStartShape(s: string)
    ensures var r := TrimStart(s);
      && |r| <= |s| && r == s[|s| - |r|..]
      && (r == [] || !IsSpace(r[0]))
      && forall k :: 0 <= k < |s| - |r| ==> IsSpace(s[k])
  {
    if s != [] && IsSpace(s[0]) {
      var t := s[1..];
      TrimStartShape(t);
      var r := TrimStart(t);
      assert TrimStart(s) == r;
      assert r == t[|t| - |r|..] == s[|s| - |r|..];
      forall k | 0 <= k < |s| - |r| ensures IsSpace(s[k]) {
        if k > 0 {
          assert s[k] == t[k - 1];
        }
      }
    }
  }

  lemma {:induction false} TrimEndShape(s: string)
    ensures var r := TrimEnd(s);
      && |r| <= |s| && r == s[..|r|]
      && (r == [] || !IsSpace(r[|r| - 1]))
      && forall k :: |r| <= k < |s| ==> IsSpace(s[k])
  {
    if s != [] && IsSpace(s[|s| - 1]) {
      var t := s[..|s| - 1];
      TrimEndShape(t);
      var r := TrimEnd(t);
      assert TrimEnd(s) == r;
      assert r == t[..|r|] == s[..|r|];
      forall k | |r| <= k < |s| ensures IsSpace(s[k]) {
        if k < |t| {
          assert s[k] == t[k];
        }
      }
    }
  }

  /** `Strip(s)` is the slice of `s` left when the whitespace at both ends is
      cut away: it starts and ends with a non-space, and only whitespace was
      dropped. */
  lemma {:induction false} StripShape(s: string)
    ensures var r := Strip(s);
      && (r == [] || (!IsSpace(r[0]) && !IsSpace(r[|r| - 1])))
      && exists i :: && OccursAt(s, r, i)
                     && (forall k :: 0 <= k < i ==> IsSpace(s[k]))
                     && (forall k :: i + |r| <= k < |s| ==> IsSpace(s[k]))
  {
    var t := TrimStart(s);
    TrimStartShape(s);
    TrimEndShape(t);
    var r := TrimEnd(t);
    var i := |s| - |t|;
    assert s[i..i + |r|] == t[..|r|];
    assert OccursAt(s, r, i);
    if r != [] {
      assert r[0] == t[0];
    }
    forall k | i + |r| <= k < |s| ensures IsSpace(s[k]) {
      assert s[k] == t[k - i];
    }
  }

  lemma {:induction false} TrimStartNoSpace(s: string)
    requires s == [] || !IsSpace(s[0])
    ensures TrimStart(s) == s
  {
  }

  lemma {:induction false} TrimEndKeepsStart(s: string)
    requires s == [] || !IsSpace(s[0])
    ensures var r := TrimEnd(s); r == [] || !IsSpace(r[0])
  {
    TrimEndShape(s);
    var r := TrimEnd(s);
    if r != [] {
      assert r[0] == s[0];
    }
  }

  lemma {:induction false} TrimEndIdempotent(s: string)
    ensures TrimEnd(TrimEnd(s)) == TrimEnd(s)
  {
    TrimEndShape(s);
  }

  lemma {:induction false} StripIdempotent(s: string)
    ensures Strip(Strip(s)) == Strip(s)
  {
    var t := TrimStart(s);
    TrimStartShape(s);
    TrimEndKeepsStart(t);
    TrimStartNoSpace(TrimEnd(t));
    TrimEndIdempotent(t);
  }

  lemma UpperCharIdempotent(c: char)
    ensures UpperChar(UpperChar(c)) == UpperChar(c)
    ensures IsSpace(UpperChar(c)) == IsSpace(c)
  {
  }

  lemma {:induction false} UpperTrimStart(s: string)
    ensures Upper(TrimStart(s)) == TrimStart(Upper(s))
  {
    if s != [] {
      UpperCharIdempotent(s[0]);
      assert Upper(s)[0] == UpperChar(s[0]);
      if IsSpace(s[0]) {
        assert Upper(s)[1..] == Upper(s[1..]);
        UpperTrimStart(s[1..]);
      }
    }
  }

  lemma {:induction false} UpperTrimEnd(s: string)
    ensures Upper(TrimEnd(s)) == TrimEnd(Upper(s))
  {
    if s != [] {
      UpperCharIdempotent(s[|s| - 1]);
      assert Upper(s)[|s| - 1] == UpperChar(s[|s| - 1]);
      if IsSpace(s[|s| - 1]) {
        assert Upper(s)[..|s| - 1] == Upper(s[..|s| - 1]);
        UpperTrimEnd(s[..|s| - 1]);
      }
    }
  }

  lemma {:induction false} UpperIdempotent(s: string)
    ensures Upper(Upper(s)) == Upper(s)
  {
    forall i | 0 <= i < |s| ensures Upper(Upper(s))[i] == Upper(s)[i] {
      UpperCharIdempotent(s[i]);
    }
  }

  /** Normalising twice changes nothing: `norm_str` is idempotent, which is
      why filtering on an already normalised state value is stable. */
  lemma {:induction false} NormIdempotent(s: string)
    ensures Norm(Norm(s)) == Norm(s)
  {
    var u := Upper(s);
    UpperTrimStart(u);
    UpperTrimEnd(TrimStart(u));
    UpperIdempotent(s);
    StripIdempotent(u);
  }

  // ---------------------------------------------------------------------
  // Substring search
  // ---------------------------------------------------------------------

  /** `p` occurs in `s` starting at position `i`. */
  predicate OccursAt(s: string, p: string, i: int) {
    0 <= i <= |s| - |p| && s[i..i + |p|] == p
  }

  /** The leftmost occurrence of `p` in `s` at or after position `i`. */
  function IndexFrom(s: string, p: string, i: nat): (r: Option<nat>)
    decreases |s| - i
    ensures r.Some? ==> i <= r.value && OccursAt(s, p, r.value)
    ensures r.Some? ==> forall j :: i <= j < r.value ==> !OccursAt(s, p, j)
    ensures r.None? ==> forall j :: i <= j ==> !OccursAt(s, p, j)
  {
    if i + |p| > |s| then None
    else if s[i..i + |p|] == p then Some(i)
    else IndexFrom(s, p, i + 1)
  }

  /** The leftmost occurrence of `p` in `s`, if any. */
  function IndexOf(s: string, p: string): (r: Option<nat>)
    ensures r.Some? ==> OccursAt(s, p, r.value) && forall j :: 0 <= j < r.value ==> !OccursAt(s, p, j)
    ensures r.None? <==> forall j :: !OccursAt(s, p, j)
  {
    IndexFrom(s, p, 0)
  }

  /** Python's `p in s`, and `str.contains(p)` for the plain-letter patterns
      the dashboard uses. */
  predicate Contains(s: string, p: string) {
    IndexOf(s, p).Some?
  }

  /** `safe_contains`: substring test on the normalised cell. */
  predicate SafeContains(c: Cell, p: string) {
    Contains(NormCell(c), p)
  }

  /** An occurrence of `q` inside an occurrence of `p` is an occurrence in
      the enclosing text. */
  lemma {:induction false} OccursCompose(s: string, p: string, q: string, i: int, j: int)
    requires OccursAt(s, p, i) && OccursAt(p, q, j)
    ensures OccursAt(s, q, i + j)
  {
    forall k | 0 <= k < |q| ensures s[i + j + k] == q[k] {
      assert s[i + j + k] == s[i..i + |p|][j + k];
      assert q[k] == p[j..j + |q|][k];
    }
    assert s[i + j..i + j + |q|] == q;
  }

  /** Containment is transitive: a text holding `p` holds every substring of
      `p`. */
  lemma {:induction false} ContainsTransitive(s: string, p: string, q: string)
    requires Contains(s, p) && Contains(p, q)
    ensures Contains(s, q)
  {
    OccursCompose(s, p, q, IndexOf(s, p).value, IndexOf(p, q).value);
  }
}
