/// Number formatting: `fmt_int` (app.py:210-211), which writes an integer
/// with its digits grouped in threes and separated by ".", and the decimal
/// rendering `str(n)` it and the percentage labels build on.
module Format {

  predicate IsDigit(c: char) {
    '0' <= c <= '9'
  }

  function DigitChar(d: nat): char
    requires d < 10
  {
    ('0' as int + d) as char
  }

  /** `str(n)` for a non-negative integer: no leading zero, "0" for zero. */
  function Decimal(n: nat): (r: string)
    decreases n
  {
    if n < 10 then [DigitChar(n)] else Decimal(n / 10) + [DigitChar(n % 10)]
  }

  /** The value of a string of decimal digits, read most significant first. */
  function DigitsValue(s: string): int {
    if s == [] then 0 else DigitsValue(s[..|s| - 1]) * 10 + (s[|s| - 1] as int - '0' as int)
  }

  /** The characters of `s` other than the group separator ".". */
  function WithoutDots(s: string): string {
    if s == [] then []
    else (if s[0] == '.' then [] else [s[0]]) + WithoutDots(s[1..])
  }

  /** Reads back what `FmtInt` writes: an optional "-", then digit groups. */
  function ParseGrouped(s: string): int {
    if s != [] && s[0] == '-' then -DigitsValue(WithoutDots(s[1..])) else DigitsValue(WithoutDots(s))
  }

  /** `str(n)` is a non-empty digit string without a leading zero (unless it
      is "0") whose value is `n`. */
  lemma {:induction false} DecimalSpec(n: nat)
    ensures var r := Decimal(n);
      && |r| >= 1
      && (forall i :: 0 <= i < |r| ==> IsDigit(r[i]))
      && (n >= 10 ==> r[0] != '0')
      && DigitsValue(r) == n
    decreases n
  {
    if n >= 10 {
      DecimalSpec(n / 10);
      var r := Decimal(n);
      assert r[..|r| - 1] == Decimal(n / 10);
    }
  }

  /** Groups a digit string in threes from the right, separated by ".". */
  function GroupThousands(ds: string): string
    decreases |ds|
  {
    if |ds| <= 3 then ds else GroupThousands(ds[..|ds| - 3]) + "." + ds[|ds| - 3..]
  }

  /** `fmt_int`: `f"{n:,}"` with every "," replaced by ".". */
  function FmtInt(n: int): string {
    if n < 0 then "-" + GroupThousands(Decimal(-n)) else GroupThousands(Decimal(n))
  }

  lemma {:induction false} WithoutDotsAppend(a: string, b: string)
    ensures WithoutDots(a + b) == WithoutDots(a) + WithoutDots(b)
    decreases |a|
  {
    if a == [] {
      assert a + b == b;
    } else {
      assert (a + b)[1..] == a[1..] + b;
      WithoutDotsAppend(a[1..], b);
    }
  }

  lemma {:induction false} WithoutDotsOfDigits(s: string)
    requires forall i :: 0 <= i < |s| ==> IsDigit(s[i])
    ensures WithoutDots(s) == s
    decreases |s|
  {
    if s != [] {
      WithoutDotsOfDigits(s[1..]);
    }
  }

  lemma {:induction false} WithoutDotsDot()
    ensures WithoutDots(".") == []
  {
    assert "."[1..] == [];
  }

  lemma {:induction false} WithoutDotsSeparated(g: string, tail: string)
    requires forall i :: 0 <= i < |tail| ==> IsDigit(tail[i])
    ensures WithoutDots(g + "." + tail) == WithoutDots(g) + tail
  {
    var x := g + ".";
    WithoutDotsAppend(x, tail);
    WithoutDotsAppend(g, ".");
    WithoutDotsDot();
    WithoutDotsOfDigits(tail);
    calc {
      WithoutDots(x + tail);
      WithoutDots(x) + WithoutDots(tail);
      WithoutDots(g) + [] + tail;
    }
  }

  /** Grouping only inserts separators: taking the dots out gives back the
      digits. */
  lemma {:induction false} GroupThousandsDigits(ds: string)
    requires forall i :: 0 <= i < |ds| ==> IsDigit(ds[i])
    ensures WithoutDots(GroupThousands(ds)) == ds
    decreases |ds|
  {
    if |ds| <= 3 {
      WithoutDotsOfDigits(ds);
    } else {
      var head, tail := ds[..|ds| - 3], ds[|ds| - 3..];
      assert forall i :: 0 <= i < |head| ==> head[i] == ds[i];
      assert forall i :: 0 <= i < |tail| ==> tail[i] == ds[|ds| - 3 + i];
      GroupThousandsDigits(head);
      WithoutDotsSeparated(GroupThousands(head), tail);
      assert ds == head + tail;
    }
  }

  /** A "." stands exactly at the positions that are a multiple of four
      places from the right end. */
  lemma {:induction false} GroupThousandsDots(ds: string)
    requires forall i :: 0 <= i < |ds| ==> IsDigit(ds[i])
    ensures forall i :: 0 <= i < |GroupThousands(ds)| ==>
      (GroupThousands(ds)[i] == '.' <==> (|GroupThousands(ds)| - i) % 4 == 0)
    decreases |ds|
  {
    var r := GroupThousands(ds);
    if |ds| > 3 {
      var tail := ds[|ds| - 3..];
      var g := GroupThousands(ds[..|ds| - 3]);
      GroupThousandsDots(ds[..|ds| - 3]);
      assert r == g + "." + tail;
      forall i | 0 <= i < |r| ensures r[i] == '.' <==> (|r| - i) % 4 == 0 {
        if i < |g| {
          assert r[i] == g[i];
          ModFourShift(|g| - i);
          assert |r| - i == |g| - i + 4;
        } else if i > |g| {
          assert r[i] == tail[i - |g| - 1] == ds[|ds| - 3 + (i - |g| - 1)];
          assert 1 <= |r| - i <= 3;
        } else {
          assert |r| - i == 4;
        }
      }
    }
  }

  lemma ModFourShift(x: int)
    ensures (x + 4) % 4 == x % 4
  {
  }

  /** `fmt_int` loses nothing: reading its output back, separators dropped,
      gives the number again. */
  lemma {:induction false} FmtIntRoundTrip(n: int)
    ensures ParseGrouped(FmtInt(n)) == n
  {
    var m := if n < 0 then -n else n;
    DecimalSpec(m);
    GroupThousandsDigits(Decimal(m));
    var g := GroupThousands(Decimal(m));
    if n >= 0 && g != [] {
      assert g[0] != '-' by {
        if g[0] == '.' {
          assert WithoutDots(g) == WithoutDots(g[1..]);
        }
      }
    }
    if n < 0 {
      assert FmtInt(n) == "-" + g && ("-" + g)[1..] == g;
    }
  }

  /** The digit grouping of `fmt_int`: after an optional "-", the output is
      digits in groups, the separators sitting every fourth place from the
      right; so the leading group has one to three digits and every other
      group exactly three. */
  lemma {:induction false} FmtIntShape(n: int)
    ensures var r := FmtInt(n);
      var body := if n < 0 then r[1..] else r;
      && (n < 0 <==> r[0] == '-')
      && body != [] && body[0] != '.'
      && (forall i :: 0 <= i < |body| ==> (body[i] == '.' <==> (|body| - i) % 4 == 0))
      && (forall i :: 0 <= i < |body| ==> (body[i] == '.' || IsDigit(body[i])))
  {
    var m := if n < 0 then -n else n;
    var g := GroupThousands(Decimal(m));
    GroupedShape(m);
    if n < 0 {
      var r := FmtInt(n);
      assert r == "-" + g;
      assert r[1..] == g;
    }
  }

  /** The grouped digits of a natural number start with a digit, hold only
      digits and separators, and have a separator exactly every fourth
      place from the right. */
  lemma {:induction false} GroupedShape(m: nat)
    ensures var g := GroupThousands(Decimal(m));
      && g != [] && IsDigit(g[0])
      && (forall i :: 0 <= i < |g| ==> (g[i] == '.' <==> (|g| - i) % 4 == 0))
      && (forall i :: 0 <= i < |g| ==> (g[i] == '.' || IsDigit(g[i])))
  {
    DecimalSpec(m);
    GroupThousandsDots(Decimal(m));
    GroupedChars(Decimal(m));
  }

  lemma {:induction false} GroupedChars(ds: string)
    requires |ds| >= 1 && forall i :: 0 <= i < |ds| ==> IsDigit(ds[i])
    ensures var r := GroupThousands(ds);
      && r != [] && IsDigit(r[0])
      && forall i :: 0 <= i < |r| ==> (r[i] == '.' || IsDigit(r[i]))
    decreases |ds|
  {
    if |ds| > 3 {
      GroupedChars(ds[..|ds| - 3]);
      var g := GroupThousands(ds[..|ds| - 3]);
      var r := GroupThousands(ds);
      assert r == g + "." + ds[|ds| - 3..];
      assert r[0] == g[0];
    }
  }
}
