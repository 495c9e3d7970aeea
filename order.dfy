/// Python's ordering of strings and `sorted(set(...))`, which the dashboard
/// uses for the list of selectable states (app.py:284) and for the fallback
/// order of note types (app.py:364).
module Order {

  /** Python's `<` on `str`: lexicographic order of code points, a proper
      prefix coming first. */
  predicate Less(a: string, b: string)
    decreases |a|
  {
    if a == [] then b != []
    else if b == [] then false
    else if a[0] != b[0] then a[0] < b[0]
    else Less(a[1..], b[1..])
  }

  lemma {:induction false} LessIrreflexive(a: string)
    ensures !Less(a, a)
    decreases |a|
  {
    if a != [] {
      LessIrreflexive(a[1..]);
    }
  }

  lemma {:induction false} LessTransitive(a: string, b: string, c: string)
    requires Less(a, b) && Less(b, c)
    ensures Less(a, c)
    decreases |a|
  {
    if a != [] && a[0] == b[0] && b[0] == c[0] {
      LessTransitive(a[1..], b[1..], c[1..]);
    }
  }

  lemma {:induction false} LessTotal(a: string, b: string)
    requires a != b
    ensures Less(a, b) || Less(b, a)
    decreases |a|
  {
    if a != [] && b != [] && a[0] == b[0] {
      assert a == [a[0]] + a[1..] && b == [b[0]] + b[1..];
      LessTotal(a[1..], b[1..]);
    }
  }

  /** Every element is below every later one: sorted, without repeats. */
  predicate StrictlySorted(xs: seq<string>) {
    forall i, j :: 0 <= i < j < |xs| ==> Less(xs[i], xs[j])
  }

  /** Places `x` into a strictly sorted list, unless it is already there. */
  function Insert(x: string, xs: seq<string>): seq<string> {
    if xs == [] then [x]
    else if x == xs[0] then xs
    else if Less(x, xs[0]) then [x] + xs
    else [xs[0]] + Insert(x, xs[1..])
  }

  lemma {:induction false} InsertSorted(x: string, xs: seq<string>)
    requires StrictlySorted(xs)
    ensures StrictlySorted(Insert(x, xs))
    ensures forall y :: y in Insert(x, xs) <==> y == x || y in xs
  {
    if xs == [] {
    } else if x == xs[0] {
    } else if Less(x, xs[0]) {
      var r := [x] + xs;
      forall i, j | 0 <= i < j < |r| ensures Less(r[i], r[j]) {
        if i == 0 && j > 1 {
          LessTransitive(x, xs[0], xs[j - 1]);
        }
      }
    } else {
      LessTotal(x, xs[0]);
      var tail := Insert(x, xs[1..]);
      InsertSorted(x, xs[1..]);
      var r := [xs[0]] + tail;
      forall i, j | 0 <= i < j < |r| ensures Less(r[i], r[j]) {
        if i == 0 {
          assert r[j] in tail;
        }
      }
    }
  }

  /** `sorted(set(xs))`: the distinct elements of `xs`, in increasing order. */
  function SortedDistinct(xs: seq<string>): (r: seq<string>)
    ensures StrictlySorted(r)
    ensures forall y :: y in r <==> y in xs
  {
    if xs == [] then []
    else
      var rest := SortedDistinct(xs[..|xs| - 1]);
      InsertSorted(xs[|xs| - 1], rest);
      assert xs == xs[..|xs| - 1] + [xs[|xs| - 1]];
      Insert(xs[|xs| - 1], rest)
  }

  /** A strictly sorted list is determined by its elements: whatever order the
      values were collected in, `sorted(set(...))` is the same list. */
  lemma {:induction false} SortedIsUnique(a: seq<string>, b: seq<string>)
    requires StrictlySorted(a) && StrictlySorted(b)
    requires forall y :: y in a <==> y in b
    ensures a == b
  {
    if a != [] {
      assert a[0] in b;
    }
    if b != [] {
      assert b[0] in a;
    }
    if a != [] && b != [] {
      if a[0] != b[0] {
        assert a[0] in b && b[0] in a;
        var i :| 0 <= i < |b| && b[i] == a[0];
        var j :| 0 <= j < |a| && a[j] == b[0];
        assert i > 0 && j > 0;
        LessTransitive(a[0], a[j], b[i]);
        LessIrreflexive(a[0]);
      }
      assert a == [a[0]] + a[1..] && b == [b[0]] + b[1..];
      forall y ensures y in a[1..] <==> y in b[1..] {
        if y in a[1..] {
          var k :| 1 <= k < |a| && a[k] == y;
          assert Less(a[0], a[k]);
          LessIrreflexive(a[0]);
          assert y in a && y in b;
          var m :| 0 <= m < |b| && b[m] == y;
          assert m != 0 && b[1..][m - 1] == y;
        }
        if y in b[1..] {
          var k :| 1 <= k < |b| && b[k] == y;
          assert Less(b[0], b[k]);
          LessIrreflexive(b[0]);
          assert y in b && y in a;
          var m :| 0 <= m < |a| && a[m] == y;
          assert m != 0 && a[1..][m - 1] == y;
        }
      }
      SortedIsUnique(a[1..], b[1..]);
    }
  }
}
