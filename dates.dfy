/** The order SQLite uses for the `date TEXT` column, and why it is calendar order.
    The events table keeps dates as ISO `YYYY-MM-DD` strings and every query sorts with
    `ORDER BY date`. SQLite compares TEXT under the BINARY collation: byte by byte on the
    UTF-8 encoding, a proper prefix first. UTF-8 keeps the order of code points, so this is
    the lexicographic order on the string's characters. */
module Dates {

  /** `a <= b` as SQLite's BINARY collation orders two TEXT values. */
  predicate TextLe(a: string, b: string)
    decreases |a|
  {
    a == [] || (b != [] && (a[0] < b[0] || (a[0] == b[0] && TextLe(a[1..], b[1..]))))
  }

  lemma {:induction false} TextLeReflexive(a: string)
    ensures TextLe(a, a)
    decreases |a|
  {
    if a != [] {
      TextLeReflexive(a[1..]);
    }
  }

  lemma {:induction false} TextLeTotal(a: string, b: string)
    ensures TextLe(a, b) || TextLe(b, a)
    decreases |a|
  {
    if a != [] && b != [] && a[0] == b[0] {
      TextLeTotal(a[1..], b[1..]);
    }
  }

  lemma {:induction false} TextLeTransitive(a: string, b: string, c: string)
    requires TextLe(a, b) && TextLe(b, c)
    ensures TextLe(a, c)
    decreases |a|
  {
    if a != [] && a[0] == b[0] && b[0] == c[0] {
      TextLeTransitive(a[1..], b[1..], c[1..]);
    }
  }

  lemma {:induction false} TextLeAntisymmetric(a: string, b: string)
    requires TextLe(a, b) && TextLe(b, a)
    ensures a == b
    decreases |a|
  {
    if a != [] {
      TextLeAntisymmetric(a[1..], b[1..]);
      assert a == [a[0]] + a[1..] && b == [b[0]] + b[1..];
    }
  }

  /** Comparing two strings whose first parts have the same length: the first parts decide,
      unless they are equal, and then the rests decide. */
  lemma {:induction false} TextLeConcat(p: string, s: string, q: string, t: string)
    requires |p| == |q|
    ensures TextLe(p + s, q + t) <==> (p != q && TextLe(p, q)) || (p == q && TextLe(s, t))
    decreases |p|
  {
    if p == [] {
      assert p + s == s && q + t == t;
    } else {
      assert (p + s)[0] == p[0] && (p + s)[1..] == p[1..] + s;
      assert (q + t)[0] == q[0] && (q + t)[1..] == q[1..] + t;
      assert p == [p[0]] + p[1..] && q == [q[0]] + q[1..];
      TextLeConcat(p[1..], s, q[1..], t);
    }
  }

  predicate IsDigit(c: char) {
    '0' <= c <= '9'
  }

  predicate AllDigits(s: string) {
    forall i :: 0 <= i < |s| ==> IsDigit(s[i])
  }

  function Pow10(n: nat): nat
  {
    if n == 0 then 1 else 10 * Pow10(n - 1)
  }

  /** The number a string of decimal digits denotes, most significant digit first. */
  function DigitsValue(s: string): nat
    requires AllDigits(s)
    decreases |s|
  {
    if s == [] then 0 else ((s[0] as int) - ('0' as int)) * Pow10(|s| - 1) + DigitsValue(s[1..])
  }

  lemma {:induction false} DigitsValueBound(s: string)
    requires AllDigits(s)
    ensures DigitsValue(s) < Pow10(|s|)
    decreases |s|
  {
    if s != [] {
      DigitsValueBound(s[1..]);
      assert IsDigit(s[0]);
      LeadingDigitBound((s[0] as int) - ('0' as int), DigitsValue(s[1..]), Pow10(|s| - 1));
    }
  }

  lemma LeadingDigitBound(d: int, rest: int, p: int)
    requires 0 <= d <= 9 && 0 <= rest < p
    ensures d * p + rest < 10 * p
  {
    assert d * p <= 9 * p;
  }

  /** A number whose leading digit is smaller is smaller, whatever the lower digits. */
  lemma LeadingDigitDecides(da: int, ra: int, db: int, rb: int, p: int)
    requires 0 <= ra < p && 0 <= rb < p && da < db
    ensures da * p + ra < db * p + rb
  {
    assert (da + 1) * p <= db * p;
  }

  /** For digit strings of one length, TEXT order is numeric order, and equal strings are
      exactly the equal numbers. */
  lemma {:induction false} DigitsOrder(a: string, b: string)
    requires AllDigits(a) && AllDigits(b) && |a| == |b|
    ensures TextLe(a, b) <==> DigitsValue(a) <= DigitsValue(b)
    ensures a == b <==> DigitsValue(a) == DigitsValue(b)
    decreases |a|
  {
    if a != [] {
      var da, db := (a[0] as int) - ('0' as int), (b[0] as int) - ('0' as int);
      var p := Pow10(|a| - 1);
      assert DigitsValue(a) == da * p + DigitsValue(a[1..]);
      assert DigitsValue(b) == db * p + DigitsValue(b[1..]);
      DigitsValueBound(a[1..]);
      DigitsValueBound(b[1..]);
      if da < db {
        LeadingDigitDecides(da, DigitsValue(a[1..]), db, DigitsValue(b[1..]), p);
      } else if db < da {
        LeadingDigitDecides(db, DigitsValue(b[1..]), da, DigitsValue(a[1..]), p);
      } else {
        assert a[0] == b[0];
        DigitsOrder(a[1..], b[1..]);
        assert a == [a[0]] + a[1..] && b == [b[0]] + b[1..];
      }
    }
  }

  /** The shape Python's `str(date)` produces: four, two and two digits split by dashes. */
  predicate IsIsoDate(s: string) {
    |s| == 10 && AllDigits(s[..4]) && s[4] == '-' && AllDigits(s[5..7]) && s[7] == '-' && AllDigits(s[8..])
  }

  function Year(s: string): nat
    requires IsIsoDate(s)
  {
    DigitsValue(s[..4])
  }

  function Month(s: string): nat
    requires IsIsoDate(s)
  {
    DigitsValue(s[5..7])
  }

  function Day(s: string): nat
    requires IsIsoDate(s)
  {
    DigitsValue(s[8..])
  }

  /** Calendar order: by year, then month, then day. */
  predicate CalendarLe(a: string, b: string)
    requires IsIsoDate(a) && IsIsoDate(b)
  {
    Year(a) < Year(b) || (Year(a) == Year(b) && (Month(a) < Month(b) || (Month(a) == Month(b) && Day(a) <= Day(b))))
  }

  /** `ORDER BY date` on ISO date strings sorts by calendar date. */
  lemma IsoDateOrder(a: string, b: string)
    requires IsIsoDate(a) && IsIsoDate(b)
    ensures TextLe(a, b) <==> CalendarLe(a, b)
  {
    assert a == a[..4] + a[4..] && b == b[..4] + b[4..];
    assert a[4..] == a[4..5] + a[5..] && b[4..] == b[4..5] + b[5..];
    assert a[5..] == a[5..7] + a[7..] && b[5..] == b[5..7] + b[7..];
    assert a[7..] == a[7..8] + a[8..] && b[7..] == b[7..8] + b[8..];
    assert a[4..5] == b[4..5] && a[7..8] == b[7..8];
    TextLeConcat(a[..4], a[4..], b[..4], b[4..]);
    TextLeConcat(a[4..5], a[5..], b[4..5], b[5..]);
    TextLeConcat(a[5..7], a[7..], b[5..7], b[7..]);
    TextLeConcat(a[7..8], a[8..], b[7..8], b[8..]);
    DigitsOrder(a[..4], b[..4]);
    DigitsOrder(a[5..7], b[5..7]);
    DigitsOrder(a[8..], b[8..]);
  }
}
