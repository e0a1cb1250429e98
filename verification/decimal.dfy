/**
 * Exact decimal numbers. The analyzer keeps prices and costs as PHP floats;
 * here they are fixed-point numbers `units / 10^places`, so that sums are
 * exact, together with the textual forms the analyzer reads and writes:
 * the `(float)` / `(int)` casts of a CSV cell and the `(string)` cast of a
 * number.
 */
module Decimal {

  predicate IsDigit(c: char) { '0' <= c <= '9' }

  predicate AllDigits(s: string) { forall i :: 0 <= i < |s| ==> IsDigit(s[i]) }

  function Pow10(n: nat): (r: nat)
    ensures r >= 1
  {
    if n == 0 then 1 else 10 * Pow10(n - 1)
  }

  lemma {:induction false} Pow10Add(a: nat, b: nat)
    ensures Pow10(a + b) == Pow10(a) * Pow10(b)
  {
    if b > 0 {
      Pow10Add(a, b - 1);
      calc {
        Pow10(a + b);
        10 * Pow10(a + b - 1);
        10 * (Pow10(a) * Pow10(b - 1));
        Pow10(a) * (10 * Pow10(b - 1));
        Pow10(a) * Pow10(b);
      }
    }
  }

  /** The natural number a string of decimal digits denotes (leading zeros allowed). */
  function DigitsValue(s: string): nat
    requires AllDigits(s)
  {
    if s == [] then 0 else DigitsValue(s[..|s| - 1]) * 10 + (s[|s| - 1] as int - '0' as int)
  }

  lemma ShiftDigit(x: int, p: int, y: int, c: int)
    ensures (x * p + y) * 10 + c == x * (p * 10) + (y * 10 + c)
  {
  }

  lemma {:induction false} DigitsValueConcat(a: string, b: string)
    requires AllDigits(a) && AllDigits(b)
    ensures AllDigits(a + b)
    ensures DigitsValue(a + b) == DigitsValue(a) * Pow10(|b|) + DigitsValue(b)
  {
    if b == [] {
      assert a + b == a;
    } else {
      var b' := b[..|b| - 1];
      var c := b[|b| - 1] as int - '0' as int;
      assert (a + b)[..|a + b| - 1] == a + b';
      assert (a + b)[|a + b| - 1] == b[|b| - 1];
      DigitsValueConcat(a, b');
      assert DigitsValue(a + b) == DigitsValue(a + b') * 10 + c;
      assert DigitsValue(b) == DigitsValue(b') * 10 + c;
      assert Pow10(|b|) == Pow10(|b'|) * 10;
      ShiftDigit(DigitsValue(a), Pow10(|b'|), DigitsValue(b'), c);
    }
  }

  /** `n` written in decimal, most significant digit first, without leading zeros. */
  function NatToString(n: nat): (s: string)
    ensures |s| >= 1 && AllDigits(s)
    ensures DigitsValue(s) == n
    ensures n > 0 ==> s[0] != '0'
    decreases n
  {
    if n < 10 then [('0' as int + n) as char]
    else
      var s := NatToString(n / 10) + [('0' as int + n % 10) as char];
      assert s[..|s| - 1] == NatToString(n / 10);
      assert s[0] == NatToString(n / 10)[0];
      s
  }

  lemma {:induction false} NatToStringLength(n: nat, p: nat)
    requires 1 <= p && n < Pow10(p)
    ensures |NatToString(n)| <= p
  {
    if n >= 10 {
      assert p >= 2;
      assert n / 10 < Pow10(p - 1);
      NatToStringLength(n / 10, p - 1);
    }
  }

  /** `n` zero characters: PHP's `str_pad("", n, "0")` for `n >= 0`. */
  function Zeros(n: nat): (z: string)
    ensures |z| == n && AllDigits(z)
    ensures forall i :: 0 <= i < n ==> z[i] == '0'
    ensures DigitsValue(z) == 0
  {
    if n == 0 then []
    else
      var z := Zeros(n - 1) + ['0'];
      assert z[..n - 1] == Zeros(n - 1);
      z
  }

  /** `s` left-padded with zeros to width `w`. */
  function PadLeft(s: string, w: nat): (r: string)
    requires AllDigits(s) && |s| <= w
    ensures |r| == w && AllDigits(r)
    ensures DigitsValue(r) == DigitsValue(s)
  {
    DigitsValueConcat(Zeros(w - |s|), s);
    Zeros(w - |s|) + s
  }

  /** The number `units / 10^places`; prices and costs are never negative. */
  datatype Fixed = Fixed(units: nat, places: nat)

  const Zero := Fixed(0, 0)

  function Value(x: Fixed): real
  {
    x.units as real / Pow10(x.places) as real
  }

  /** The shortest form of a number: no trailing zero after the point. */
  predicate IsCanonical(x: Fixed)
  {
    x.places == 0 || x.units % 10 != 0
  }

  lemma RealCancel(a: real, b: real, c: real)
    requires b > 0.0 && c > 0.0
    ensures (a * c) / (b * c) == a / b
  {
    var q := a / b;
    assert a == q * b;
    assert a * c == q * (b * c);
  }

  lemma MulAsReal(x: nat, y: nat)
    ensures (x * y) as real == x as real * y as real
  {
  }

  /** Appending `k` zeros to the digits and `k` to the places keeps the value. */
  lemma ValueRescale(u: nat, p: nat, k: nat)
    ensures Value(Fixed(u * Pow10(k), p + k)) == Value(Fixed(u, p))
  {
    Pow10Add(p, k);
    MulAsReal(u, Pow10(k));
    MulAsReal(Pow10(p), Pow10(k));
    RealCancel(u as real, Pow10(p) as real, Pow10(k) as real);
  }

  /** Drops trailing zeros after the point. */
  function Canonical(x: Fixed): (r: Fixed)
    ensures IsCanonical(r)
    ensures r.places <= x.places
    decreases x.places
  {
    if x.places > 0 && x.units % 10 == 0 then Canonical(Fixed(x.units / 10, x.places - 1))
    else x
  }

  /** Dropping trailing zeros keeps the value. */
  lemma {:induction false} CanonicalValue(x: Fixed)
    ensures Value(Canonical(x)) == Value(x)
    decreases x.places
  {
    if x.places > 0 && x.units % 10 == 0 {
      var y := Fixed(x.units / 10, x.places - 1);
      ValueRescale(y.units, y.places, 1);
      assert y.units * Pow10(1) == x.units;
      CanonicalValue(y);
    }
  }

  /** `a` followed by `n` zeros. */
  function Shift(a: nat, n: nat): nat
  {
    a * Pow10(n)
  }

  /** `q * a + m == u` survives multiplying through by `b`. */
  lemma ShiftSum(q: int, m: int, u: int, a: int, b: int, ab: int)
    requires q * a + m == u && ab == a * b
    ensures q * ab + m * b == u * b
  {
    assert q * ab == q * a * b;
    assert (q * a + m) * b == q * a * b + m * b;
  }

  /** Brings `x` to `p` places. */
  function Rescale(x: Fixed, p: nat): (r: Fixed)
    requires x.places <= p
    ensures r.places == p
  {
    Fixed(Shift(x.units, p - x.places), p)
  }

  /** Rescaling keeps the value. */
  lemma RescaleValue(x: Fixed, p: nat)
    requires x.places <= p
    ensures Value(Rescale(x, p)) == Value(x)
  {
    ValueRescale(x.units, x.places, p - x.places);
  }

  lemma DivAdd(a: real, b: real, d: real)
    requires d > 0.0
    ensures (a + b) / d == a / d + b / d
  {
  }

  lemma DivScale(n: real, a: real, d: real)
    requires d > 0.0
    ensures (n * a) / d == n * (a / d)
  {
  }

  /** Exact sum, at the larger number of places. */
  function Add(x: Fixed, y: Fixed): (r: Fixed)
    ensures r.places == if x.places < y.places then y.places else x.places
  {
    var p := if x.places < y.places then y.places else x.places;
    Fixed(Rescale(x, p).units + Rescale(y, p).units, p)
  }

  /** The sum is exact. */
  lemma AddValue(x: Fixed, y: Fixed)
    ensures Value(Add(x, y)) == Value(x) + Value(y)
  {
    var p := if x.places < y.places then y.places else x.places;
    var x', y' := Rescale(x, p), Rescale(y, p);
    RescaleValue(x, p);
    RescaleValue(y, p);
    DivAdd(x'.units as real, y'.units as real, Pow10(p) as real);
  }

  /** Exact product of a count and a number, at the number's places. */
  function Scale(n: nat, x: Fixed): (r: Fixed)
    ensures r.places == x.places
  {
    Fixed(n * x.units, x.places)
  }

  /** The product is exact. */
  lemma ScaleValue(n: nat, x: Fixed)
    ensures Value(Scale(n, x)) == n as real * Value(x)
  {
    MulAsReal(n, x.units);
    DivScale(n as real, x.units as real, Pow10(x.places) as real);
  }

  /** Integer quotient of naturals. */
  function Quot(a: nat, b: nat): nat
    requires b >= 1
  {
    a / b
  }

  /** The whole part of `x`: its digits before the point. */
  function Whole(x: Fixed): nat
  {
    Quot(x.units, Pow10(x.places))
  }

  lemma DivMod(a: nat, p: nat)
    ensures a % Pow10(p) < Pow10(p)
    ensures Quot(a, Pow10(p)) * Pow10(p) + a % Pow10(p) == a
  {
  }

  /** The `places` digits after the point of `units / 10^places`. */
  function FractionDigits(units: nat, places: nat): (f: string)
    requires places >= 1
    ensures |f| == places && AllDigits(f)
    ensures DigitsValue(f) == units % Pow10(places)
  {
    DivMod(units, places);
    NatToStringLength(units % Pow10(places), places);
    PadLeft(NatToString(units % Pow10(places)), places)
  }

  /**
   * PHP's `(string)` of a number: the canonical digits, a point only when
   * there is a fraction, no exponent.
   */
  function Render(x: Fixed): (s: string)
    ensures ParseDecimal(s) == Canonical(x)
  {
    var c := Canonical(x);
    if c.places == 0 then
      ParseDecimalWhole(NatToString(c.units));
      NatToString(c.units)
    else
      var w, f := NatToString(Whole(c)), FractionDigits(c.units, c.places);
      ParseDecimalParts(w, f);
      DivMod(c.units, c.places);
      w + "." + f
  }

  /** What `(string)` writes for a number with a fraction: whole part, point, fraction digits. */
  lemma RenderPointed(x: Fixed, c: Fixed)
    requires c == Canonical(x) && c.places > 0
    ensures Render(x) == NatToString(Whole(c)) + "." + FractionDigits(c.units, c.places)
  {
  }

  /** Length of the longest prefix of `s` made of digits. */
  function LeadingDigits(s: string): (n: nat)
    ensures n <= |s| && AllDigits(s[..n])
    ensures n < |s| ==> !IsDigit(s[n])
  {
    if s == [] || !IsDigit(s[0]) then 0
    else
      var n := 1 + LeadingDigits(s[1..]);
      assert s[..n] == [s[0]] + s[1..][..n - 1];
      n
  }

  /** PHP's `(int)` cast of a cell: the leading digits, 0 when there are none. */
  function ParseNat(s: string): (n: nat)
    ensures AllDigits(s) ==> n == DigitsValue(s)
    ensures s == [] || !IsDigit(s[0]) ==> n == 0
  {
    var i := LeadingDigits(s);
    assert AllDigits(s) ==> s[..i] == s by {
      if AllDigits(s) {
        LeadingDigitsAll(s);
      }
    }
    DigitsValue(s[..i])
  }

  /** PHP's `(float)` cast of a cell: leading digits, then an optional point and more digits. */
  function ParseDecimal(s: string): (x: Fixed)
  {
    var i := LeadingDigits(s);
    var whole := DigitsValue(s[..i]);
    if i < |s| && s[i] == '.' then
      var rest := s[i + 1..];
      var f := LeadingDigits(rest);
      Fixed(whole * Pow10(f) + DigitsValue(rest[..f]), f)
    else Fixed(whole, 0)
  }

  lemma {:induction false} LeadingDigitsOfDigits(w: string, rest: string)
    requires AllDigits(w)
    requires rest == [] || !IsDigit(rest[0])
    ensures LeadingDigits(w + rest) == |w|
  {
    if w == [] {
      assert w + rest == rest;
    } else {
      assert (w + rest)[1..] == w[1..] + rest;
      LeadingDigitsOfDigits(w[1..], rest);
    }
  }

  lemma LeadingDigitsAll(s: string)
    requires AllDigits(s)
    ensures LeadingDigits(s) == |s|
  {
    LeadingDigitsOfDigits(s, []);
    assert s + [] == s;
  }

  /** Reading back `w.f`, with `w` and `f` digit strings. */
  lemma ParseDecimalParts(w: string, f: string)
    requires AllDigits(w) && AllDigits(f)
    ensures ParseDecimal(w + "." + f) == Fixed(DigitsValue(w) * Pow10(|f|) + DigitsValue(f), |f|)
  {
    var s := w + "." + f;
    assert s == w + ("." + f);
    LeadingDigitsOfDigits(w, "." + f);
    var i := LeadingDigits(s);
    assert s[..i] == w;
    assert s[i + 1..] == f;
    LeadingDigitsAll(f);
    assert f[..|f|] == f;
  }

  /** A cell without a point: the `(float)` cast reads the same whole number as the `(int)` cast. */
  lemma ParseDecimalNoPoint(s: string)
    requires '.' !in s
    ensures ParseDecimal(s) == Fixed(ParseNat(s), 0)
  {
  }

  /** Reading back a string of digits alone. */
  lemma ParseDecimalWhole(w: string)
    requires AllDigits(w)
    ensures ParseDecimal(w) == Fixed(DigitsValue(w), 0)
  {
    LeadingDigitsAll(w);
    assert w[..|w|] == w;
  }

  /**
   * `strpos(strrev(s), ".")` cast to int: how many characters follow the
   * last point of `s`, and 0 when there is no point.
   */
  function DecimalPlaces(s: string): (n: nat)
    ensures ('.' !in s && n == 0) || (n < |s| && s[|s| - 1 - n] == '.' && '.' !in s[|s| - n..])
  {
    if '.' !in s then 0
    else if s[|s| - 1] == '.' then 0
    else
      var s' := s[..|s| - 1];
      assert '.' in s';
      var n := 1 + DecimalPlaces(s');
      assert s[|s| - n..] == s'[|s'| - (n - 1)..] + [s[|s| - 1]];
      n
  }

  lemma DecimalPlacesNoPoint(s: string)
    requires '.' !in s
    ensures DecimalPlaces(s) == 0
  {
  }

  lemma {:induction false} DecimalPlacesAfterPoint(a: string, b: string)
    requires '.' !in b
    ensures DecimalPlaces(a + "." + b) == |b|
  {
    var s := a + "." + b;
    assert s[|a|] == '.';
    if b != [] {
      var b' := b[..|b| - 1];
      assert s[..|s| - 1] == a + "." + b';
      assert s[|s| - 1] == b[|b| - 1];
      DecimalPlacesAfterPoint(a, b');
    }
  }

  lemma DigitsHaveNoPoint(s: string)
    requires AllDigits(s)
    ensures '.' !in s
  {
    forall i | 0 <= i < |s|
      ensures s[i] != '.'
    {
      assert IsDigit(s[i]);
    }
  }

  /** What `(string)` wrote has as many decimals as the canonical form has places. */
  lemma DecimalPlacesOfRender(x: Fixed)
    ensures DecimalPlaces(Render(x)) == Canonical(x).places
  {
    var c := Canonical(x);
    if c.places == 0 {
      DigitsHaveNoPoint(NatToString(c.units));
      DecimalPlacesNoPoint(NatToString(c.units));
    } else {
      var w, f := NatToString(Whole(c)), FractionDigits(c.units, c.places);
      assert Render(x) == w + "." + f;
      DigitsHaveNoPoint(f);
      DecimalPlacesAfterPoint(w, f);
    }
  }
}
