/**
 * The precision normalizer: the number of decimals every cost is shown with,
 * taken from the most precise unit price, and the padding of a cost string
 * to that many decimals.
 */
module Precision {
  import opened Decimal
  import opened UsageCsv

  function Max(a: nat, b: nat): nat
  {
    if a < b then b else a
  }

  /** The decimals of a row's price as the analyzer counts them: on the `(string)` of the number. */
  function PricePlaces(row: UsageRow): nat
  {
    DecimalPlaces(Render(row.unitPrice))
  }

  /** The max-fold of `array_reduce`, over the rows' decimal counts, started from `acc`. */
  function MaxFrom(acc: nat, xs: seq<nat>): (n: nat)
    ensures acc <= n
    ensures forall i :: 0 <= i < |xs| ==> xs[i] <= n
    ensures n == acc || n in xs
    decreases |xs|
  {
    if xs == [] then acc
    else
      var n := MaxFrom(if acc < xs[0] then xs[0] else acc, xs[1..]);
      assert forall i :: 0 <= i < |xs| - 1 ==> xs[1..][i] == xs[i + 1];
      assert forall x :: x in xs[1..] ==> x in xs;
      n
  }

  /** The decimal count of every row's price, in row order. */
  function PricePlacesAll(rows: seq<UsageRow>): (ps: seq<nat>)
  {
    seq(|rows|, i requires 0 <= i < |rows| => PricePlaces(rows[i]))
  }

  /**
   * The desired number of decimals: the largest number of decimals of any
   * row's price, 0 when there are no rows.
   */
  function DesiredPlaces(rows: seq<UsageRow>): (n: nat)
    ensures forall i :: 0 <= i < |rows| ==> PricePlaces(rows[i]) <= n
    ensures rows == [] ==> n == 0
    ensures n == 0 || exists i :: 0 <= i < |rows| && n == PricePlaces(rows[i])
  {
    var ps := PricePlacesAll(rows);
    var n := MaxFrom(0, ps);
    assert forall i :: 0 <= i < |rows| ==> ps[i] == PricePlaces(rows[i]);
    n
  }

  /** A price read by the row parser has as many decimals as its canonical digits. */
  lemma PricePlacesCanonical(row: UsageRow)
    requires IsCanonical(row.unitPrice)
    ensures PricePlaces(row) == row.unitPrice.places
  {
    DecimalPlacesOfRender(row.unitPrice);
  }

  /** No canonical price among the rows has more decimals than the desired number. */
  lemma DesiredPlacesBound(rows: seq<UsageRow>)
    requires forall r :: r in rows ==> IsCanonical(r.unitPrice)
    ensures forall r :: r in rows ==> r.unitPrice.places <= DesiredPlaces(rows)
  {
    forall r | r in rows
      ensures r.unitPrice.places <= DesiredPlaces(rows)
    {
      var i :| 0 <= i < |rows| && rows[i] == r;
      PricePlacesCanonical(r);
    }
  }

  lemma {:induction false} DecimalPlacesAppendDigits(s: string, z: string)
    requires '.' in s && AllDigits(z)
    ensures DecimalPlaces(s + z) == DecimalPlaces(s) + |z|
  {
    var n := DecimalPlaces(s);
    var a, b := s[..|s| - 1 - n], s[|s| - n..];
    assert s == a + "." + b;
    assert s + z == a + "." + (b + z);
    DigitsHaveNoPoint(z);
    assert '.' !in b + z;
    DecimalPlacesAfterPoint(a, b + z);
  }

  /**
   * The cost padding as the analyzer writes it: append as many "0"
   * characters as the desired decimals exceed the string's own, never
   * fewer than none, whether or not the string has a point.
   */
  function PadAsWritten(s: string, desired: nat): (r: string)
    ensures |r| == |s| + (if DecimalPlaces(s) < desired then desired - DecimalPlaces(s) else 0)
    ensures r[..|s|] == s
    ensures forall i :: |s| <= i < |r| ==> r[i] == '0'
  {
    var current := DecimalPlaces(s);
    var r := s + Zeros(if current < desired then desired - current else 0);
    assert r[..|s|] == s;
    r
  }

  /**
   * The padding as intended: like PadAsWritten, but a cost written without
   * a point gets one before its zeros.
   */
  function PadCost(s: string, desired: nat): string
  {
    if '.' in s then PadAsWritten(s, desired)
    else if desired == 0 then s
    else s + "." + Zeros(desired)
  }

  /** The padded cost has exactly the larger of its own and the desired number of decimals. */
  lemma PadCostPlaces(s: string, desired: nat)
    ensures DecimalPlaces(PadCost(s, desired)) == Max(DecimalPlaces(s), desired)
  {
    if '.' in s {
      var k := if DecimalPlaces(s) < desired then desired - DecimalPlaces(s) else 0;
      PadCostPointed(s, desired, k);
      DecimalPlacesAppendDigits(s, Zeros(k));
    } else if desired == 0 {
      DecimalPlacesNoPoint(s);
    } else {
      DecimalPlacesNoPoint(s);
      DecimalPlacesAfterPoint(s, Zeros(desired));
    }
  }

  /**
   * Padding never removes a character and only appends zeros, after a point
   * it adds first when there was none; a cost with a point gets exactly as
   * many zeros as its decimals fall short of the desired number.
   */
  lemma PadCostAppends(s: string, desired: nat)
    ensures |s| <= |PadCost(s, desired)| && PadCost(s, desired)[..|s|] == s
    ensures forall i :: |s| <= i < |PadCost(s, desired)| ==> PadCost(s, desired)[i] == (if '.' !in s && i == |s| then '.' else '0')
    ensures '.' in s ==> |PadCost(s, desired)| == |s| + (if DecimalPlaces(s) < desired then desired - DecimalPlaces(s) else 0)
    ensures '.' !in s ==> |PadCost(s, desired)| == |s| + (if desired == 0 then 0 else desired + 1)
  {
    if '.' !in s && desired > 0 {
      assert (s + "." + Zeros(desired))[..|s|] == s;
    }
  }

  /** A cost written with a point only gets zeros appended: `k` of them. */
  lemma PadCostPointed(s: string, desired: nat, k: nat)
    requires '.' in s
    requires k == if DecimalPlaces(s) < desired then desired - DecimalPlaces(s) else 0
    ensures PadCost(s, desired) == s + Zeros(k)
  {
  }

  /** Digits written without a point, padded, read as the same digits followed by `desired` zeros. */
  lemma PadWholeReadsBack(w: string, desired: nat)
    requires AllDigits(w)
    ensures ParseDecimal(PadCost(w, desired)) == Fixed(Shift(DigitsValue(w), desired), desired)
  {
    DigitsHaveNoPoint(w);
    if desired == 0 {
      ParseDecimalWhole(w);
      assert Pow10(0) == 1;
    } else {
      assert PadCost(w, desired) == w + "." + Zeros(desired);
      ParseDecimalParts(w, Zeros(desired));
    }
  }

  /** Reading `w.f` followed by `k` zeros, where `f` has `p` digits. */
  lemma ParsePadded(w: string, f: string, p: nat, k: nat)
    requires AllDigits(w) && AllDigits(f) && |f| == p
    ensures ParseDecimal(w + "." + (f + Zeros(k)))
         == Fixed(Shift(DigitsValue(w), p + k) + Shift(DigitsValue(f), k), p + k)
  {
    ParseDecimalParts(w, f + Zeros(k));
    DigitsValueConcat(f, Zeros(k));
  }

  /** `w.f`, padded with `k` zeros, reads as its digits followed by `k` zeros. */
  lemma PadPointedReadsBack(w: string, f: string, desired: nat, p: nat, k: nat)
    requires AllDigits(w) && AllDigits(f) && |f| == p
    requires k == if p < desired then desired - p else 0
    ensures ParseDecimal(PadCost(w + "." + f, desired))
         == Fixed(Shift(DigitsValue(w), p + k) + Shift(DigitsValue(f), k), p + k)
  {
    var s := w + "." + f;
    DigitsHaveNoPoint(f);
    DecimalPlacesAfterPoint(w, f);
    assert s[|w|] == '.';
    PadCostPointed(s, desired, k);
    assert s + Zeros(k) == w + "." + (f + Zeros(k));
    ParsePadded(w, f, p, k);
  }

  lemma ShiftedParts(x: Fixed, k: nat)
    ensures Shift(Whole(x), x.places + k) + Shift(x.units % Pow10(x.places), k) == Shift(x.units, k)
  {
    DivMod(x.units, x.places);
    Pow10Add(x.places, k);
    ShiftSum(Whole(x), x.units % Pow10(x.places), x.units, Pow10(x.places), Pow10(k), Pow10(x.places + k));
  }

  /** A cost `(string)` writes without a point reads back, padded, as itself followed by `k` zeros. */
  lemma PadWholeCostReadsBack(x: Fixed, desired: nat)
    requires Canonical(x).places == 0
    ensures ParseDecimal(PadCost(Render(x), desired)) == Fixed(Shift(Canonical(x).units, desired), desired)
  {
    var c := Canonical(x);
    var w := NatToString(c.units);
    assert Render(x) == w;
    PadWholeReadsBack(w, desired);
  }

  /** A cost `(string)` writes with a point reads back, padded, as itself followed by `k` zeros. */
  lemma PadPointedCostReadsBack(x: Fixed, desired: nat, k: nat)
    requires Canonical(x).places > 0
    requires k == if Canonical(x).places < desired then desired - Canonical(x).places else 0
    ensures ParseDecimal(PadCost(Render(x), desired)) == Fixed(Shift(Canonical(x).units, k), Canonical(x).places + k)
  {
    var c := Canonical(x);
    var w, f := NatToString(Whole(c)), FractionDigits(c.units, c.places);
    RenderPointed(x, c);
    PadPointedReadsBack(w, f, desired, c.places, k);
    ShiftedParts(c, k);
  }

  /** Rescaling to the larger of a number's own and the desired decimals appends `k` zeros. */
  lemma RescaleMax(c: Fixed, desired: nat, k: nat)
    requires k == if c.places < desired then desired - c.places else 0
    ensures Rescale(c, Max(c.places, desired)) == Fixed(Shift(c.units, k), c.places + k)
  {
    assert Max(c.places, desired) == c.places + k;
  }

  /** The padded `(string)` of a cost reads back as that cost followed by `k` zeros. */
  lemma PadCostShifts(x: Fixed, desired: nat, k: nat)
    requires k == if Canonical(x).places < desired then desired - Canonical(x).places else 0
    ensures ParseDecimal(PadCost(Render(x), desired)) == Fixed(Shift(Canonical(x).units, k), Canonical(x).places + k)
  {
    if Canonical(x).places == 0 {
      assert k == desired;
      PadWholeCostReadsBack(x, desired);
    } else {
      PadPointedCostReadsBack(x, desired, k);
    }
  }

  /**
   * The padded `(string)` of a cost reads back as exactly that cost, at the
   * larger of its own and the desired decimals.
   */
  lemma PadCostReadsBack(x: Fixed, desired: nat)
    ensures ParseDecimal(PadCost(Render(x), desired)) == Rescale(Canonical(x), Max(Canonical(x).places, desired))
  {
    var k := if Canonical(x).places < desired then desired - Canonical(x).places else 0;
    PadCostShifts(x, desired, k);
    RescaleMax(Canonical(x), desired, k);
  }

  /** Padding is only a change of display: the padded cost reads back as the same number. */
  lemma PadCostKeepsValue(x: Fixed, desired: nat)
    ensures Value(ParseDecimal(PadCost(Render(x), desired))) == Value(x)
  {
    var c := Canonical(x);
    PadCostReadsBack(x, desired);
    RescaleValue(c, Max(c.places, desired));
    CanonicalValue(x);
  }

  /** 125 minutes at $0.008 cost exactly $1. */
  lemma OneDollar()
    ensures Scale(125, Fixed(8, 3)) == Fixed(1000, 3) && Value(Fixed(1000, 3)) == 1.0
  {
    assert Pow10(3) == 1000;
  }

  /** $1.000 is written "1". */
  lemma RenderOneDollar()
    ensures Render(Fixed(1000, 3)) == "1"
  {
    assert Canonical(Fixed(10, 1)) == Fixed(1, 0);
    assert Canonical(Fixed(100, 2)) == Fixed(1, 0);
    assert Canonical(Fixed(1000, 3)) == Fixed(1, 0);
    assert NatToString(1) == "1";
  }

  /** "1000" reads as a thousand. */
  lemma ReadThousand()
    ensures Value(ParseDecimal("1000")) == 1000.0
  {
    ParseDecimalWhole("1000");
    assert "10"[..1] == "1";
    assert "100"[..2] == "10";
    assert "1000"[..3] == "100";
    assert DigitsValue("1000") == 1000;
  }

  /** Both paddings of "1" to three decimals. */
  lemma PadOneDollar()
    ensures PadAsWritten("1", 3) == "1000"
    ensures PadCost("1", 3) == "1.000"
  {
    DecimalPlacesNoPoint("1");
    assert Zeros(3) == "000";
    assert PadCost("1", 3) == "1" + "." + Zeros(3);
  }

  /**
   * The padding as written misreads a whole-dollar cost: 125 minutes at
   * $0.008 cost exactly $1, which `(string)` writes as "1"; with 3 desired
   * decimals the analyzer shows "1000".
   */
  lemma PadAsWrittenMisreadsWholeCost()
    ensures Scale(125, Fixed(8, 3)) == Fixed(1000, 3) && Value(Fixed(1000, 3)) == 1.0
    ensures Render(Fixed(1000, 3)) == "1"
    ensures PadAsWritten("1", 3) == "1000" && Value(ParseDecimal("1000")) == 1000.0
    ensures PadCost("1", 3) == "1.000"
  {
    OneDollar();
    RenderOneDollar();
    PadOneDollar();
    ReadThousand();
  }
}
