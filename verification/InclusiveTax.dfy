/**
 * Taking tax out of a price that already contains it (the tax-inclusive branch of
 * `computeOrderTotals` in server/domain/order-totals.ts): where the double computation is
 * exact, and how extraction and charging undo each other.
 */
module InclusiveTax {
  import opened Ieee754
  import opened Money
  import opened Quotients
  import opened Percentages

  /** `Math.round((base * rate) / (10_000 + rate))`. */
  function ExtractedTax(base: int, rate: int): int
    requires 0 <= rate
  {
    MathRound(Fl(Fl((base * rate) as real) / (10000 + rate) as real))
  }

  /** Extraction is exact for products base * rate below this one; not for this one. */
  const FIRST_WRONG_EXTRACTION: int := 4504424353260009

  // ----- Exactness -----

  lemma {:induction false} ExtractionIsRatio(base: nat, rate: nat)
    ensures base * rate >= 0 && ExtractedTax(base, rate) == RoundedRatio(base * rate, 10000 + rate)
  {
    ProductOrdered(0, base, rate);
  }

  lemma ProductOrdered(a: int, b: int, rate: int)
    requires 0 <= a <= b && 0 <= rate
    ensures 0 <= a * rate <= b * rate
  {
    assert (b - a) * rate == b * rate - a * rate;
  }

  lemma {:induction false} NearestAtMostTwice(p: nat)
    ensures NearestDouble(p) <= 2 * p
  {
    var e := GrainBinade(p);
    if e == 0 {
      SmallNearest(p);
    } else {
      var g := Grain(p);
      assert p == g * (p / g) + p % g;
      assert g * (p / g + 1) == g * (p / g) + g;
    }
  }

  /** An extracted tax stays far below 2^53. */
  lemma {:induction false} ExtractionInRange(base: nat, rate: nat)
    requires base <= MAX_SAFE && rate <= 10000
    ensures base * rate >= 0 && NearestDouble(base * rate) < TWO_53 * (10000 + rate)
  {
    ProductOrdered(0, base, rate);
    ProductOrdered(base, MAX_SAFE, rate);
    NearestAtMostTwice(base * rate);
    RangeOf(NearestDouble(base * rate), base * rate, rate);
  }

  lemma RangeOf(near: int, p: int, rate: int)
    requires near <= 2 * p && p <= MAX_SAFE * rate && 0 <= rate <= 10000
    ensures near < TWO_53 * (10000 + rate)
  {
  }

  /**
   * On every price and rate, the tax taken out is base * rate / (10000 + rate) rounded half
   * up exactly when the two double roundings leave the residue of that quotient in place.
   */
  lemma {:induction false} ExtractionExactly(base: int, rate: int)
    requires 0 <= base <= MAX_SAFE && 0 <= rate <= 10000
    ensures base * rate >= 0
    ensures IsHalfUp(base * rate, 10000 + rate, ExtractedTax(base, rate)) <==> Undisturbed(base * rate, 10000 + rate)
  {
    var p, d := base * rate, 10000 + rate;
    ExtractionInRange(base, rate);
    ExtractionIsRatio(base, rate);
    RatioExactly(p, d);
    HalfUpParts(p, d, HalfUp(p, d));
    if IsHalfUp(p, d, ExtractedTax(base, rate)) {
      HalfUpUnique(p, d, ExtractedTax(base, rate), HalfUp(p, d));
    }
  }

  /**
   * For products up to 2^53 that is a distance to the next tie; a product too close to it is
   * taxed one minor unit too much.
   */
  lemma {:induction false} ExtractionByTie(base: nat, rate: nat)
    requires rate <= 10000 && base * rate <= TWO_53
    ensures base * rate >= 0
    ensures ExtractedTax(base, rate) ==
            HalfUp(base * rate, 10000 + rate) + if ClearOfTie(base * rate, 10000 + rate) then 0 else 1
  {
    ExtractionIsRatio(base, rate);
    SmallMisses(base * rate, 10000 + rate);
  }

  lemma {:induction false} HalfUpUnique(p: int, d: int, m: int, n: int)
    requires d > 0 && IsHalfUp(p, d, m) && IsHalfUp(p, d, n)
    ensures m == n
  {
    var positive: nat := d;
    if m < n {
      Ordered(2 * m + 1, 2 * n - 1, positive);
    } else if m > n {
      Ordered(2 * n + 1, 2 * m - 1, positive);
    }
  }

  // ----- The first product too close to a tie -----

  lemma Coprime(z: int, w: int)
    requires 16387 * z == 12774 * w
    ensures z % 12774 == 0
  {
    assert z == 12774 * (1084 * z - 845 * w);
  }

  lemma GapAt16387(base: int, y: int)
    requires TWO_38 * 16387 <= 6387 * base < FIRST_WRONG_EXTRACTION
    ensures 16387 * y - 12774 * base != 1
  {
    if 16387 * y - 12774 * base == 1 {
      Coprime(549755825137 - y, 705248841907 - base);
    }
  }

  /** Below the first wrong product only the denominators next to 2^14 come close to a tie. */
  lemma {:induction false} EarlierAreClear(base: nat, rate: nat)
    requires 1 <= rate <= 10000 && base * rate < FIRST_WRONG_EXTRACTION
    ensures base * rate >= 0 && ClearOfTie(base * rate, 10000 + rate)
  {
    var p, d := base * rate, 10000 + rate;
    ProductOrdered(0, base, rate);
    var n := HalfUp(p, d);
    HalfUpParts(p, d, n);
    GapIsClear(base, rate, p, d, 2 * d - Residue(p, d), 2 * n + 1);
  }

  lemma {:induction false} GapIsClear(base: nat, rate: nat, p: nat, d: nat, gap: nat, y: nat)
    requires 1 <= rate <= 10000 && p == base * rate < FIRST_WRONG_EXTRACTION && d == 10000 + rate
    requires gap >= 1 && gap == d * y - 2 * p
    ensures p < d * TWO_38 || (p < d * (2 * TWO_38) && d < gap * 16384)
  {
    if d == 16384 {
      assert p == 6384 * base;
    } else if d == 16385 {
      assert p == 6385 * base;
    } else if d == 16386 {
      assert p == 6386 * base;
    } else if d == 16387 && p >= d * TWO_38 {
      assert p == 6387 * base;
      GapAt16387(base, y);
    }
  }

  /** So the tax taken out is exact for every product below that one. */
  lemma {:induction false} ExtractionExact(base: int, rate: int)
    requires 1 <= rate <= 10000 && 0 <= base * rate < FIRST_WRONG_EXTRACTION
    ensures IsHalfUp(base * rate, 10000 + rate, ExtractedTax(base, rate))
  {
    var p, d := base * rate, 10000 + rate;
    NonNegativeFactor(base, rate);
    EarlierAreClear(base, rate);
    ExtractionByTie(base, rate);
    HalfUpParts(p, d, HalfUp(p, d));
  }

  lemma NonNegativeFactor(base: int, rate: int)
    requires rate >= 1 && base * rate >= 0
    ensures base >= 0
  {
    if base < 0 {
      Ordered(base, -1, rate);
    }
  }

  /** At the first wrong product the extracted tax is a whole minor unit too large. */
  lemma {:induction false} ExtractionFirstWrong()
    ensures 705248841907 * 6387 == FIRST_WRONG_EXTRACTION
    ensures IsHalfUp(FIRST_WRONG_EXTRACTION, 16387, 274877912568)
    ensures ExtractedTax(705248841907, 6387) == 274877912569
  {
    FirstWrongIsNearTie(FIRST_WRONG_EXTRACTION, 16387);
    ExtractionByTie(705248841907, 6387);
  }

  lemma {:induction false} FirstWrongIsNearTie(p: nat, d: nat)
    requires p == FIRST_WRONG_EXTRACTION && d == 16387
    ensures HalfUp(p, d) == 274877912568 && !ClearOfTie(p, d)
  {
    assert Residue(p, d) == 2 * d - 1;
  }

  // ----- Both taxes on every input -----

  lemma RateFits(base: int, rate: int)
    requires 0 <= base && 0 <= rate <= 10000
    ensures 0 <= base * rate <= base * 10000
  {
    assert base * (10000 - rate) == base * 10000 - base * rate;
  }

  /** A larger amount is never charged less tax, rounding errors included. */
  lemma ChargeMonotone(a: int, b: int, rate: int)
    requires 0 <= a <= b && 0 <= rate
    ensures 0 <= RoundedRate(a * rate) <= RoundedRate(b * rate)
  {
    ProductOrdered(a, b, rate);
    RateMonotone(0, a * rate);
    RateMonotone(a * rate, b * rate);
    RateOfZero();
  }

  lemma RateOfZero()
    ensures Fl(0.0) == 0.0 && RoundedRate(0) == 0
  {
    WholeIsDouble(0);
    FlExact(0.0);
  }

  lemma FlNonNegative(x: real)
    requires x >= 0.0
    ensures Fl(x) >= 0.0
  {
    WholeIsDouble(0);
    FlBounded(x, 0.0);
  }

  lemma RateMonotone(p: int, q: int)
    requires 0 <= p <= q
    ensures RoundedRate(p) <= RoundedRate(q)
  {
    FlNonNegative(p as real);
    FlMonotone(p as real, q as real);
    RoundedOrdered(Fl(p as real), Fl(q as real));
  }

  lemma RoundedOrdered(x: real, y: real)
    requires 0.0 <= x <= y
    ensures RoundSymmetric(Fl(x / 10000.0)) <= RoundSymmetric(Fl(y / 10000.0))
  {
    FlNonNegative(x / 10000.0);
    FlMonotone(x / 10000.0, y / 10000.0);
  }

  lemma FlAtMostDouble(p: int)
    requires 0 <= p <= MAX_SAFE * 10000
    ensures 0.0 <= Fl(p as real) <= 2.0 * p as real
  {
    FlNonNegative(p as real);
    if p <= TWO_53 {
      WholeIsDouble(p);
      FlExact(p as real);
    } else {
      Pow2Plus53(14);
      Pow2Plus13(0);
      Pow2Step(13);
      FlError(p as real, 14);
    }
  }

  lemma QuotientAtMost(x: real, d: int, bound: int)
    requires d > 0 && 0.0 <= x <= (d * bound) as real
    ensures 0.0 <= x / d as real <= bound as real
  {
    var q := x / d as real;
    DivTimes(x, d as real);
    assert (d * bound) as real == bound as real * d as real;
    TimesMonotone(q, bound as real, d as real);
    TimesMonotone(0.0, q, d as real);
  }

  lemma RoundedWithin(x: real, bound: int)
    requires 0.0 <= x <= bound as real && 0 <= bound <= MAX_SAFE
    ensures 0 <= MathRound(Fl(x)) <= bound
  {
    WholeIsDouble(0);
    WholeIsDouble(bound);
    FlBounded(x, 0.0);
    FlBounded(x, bound as real);
  }

  /** The extracted tax is never negative and never more than the price. */
  lemma ExtractionBounded(base: int, rate: int)
    requires 0 <= base <= MAX_SAFE && 0 <= rate <= 10000
    ensures 0 <= ExtractedTax(base, rate) <= base
  {
    var p, d := base * rate, 10000 + rate;
    RateFits(base, rate);
    FlAtMostDouble(p);
    Distributes(10000, rate, base);
    QuotientAtMost(Fl(p as real), d, base);
    RoundedWithin(Fl(p as real) / d as real, base);
  }

  // ----- Charging and extracting undo each other -----

  /** With t = net * rate / 10000 rounded, t is also (net + t) * rate / (10000 + rate) rounded. */
  lemma ChargedIsHalfUp(net: int, rate: int, t: int)
    requires 1 <= rate <= 10000 && t >= 0 && -5000 <= 10000 * t - net * rate <= 5000
    ensures IsHalfUp((net + t) * rate, 10000 + rate, t)
  {
    Distributes(net, t, rate);
    TwiceTimes(10000 + rate, t);
    assert (10000 + rate) * t == 10000 * t + t * rate;
  }

  /**
   * Where the charged tax is exact, taking it out of the sum again gives the same tax exactly
   * when the extraction is exact too.
   */
  lemma ExtractionUndoesExactly(net: int, rate: int)
    requires 0 <= net && 1 <= rate <= 10000 && RoundedRate(net * rate) == HalfAway(net * rate)
    requires net + RoundedRate(net * rate) <= MAX_SAFE
    ensures var t := RoundedRate(net * rate);
            && t >= 0 && (net + t) * rate >= 0
            && (ExtractedTax(net + t, rate) == t <==> Undisturbed((net + t) * rate, 10000 + rate))
  {
    var t := RoundedRate(net * rate);
    ProductOrdered(0, net, rate);
    HalfAwayCharacterised(net * rate, t);
    ProductOrdered(0, net + t, rate);
    ChargedIsHalfUp(net, rate, t);
    GivenExactly(net + t, rate, t);
  }

  lemma GivenExactly(base: int, rate: int, t: int)
    requires 0 <= base <= MAX_SAFE && 1 <= rate <= 10000 && IsHalfUp(base * rate, 10000 + rate, t)
    ensures base * rate >= 0
    ensures ExtractedTax(base, rate) == t <==> Undisturbed(base * rate, 10000 + rate)
  {
    ExtractionExactly(base, rate);
    if IsHalfUp(base * rate, 10000 + rate, ExtractedTax(base, rate)) {
      HalfUpUnique(base * rate, 10000 + rate, ExtractedTax(base, rate), t);
    }
  }

  /** Charging tax on a net amount and taking it out of the sum again gives the same tax. */
  lemma ExtractionUndoesCharge(net: int, rate: int)
    requires 0 <= net && 1 <= rate <= 10000 && net * rate < FIRST_WRONG_PRODUCT
    requires (net + RoundedRate(net * rate)) * rate < FIRST_WRONG_EXTRACTION
    ensures ExtractedTax(net + RoundedRate(net * rate), rate) == RoundedRate(net * rate)
  {
    var t := RoundedRate(net * rate);
    ProductOrdered(0, net, rate);
    NonNegativeProduct(net * rate);
    HalfAwayCharacterised(net * rate, t);
    ProductOrdered(0, net + t, rate);
    ChargedIsHalfUp(net, rate, t);
    ExactlyThis(net + t, rate, t);
  }

  lemma ExactlyThis(base: int, rate: int, t: int)
    requires 1 <= rate <= 10000 && 0 <= base * rate < FIRST_WRONG_EXTRACTION && IsHalfUp(base * rate, 10000 + rate, t)
    ensures ExtractedTax(base, rate) == t
  {
    ExtractionExact(base, rate);
    HalfUpUnique(base * rate, 10000 + rate, ExtractedTax(base, rate), t);
  }

  /** The extracted tax is the rate on the rest, to within (10000 + rate) / 20000. */
  lemma ExtractedRate(base: int, rate: int, t: int)
    requires 1 <= rate && IsHalfUp(base * rate, 10000 + rate, t)
    ensures -(10000 + rate) <= 2 * ((base - t) * rate - 10000 * t) < 10000 + rate
  {
    Distributes(base - t, t, rate);
    TwiceTimes(10000 + rate, t);
    assert (10000 + rate) * t == 10000 * t + t * rate;
  }

  /**
   * Taking tax out of a price and charging it on the rest gives back the tax to within one
   * minor unit, and exactly for the prices that charging some net amount leads to.
   */
  lemma ChargeAfterExtraction(base: int, rate: int)
    requires 0 <= base <= MAX_SAFE && 1 <= rate <= 10000 && base * rate < FIRST_WRONG_EXTRACTION
    ensures var t := ExtractedTax(base, rate);
            var again := RoundedRate((base - t) * rate);
            && -1 <= again - t <= 1
            && (again == t <==> exists net :: 0 <= net <= base && net + RoundedRate(net * rate) == base)
  {
    var t := ExtractedTax(base, rate);
    ChargeNearExtraction(base, rate, t);
    forall net | 0 <= net <= base && net + RoundedRate(net * rate) == base
      ensures RoundedRate((base - t) * rate) == t
    {
      ProductOrdered(net, base, rate);
      ExtractionUndoesCharge(net, rate);
    }
    assert 0 <= base - t <= base;
  }

  lemma ChargeNearExtraction(base: int, rate: int, t: int)
    requires 0 <= base <= MAX_SAFE && 1 <= rate <= 10000 && base * rate < FIRST_WRONG_EXTRACTION
    requires t == ExtractedTax(base, rate)
    ensures 0 <= t <= base && -1 <= RoundedRate((base - t) * rate) - t <= 1
  {
    ProductOrdered(0, base, rate);
    ExtractionExact(base, rate);
    ExtractionBounded(base, rate);
    ExtractedRate(base, rate, t);
    ProductOrdered(base - t, base, rate);
    NonNegativeProduct((base - t) * rate);
  }
}
