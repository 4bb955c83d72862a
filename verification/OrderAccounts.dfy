/**
 * What the figures of an order promise (server/domain/order-totals.ts): they account for
 * each other, do not depend on the order of the lines, fall only when delivery becomes
 * free, and the two ways of taxing undo each other.
 */
module OrderAccounts {
  import opened Text
  import opened Sequences
  import opened Money
  import opened Quotients
  import opened Percentages
  import opened InclusiveTax
  import opened OrderTotals

  /** The engine answers `t`. */
  predicate Computes(input: ChargeInput, t: Totals) {
    AmountsSafe(input) && ComputeOrderTotals(input) == Done(t)
  }

  lemma {:induction false} Answered(input: ChargeInput, t: Totals)
    requires Computes(input, t)
    ensures Allowed(input) && Fits(input) && t == Answer(input)
  {
    ComputeExact(input);
  }

  lemma {:induction false} Computable(input: ChargeInput, t: Totals)
    requires AmountsSafe(input) && Allowed(input) && Fits(input) && t == Answer(input)
    ensures Computes(input, t)
  {
    ComputeExact(input);
  }

  // ----- Accounting -----

  lemma {:induction false} AnswerAccounts(input: ChargeInput, t: Totals)
    requires Allowed(input) && Fits(input) && t == Answer(input)
    ensures var taxDue := if input.taxInclusive then 0 else t.tax.minor;
            t.total.minor == GrossTotal(input.lines) - t.discount.minor + t.deliveryFee.minor + taxDue
    ensures 0 <= t.discount.minor <= GrossTotal(input.lines)
    ensures 0 <= t.deliveryFee.minor <= t.total.minor && 0 <= t.tax.minor <= t.total.minor
    ensures DiscountTotal(input.lines) <= t.discount.minor <= DiscountTotal(input.lines) + Amount(input.discount)
  {
    FigureSigns(input);
    TaxNonNegative(Taxable(input), Rate(input));
    ExtractionBounded(Taxable(input), Rate(input));
  }

  /**
   * Gross goods less discount plus delivery plus tax charged on top is the total, and no
   * figure is negative.  Subtotal, discount, fee and tax add up to the total just when the
   * line discounts, already taken off the subtotal, equal the tax already in the prices.
   */
  lemma {:induction false} FiguresAccount(input: ChargeInput, t: Totals)
    requires Computes(input, t)
    ensures var taxDue := if input.taxInclusive then 0 else t.tax.minor;
            t.total.minor == GrossTotal(input.lines) - t.discount.minor + t.deliveryFee.minor + taxDue
    ensures 0 <= t.discount.minor <= GrossTotal(input.lines)
    ensures 0 <= t.deliveryFee.minor <= t.total.minor && 0 <= t.tax.minor <= t.total.minor
    ensures t.subtotal.minor - t.discount.minor + t.deliveryFee.minor + t.tax.minor == t.total.minor
            <==> DiscountTotal(input.lines)
                 == if input.taxInclusive then TaxOn(Taxable(input), Rate(input), true) else 0
  {
    Answered(input, t);
    AnswerAccounts(input, t);
  }

  // ----- The order of the lines -----

  lemma {:induction false} SumsWithout(lines: seq<LineInput>, k: nat)
    requires k < |lines|
    ensures GrossTotal(lines) == Gross(lines[k]) + GrossTotal(RemoveAt(lines, k))
    ensures DiscountTotal(lines) == Amount(lines[k].discount) + DiscountTotal(RemoveAt(lines, k))
  {
    if k == 0 {
      assert RemoveAt(lines, 0) == lines[1..];
    } else {
      assert RemoveAt(lines, k)[1..] == RemoveAt(lines[1..], k - 1);
      SumsWithout(lines[1..], k - 1);
    }
  }

  lemma {:induction false} SumsPermuted(a: seq<LineInput>, b: seq<LineInput>)
    requires multiset(a) == multiset(b)
    ensures GrossTotal(a) == GrossTotal(b) && DiscountTotal(a) == DiscountTotal(b)
  {
    if a == [] {
      assert |multiset(b)| == 0;
    } else {
      var k := HeadOccurs(a, b);
      SumsWithout(b, k);
      SumsPermuted(a[1..], RemoveAt(b, k));
    }
  }

  lemma {:induction false} LinesPermuted(a: seq<LineInput>, b: seq<LineInput>, currency: Currency)
    requires multiset(a) == multiset(b)
    ensures LinesAllowed(a, currency) ==> LinesAllowed(b, currency)
    ensures GrossFits(a) ==> GrossFits(b)
    ensures |a| == |b|
  {
    assert |multiset(a)| == |multiset(b)|;
    forall i | 0 <= i < |b|
      ensures b[i] in multiset(a) && exists j :: 0 <= j < |a| && a[j] == b[i]
    {
      assert b[i] in multiset(b);
    }
  }

  lemma {:induction false} SafePermuted(a: seq<LineInput>, b: seq<LineInput>)
    requires multiset(a) == multiset(b) && forall i :: 0 <= i < |a| ==> LineSafe(a[i])
    ensures forall i :: 0 <= i < |b| ==> LineSafe(b[i])
  {
    forall i | 0 <= i < |b|
      ensures LineSafe(b[i])
    {
      assert b[i] in multiset(b);
    }
  }

  lemma {:induction false} AnswerPermuted(input: ChargeInput, other: ChargeInput)
    requires Allowed(input) && Fits(input) && multiset(other.lines) == multiset(input.lines)
    requires other == input.(lines := other.lines)
    ensures Allowed(other) && Fits(other)
    ensures Answer(other) == Answer(input).(lines := PricedLines(other.lines, input.currency))
  {
    SumsPermuted(input.lines, other.lines);
    LinesPermuted(input.lines, other.lines, input.currency);
  }

  /** In whatever order the lines come, the engine answers with the same figures. */
  lemma {:induction false} LineOrderIrrelevant(input: ChargeInput, lines: seq<LineInput>, t: Totals)
    requires Computes(input, t) && multiset(lines) == multiset(input.lines)
    ensures Computes(input.(lines := lines), t.(lines := PricedLines(lines, input.currency)))
  {
    Answered(input, t);
    SafePermuted(input.lines, lines);
    AnswerPermuted(input, input.(lines := lines));
    Computable(input.(lines := lines), t.(lines := PricedLines(lines, input.currency)));
  }

  // ----- When a larger basket is cheaper -----

  lemma {:induction false} DueIncreases(a: int, b: int, rate: nat, inclusive: bool)
    requires 0 <= a && 0 <= b
    ensures Due(a, rate, inclusive) < Due(b, rate, inclusive) <==> a < b
  {
    if a <= b {
      ChargeMonotone(a, b, rate);
    } else {
      ChargeMonotone(b, a, rate);
    }
  }

  /**
   * Of two baskets under the same charges, the one with more goods is cheaper exactly when
   * only it earns free delivery and the extra goods cost less than the fee.
   */
  lemma {:induction false} CheaperBasket(input: ChargeInput, lines: seq<LineInput>, t: Totals, u: Totals)
    requires Computes(input, t) && Computes(input.(lines := lines), u)
    requires Goods(input) <= Goods(input.(lines := lines))
    ensures u.total.minor < t.total.minor <==>
            && u.freeDeliveryApplied && !t.freeDeliveryApplied
            && Goods(input.(lines := lines)) - Goods(input) < Amount(input.deliveryFee)
  {
    var other := input.(lines := lines);
    Answered(input, t);
    Answered(other, u);
    FigureSigns(input);
    FigureSigns(other);
    DueIncreases(Taxable(other), Taxable(input), Rate(input), input.taxInclusive);
  }

  // ----- Taxing -----

  /**
   * The reported tax is the exact rational rounded to the nearest minor unit, half away from
   * zero, exactly when the double roundings leave the residue of its quotient in place: with
   * denominator 10000 for tax on top, 10000 plus the rate for tax in the price.
   */
  lemma {:induction false} TaxExact(input: ChargeInput, t: Totals)
    requires Computes(input, t)
    ensures Taxable(input) * Rate(input) >= 0 && Rate(input) >= 0
    ensures var product, divisor := Taxable(input) * Rate(input), TaxDivisor(input);
            IsHalfUp(product, divisor, t.tax.minor) <==> Undisturbed(product, divisor)
  {
    Answered(input, t);
    AnswerTaxExact(input);
  }

  function TaxDivisor(input: ChargeInput): nat
    requires Rate(input) >= 0
  {
    if input.taxInclusive then 10000 + Rate(input) else 10000
  }

  lemma {:induction false} AnswerTaxExact(input: ChargeInput)
    requires Allowed(input) && Fits(input)
    ensures Taxable(input) * Rate(input) >= 0
    ensures IsHalfUp(Taxable(input) * Rate(input), TaxDivisor(input), Answer(input).tax.minor)
            <==> Undisturbed(Taxable(input) * Rate(input), TaxDivisor(input))
  {
    FigureSigns(input);
    TaxNonNegative(Taxable(input), Rate(input));
    if Rate(input) == 0 {
      NoTax(Taxable(input), TaxDivisor(input));
    } else if input.taxInclusive {
      ExtractionExactly(Taxable(input), Rate(input));
    } else {
      ProductOrdered(0, Taxable(input), Rate(input));
      ChargeExactly(Taxable(input) * Rate(input));
    }
  }

  lemma {:induction false} NoTax(base: int, d: nat)
    requires 10000 <= d <= MAX_DENOMINATOR
    ensures base * 0 == 0 && IsHalfUp(0, d, 0) && Undisturbed(0, d)
  {
  }

  lemma {:induction false} ChargeExactly(a: nat)
    requires RoundedRate(a) <= MAX_SAFE
    ensures IsHalfUp(a, 10000, RoundedRate(a)) <==> Undisturbed(a, 10000)
  {
    RateExactly(a);
    RateIsRatio(a);
    HalfUpParts(a, 10000, HalfUp(a, 10000));
    if IsHalfUp(a, 10000, RoundedRate(a)) {
      HalfUpUnique(a, 10000, RoundedRate(a), HalfUp(a, 10000));
    }
    if Undisturbed(a, 10000) {
      RatioExactly(a, 10000);
    }
  }

  /** One article at a marked price that contains tax. */
  function MarkedPrice(price: Money, rate: nat): ChargeInput {
    ChargeInput(price.currency, [LineInput(price, 1.0, None)], None, None, None, Some(rate as real), true)
  }

  lemma {:induction false} SingleLine(line: LineInput)
    ensures GrossTotal([line]) == Gross(line) && DiscountTotal([line]) == Amount(line.discount)
  {
    assert [line][1..] == [];
  }

  lemma {:induction false} MarkedPriceFigures(price: Money, rate: nat)
    requires 0 <= price.minor <= MAX_SAFE && rate <= 10000
    ensures var marked := MarkedPrice(price, rate);
            && AmountsSafe(marked) && Allowed(marked) && Rate(marked) == rate && Fits(marked)
            && Taxable(marked) == price.minor
  {
    SingleLine(LineInput(price, 1.0, None));
  }

  lemma {:induction false} MarkedAnswer(input: ChargeInput, total: int)
    requires Allowed(input) && !input.taxInclusive && Rate(input) >= 1
    requires total == Due(Taxable(input), Rate(input), false) <= MAX_SAFE
    ensures Taxable(input) * Rate(input) >= 0 && total * Rate(input) >= 0
    ensures Undisturbed(Taxable(input) * Rate(input), 10000) ==>
              (ExtractedTax(total, Rate(input)) == TaxOn(Taxable(input), Rate(input), false)
               <==> Undisturbed(total * Rate(input), 10000 + Rate(input)))
  {
    var base, rate := Taxable(input), Rate(input);
    FigureSigns(input);
    TaxNonNegative(base, rate);
    ProductOrdered(base, total, rate);
    if Undisturbed(base * rate, 10000) {
      MarkedExactly(base, rate, RoundedRate(base * rate));
    }
  }

  lemma {:induction false} MarkedExactly(base: nat, rate: nat, tax: int)
    requires 1 <= rate <= 10000 && base * rate >= 0 && tax == RoundedRate(base * rate) && base + tax <= MAX_SAFE
    requires Undisturbed(base * rate, 10000)
    ensures tax >= 0 && (base + tax) * rate >= 0
    ensures ExtractedTax(base + tax, rate) == tax <==> Undisturbed((base + tax) * rate, 10000 + rate)
  {
    ChargeExactly(base * rate);
    HalfUpIsHalfAway(base * rate, tax);
    ExtractionUndoesExactly(base, rate);
  }

  lemma {:induction false} HalfUpIsHalfAway(a: nat, r: int)
    requires IsHalfUp(a, 10000, r)
    ensures r == HalfAway(a)
  {
    HalfUpParts(a, 10000, HalfUp(a, 10000));
    HalfUpUnique(a, 10000, r, HalfUp(a, 10000));
  }

  /** Both computations are exact for the products of an ordinary order. */
  lemma {:induction false} MarkedAnswerInRange(input: ChargeInput, total: int)
    requires Allowed(input) && !input.taxInclusive && Rate(input) >= 1
    requires total == Due(Taxable(input), Rate(input), false) && total * Rate(input) < FIRST_WRONG_EXTRACTION
    ensures ExtractedTax(total, Rate(input)) == TaxOn(Taxable(input), Rate(input), false)
  {
    FigureSigns(input);
    TaxNonNegative(Taxable(input), Rate(input));
    ProductOrdered(Taxable(input), total, Rate(input));
    ExtractionUndoesCharge(Taxable(input), Rate(input));
  }

  /**
   * Marking an article with the total of an order taxed on top, and taking the tax out of
   * that marked price, keeps the total.  Where the order's own tax is exact it is reported
   * again exactly when the extraction is exact, and always below the first wrong product.
   */
  lemma {:induction false} MarkedTotalReportsTax(input: ChargeInput, t: Totals) returns (u: Totals)
    requires Computes(input, t) && !input.taxInclusive && Rate(input) >= 1
    ensures Computes(MarkedPrice(t.total, Rate(input)), u) && u.total == t.total
    ensures t.total.minor * Rate(input) < FIRST_WRONG_EXTRACTION ==> u.tax == t.tax
    ensures Taxable(input) * Rate(input) >= 0 && t.total.minor * Rate(input) >= 0
    ensures Undisturbed(Taxable(input) * Rate(input), 10000) ==>
              (u.tax == t.tax <==> Undisturbed(t.total.minor * Rate(input), 10000 + Rate(input)))
  {
    Answered(input, t);
    FigureSigns(input);
    TaxNonNegative(Taxable(input), Rate(input));
    u := Answer(MarkedPrice(t.total, Rate(input)));
    MarkedPriceFigures(t.total, Rate(input));
    Computable(MarkedPrice(t.total, Rate(input)), u);
    MarkedAnswer(input, t.total.minor);
    if t.total.minor * Rate(input) < FIRST_WRONG_EXTRACTION {
      MarkedAnswerInRange(input, t.total.minor);
    }
  }

  /** The first wrong product reaches the engine: an article marked so reports a tax one too large. */
  lemma {:induction false} MarkedPriceFirstWrong(currency: Currency) returns (u: Totals)
    ensures Computes(MarkedPrice(Money(705248841907, currency), 6387), u)
    ensures u.tax.minor == 274877912569 && IsHalfUp(705248841907 * 6387, 10000 + 6387, 274877912568)
  {
    var marked := MarkedPrice(Money(705248841907, currency), 6387);
    u := Answer(marked);
    MarkedPriceFigures(Money(705248841907, currency), 6387);
    Computable(marked, u);
    ExtractionFirstWrong();
  }
}
