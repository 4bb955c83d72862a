/**
 * The order-total engine (`computeOrderTotals` in server/domain/order-totals.ts), on the
 * binary64 money of lib/money.ts: when it answers, what the figures are, and how they
 * account for each other.
 */
module OrderTotals {
  import opened Text
  import opened Money
  import opened Percentages
  import opened InclusiveTax

  const MAX_LINE_QUANTITY: real := 10000.0
  const MAX_LINES: int := 200

  /** Refused stands for a BusinessRuleError, Broken for a MoneyError. */
  datatype Outcome<+T> = Done(value: T) | Refused | Broken {
    predicate IsFailure() {
      !Done?
    }

    function PropagateFailure<U>(): Outcome<U>
      requires IsFailure()
    {
      if Refused? then Refused else Broken
    }

    function Extract(): T
      requires !IsFailure()
    {
      value
    }
  }

  datatype LineInput = LineInput(unitPrice: Money, quantity: real, discount: Option<Money>)

  datatype LineTotals = LineTotals(unitPrice: Money, quantity: real, gross: Money, discount: Money, total: Money)

  datatype ChargeInput = ChargeInput(
    currency: Currency, lines: seq<LineInput>, deliveryFee: Option<Money>, discount: Option<Money>,
    freeDeliveryThreshold: Option<Money>, taxBasisPoints: Option<real>, taxInclusive: bool)

  datatype Totals = Totals(
    lines: seq<LineTotals>, subtotal: Money, discount: Money, deliveryFee: Money,
    tax: Money, total: Money, freeDeliveryApplied: bool)

  // ----- The engine -----

  /** A business rule, thrown when violated. */
  datatype Rule = Kept | Violated {
    predicate IsFailure() {
      Violated?
    }

    function PropagateFailure<U>(): Outcome<U>
      requires IsFailure()
    {
      Refused
    }
  }

  function Check(allowed: bool): Rule {
    if allowed then Kept else Violated
  }

  function Lift(r: Result): Outcome<Money> {
    match r case Ok(m) => Done(m) case Err(_) => Broken
  }

  function MoneyOrZero(amount: Option<Money>, currency: Currency): Money {
    match amount case None => Money(0, currency) case Some(m) => m
  }

  predicate IsWhole(x: real) {
    x.Floor as real == x
  }

  predicate IsCharge(amount: Money, currency: Currency) {
    amount.currency == currency && amount.minor >= 0
  }

  function PriceLine(line: LineInput, currency: Currency): Outcome<LineTotals> {
    var quantity := line.quantity;
    :- Check(IsWhole(quantity) && quantity >= 1.0);
    :- Check(quantity <= MAX_LINE_QUANTITY);
    :- Check(line.unitPrice.currency == currency);
    :- Check(line.unitPrice.minor >= 0);
    var gross :- Lift(Multiply(line.unitPrice, line.quantity));
    var discount := MoneyOrZero(line.discount, currency);
    :- Check(discount.currency == currency);
    :- Check(discount.minor >= 0);
    :- Check(discount.minor <= gross.minor);
    var total :- Lift(Subtract(gross, discount));
    Done(LineTotals(line.unitPrice, line.quantity, gross, discount, total))
  }

  function PriceLines(lines: seq<LineInput>, currency: Currency): Outcome<seq<LineTotals>> {
    if lines == [] then Done([])
    else
      var first :- PriceLine(lines[0], currency);
      var rest :- PriceLines(lines[1..], currency);
      Done([first] + rest)
  }

  function TotalsOf(lines: seq<LineTotals>): seq<Money> {
    seq(|lines|, i requires 0 <= i < |lines| => lines[i].total)
  }

  function DiscountsOf(lines: seq<LineTotals>): seq<Money> {
    seq(|lines|, i requires 0 <= i < |lines| => lines[i].discount)
  }

  function ClampToZero(value: Money): Money {
    if value.minor < 0 then Money(0, value.currency) else value
  }

  datatype Charges = Charges(goods: Money, appliedDiscount: Money, deliveryFee: Money, waived: bool, rate: nat)

  /** Order discount, delivery fee, waiver and tax rate. */
  function ChargesOn(input: ChargeInput, subtotal: Money): Outcome<Charges> {
    var discount := MoneyOrZero(input.discount, input.currency);
    :- Check(discount.currency == input.currency);
    :- Check(discount.minor >= 0);
    var reduced :- Lift(Subtract(subtotal, discount));
    var goods := ClampToZero(reduced);
    var applied :- Lift(Subtract(subtotal, goods));
    var fee := MoneyOrZero(input.deliveryFee, input.currency);
    :- Check(fee.currency == input.currency);
    :- Check(fee.minor >= 0);
    :- Check(input.freeDeliveryThreshold.Some? ==> IsCharge(input.freeDeliveryThreshold.value, input.currency));
    var waived := input.freeDeliveryThreshold.Some? && fee.minor != 0
                  && goods.minor >= input.freeDeliveryThreshold.value.minor;
    var rate := if input.taxBasisPoints.Some? then input.taxBasisPoints.value else 0.0;
    :- Check(IsWhole(rate) && 0.0 <= rate <= 10000.0);
    Done(Charges(goods, applied, if waived then Money(0, input.currency) else fee, waived, rate.Floor))
  }

  /** Tax and total on the taxable base. */
  function TaxAndTotal(base: Money, rate: nat, inclusive: bool): Outcome<(Money, Money)>
  {
    if rate == 0 then Done((Money(0, base.currency), base))
    else if inclusive then
      var tax :- Lift(MakeMoney(ExtractedTax(base.minor, rate) as real, base.currency));
      Done((tax, base))
    else
      var tax :- Lift(PercentageOf(base, rate as real));
      var total :- Lift(Add(base, tax));
      Done((tax, total))
  }

  function ComputeOrderTotals(input: ChargeInput): Outcome<Totals> {
    var currency := input.currency;
    :- Check(input.lines != []);
    :- Check(|input.lines| <= MAX_LINES);
    var lines :- PriceLines(input.lines, currency);
    var subtotal :- Lift(Sum(TotalsOf(lines), currency));
    var charges :- ChargesOn(input, subtotal);
    Settle(lines, subtotal, charges, currency, input.taxInclusive)
  }

  function Settle(lines: seq<LineTotals>, subtotal: Money, charges: Charges, currency: Currency, inclusive: bool)
    : Outcome<Totals>
  {
    var base :- Lift(Add(charges.goods, charges.deliveryFee));
    var settled :- TaxAndTotal(base, charges.rate, inclusive);
    var lineDiscounts :- Lift(Sum(DiscountsOf(lines), currency));
    var discount :- Lift(Add(lineDiscounts, charges.appliedDiscount));
    Done(Totals(lines, subtotal, discount, charges.deliveryFee, settled.0, settled.1, charges.waived))
  }

  // ----- The figures in whole numbers -----

  function Amount(amount: Option<Money>): int {
    match amount case None => 0 case Some(m) => m.minor
  }

  function Gross(line: LineInput): int {
    line.unitPrice.minor * line.quantity.Floor
  }

  function GrossTotal(lines: seq<LineInput>): int {
    if lines == [] then 0 else Gross(lines[0]) + GrossTotal(lines[1..])
  }

  function DiscountTotal(lines: seq<LineInput>): int {
    if lines == [] then 0 else Amount(lines[0].discount) + DiscountTotal(lines[1..])
  }

  /** Goods after line discounts. */
  function Subtotal(input: ChargeInput): int {
    GrossTotal(input.lines) - DiscountTotal(input.lines)
  }

  /** Goods after every discount, never below zero. */
  function Goods(input: ChargeInput): int {
    if Amount(input.discount) > Subtotal(input) then 0 else Subtotal(input) - Amount(input.discount)
  }

  predicate IsWaived(input: ChargeInput) {
    && Amount(input.deliveryFee) != 0 && input.freeDeliveryThreshold.Some?
    && Goods(input) >= input.freeDeliveryThreshold.value.minor
  }

  function Fee(input: ChargeInput): int {
    if IsWaived(input) then 0 else Amount(input.deliveryFee)
  }

  function Taxable(input: ChargeInput): int {
    Goods(input) + Fee(input)
  }

  function Rate(input: ChargeInput): int {
    if input.taxBasisPoints.Some? then input.taxBasisPoints.value.Floor else 0
  }

  function TaxOn(base: int, rate: nat, inclusive: bool): int {
    if rate == 0 then 0 else if inclusive then ExtractedTax(base, rate) else RoundedRate(base * rate)
  }

  function Due(base: int, rate: nat, inclusive: bool): int {
    base + if inclusive then 0 else TaxOn(base, rate, false)
  }

  // ----- When the engine answers -----

  predicate IsOptionalCharge(amount: Option<Money>, currency: Currency) {
    amount.Some? ==> IsCharge(amount.value, currency)
  }

  predicate LineAllowed(line: LineInput, currency: Currency) {
    && IsWhole(line.quantity) && 1.0 <= line.quantity <= 10000.0
    && IsCharge(line.unitPrice, currency) && IsOptionalCharge(line.discount, currency)
    && Amount(line.discount) <= Gross(line)
  }

  /** The rules checked before a line is multiplied out. */
  predicate BasicsAllowed(line: LineInput, currency: Currency) {
    IsWhole(line.quantity) && 1.0 <= line.quantity <= 10000.0 && IsCharge(line.unitPrice, currency)
  }

  /** A line that a rule stops; an unsafe gross stops it before its discount is looked at. */
  predicate LineRefused(line: LineInput, currency: Currency) {
    !BasicsAllowed(line, currency) || (Gross(line) <= MAX_SAFE && !LineAllowed(line, currency))
  }

  /** The first line that is not priced is one that a rule stops. */
  predicate StopsAtRule(lines: seq<LineInput>, currency: Currency) {
    lines != [] &&
    (LineRefused(lines[0], currency)
     || (LineAllowed(lines[0], currency) && Gross(lines[0]) <= MAX_SAFE && StopsAtRule(lines[1..], currency)))
  }

  /** A business rule is what stops the order: the number of lines, the first line not priced,
      or a charge, once all lines are priced and add up. */
  predicate RuleStops(input: ChargeInput) {
    || !(1 <= |input.lines| <= 200) || StopsAtRule(input.lines, input.currency)
    || (LinesAllowed(input.lines, input.currency) && GrossFits(input.lines) && Subtotal(input) <= MAX_SAFE
        && !ChargesAllowed(input))
  }

  predicate LinesAllowed(lines: seq<LineInput>, currency: Currency) {
    forall i :: 0 <= i < |lines| ==> LineAllowed(lines[i], currency)
  }

  /** The business rules. */
  predicate Allowed(input: ChargeInput) {
    && 1 <= |input.lines| <= 200 && LinesAllowed(input.lines, input.currency)
    && ChargesAllowed(input)
  }

  predicate ChargesAllowed(input: ChargeInput) {
    && IsOptionalCharge(input.discount, input.currency)
    && IsOptionalCharge(input.deliveryFee, input.currency)
    && IsOptionalCharge(input.freeDeliveryThreshold, input.currency)
    && (input.taxBasisPoints.Some? ==>
          IsWhole(input.taxBasisPoints.value) && 0.0 <= input.taxBasisPoints.value <= 10000.0)
  }

  predicate GrossFits(lines: seq<LineInput>) {
    forall i :: 0 <= i < |lines| ==> Gross(lines[i]) <= MAX_SAFE
  }

  /** What must be a safe integer. */
  predicate Fits(input: ChargeInput)
    requires Rate(input) >= 0
  {
    && GrossFits(input.lines) && Subtotal(input) <= MAX_SAFE
    && GrossTotal(input.lines) - Goods(input) <= MAX_SAFE
    && Due(Taxable(input), Rate(input), input.taxInclusive) <= MAX_SAFE
  }

  /** Every amount was made by `money`. */
  predicate AmountsSafe(input: ChargeInput) {
    && (forall i :: 0 <= i < |input.lines| ==> LineSafe(input.lines[i]))
    && OptionSafe(input.deliveryFee) && OptionSafe(input.discount) && OptionSafe(input.freeDeliveryThreshold)
  }

  predicate LineSafe(line: LineInput) {
    IsSafe(line.unitPrice.minor) && OptionSafe(line.discount)
  }

  predicate OptionSafe(amount: Option<Money>) {
    amount.Some? ==> IsSafe(amount.value.minor)
  }

  // ----- Lines -----

  lemma {:induction false} GrossExact(line: LineInput, currency: Currency)
    requires IsWhole(line.quantity) && line.quantity >= 1.0 && IsCharge(line.unitPrice, currency)
    ensures Lift(Multiply(line.unitPrice, line.quantity)) == SafeOrBroken(Gross(line), currency)
    ensures Gross(line) >= 0
  {
    var n := line.quantity.Floor;
    ProductOrdered(0, line.unitPrice.minor, n);
    MultiplyExact(line.unitPrice, n);
  }

  lemma {:induction false} PriceLineExact(line: LineInput, currency: Currency)
    requires LineSafe(line)
    ensures PriceLine(line, currency).Done? <==> LineAllowed(line, currency) && Gross(line) <= MAX_SAFE
    ensures PriceLine(line, currency).Refused? <==> LineRefused(line, currency)
    ensures PriceLine(line, currency).Done? ==>
              PriceLine(line, currency).value == PricedLine(line, currency)
  {
    if IsWhole(line.quantity) && line.quantity >= 1.0 && IsCharge(line.unitPrice, currency) {
      GrossExact(line, currency);
      LineTotalExact(Gross(line), Amount(line.discount), currency);
    }
  }

  lemma {:induction false} LineTotalExact(gross: int, discount: int, currency: Currency)
    ensures 0 <= discount <= gross <= MAX_SAFE ==>
              Lift(Subtract(Money(gross, currency), Money(discount, currency)))
              == Done(Money(gross - discount, currency))
  {
    SubtractExact(Money(gross, currency), Money(discount, currency));
  }

  function PricedLine(line: LineInput, currency: Currency): LineTotals {
    LineTotals(line.unitPrice, line.quantity, Money(Gross(line), currency),
      Money(Amount(line.discount), currency), Money(Gross(line) - Amount(line.discount), currency))
  }

  function PricedLines(lines: seq<LineInput>, currency: Currency): (r: seq<LineTotals>)
    ensures |r| == |lines|
    ensures forall i :: 0 <= i < |r| ==> r[i] == PricedLine(lines[i], currency)
  {
    seq(|lines|, i requires 0 <= i < |lines| => PricedLine(lines[i], currency))
  }

  lemma {:induction false} PriceLinesExact(lines: seq<LineInput>, currency: Currency)
    requires forall i :: 0 <= i < |lines| ==> LineSafe(lines[i])
    ensures PriceLines(lines, currency).Done? <==> LinesAllowed(lines, currency) && GrossFits(lines)
    ensures PriceLines(lines, currency).Refused? <==> StopsAtRule(lines, currency)
    ensures PriceLines(lines, currency).Done? ==> PriceLines(lines, currency).value == PricedLines(lines, currency)
    decreases lines
  {
    if lines != [] {
      PriceLineExact(lines[0], currency);
      PriceLinesExact(lines[1..], currency);
      LinesSplit(lines, currency);
    }
  }

  lemma {:induction false} LinesSplit(lines: seq<LineInput>, currency: Currency)
    requires lines != []
    ensures LinesAllowed(lines, currency) <==> LineAllowed(lines[0], currency) && LinesAllowed(lines[1..], currency)
    ensures GrossFits(lines) <==> Gross(lines[0]) <= MAX_SAFE && GrossFits(lines[1..])
    ensures PricedLines(lines, currency) == [PricedLine(lines[0], currency)] + PricedLines(lines[1..], currency)
  {
    assert forall i :: 0 < i < |lines| ==> lines[i] == lines[1..][i - 1];
  }

  lemma {:induction false} PricedSums(lines: seq<LineInput>, currency: Currency)
    requires LinesAllowed(lines, currency)
    ensures var priced := PricedLines(lines, currency);
            && Total(TotalsOf(priced)) == GrossTotal(lines) - DiscountTotal(lines)
            && Total(DiscountsOf(priced)) == DiscountTotal(lines)
    ensures 0 <= DiscountTotal(lines) <= GrossTotal(lines)
  {
    if lines != [] {
      var priced := PricedLines(lines, currency);
      assert LineAllowed(lines[0], currency);
      PricedSums(lines[1..], currency);
      assert priced[1..] == PricedLines(lines[1..], currency);
      assert TotalsOf(priced)[1..] == TotalsOf(priced[1..]);
      assert DiscountsOf(priced)[1..] == DiscountsOf(priced[1..]);
    }
  }

  predicate NonNegative(values: seq<Money>) {
    forall i :: 0 <= i < |values| ==> values[i].minor >= 0
  }

  lemma {:induction false} NonNegativeTotal(values: seq<Money>)
    requires NonNegative(values)
    ensures Gains(values) == Total(values) && Losses(values) == 0
  {
    if values != [] {
      NonNegativeTotal(values[1..]);
    }
  }

  /** Amounts of one sign add up in any order exactly when their total is safe. */
  lemma {:induction false} SumOfCharges(values: seq<Money>, currency: Currency)
    requires OneCurrency(values, currency) && NonNegative(values)
    ensures Lift(Sum(values, currency)) ==
            if Total(values) <= MAX_SAFE then Done(Money(Total(values), currency)) else Broken
  {
    MakeZero(currency);
    NonNegativeTotal(values);
    if Total(values) <= MAX_SAFE {
      SumFromExact(0, values, currency);
    } else if Sum(values, currency).Ok? {
      SumFromSuccess(Money(0, currency), values);
      SumFromSafe(Money(0, currency), values);
    }
  }

  lemma {:induction false} SumIs(values: seq<Money>, total: int, currency: Currency)
    requires OneCurrency(values, currency) && NonNegative(values) && Total(values) == total
    ensures Lift(Sum(values, currency)) == SafeOrBroken(total, currency)
  {
    SumOfCharges(values, currency);
  }

  lemma {:induction false} PricedAreCharges(lines: seq<LineInput>, currency: Currency)
    requires LinesAllowed(lines, currency)
    ensures var totals := TotalsOf(PricedLines(lines, currency));
            OneCurrency(totals, currency) && NonNegative(totals)
    ensures var discounts := DiscountsOf(PricedLines(lines, currency));
            OneCurrency(discounts, currency) && NonNegative(discounts)
  {
    forall i | 0 <= i < |lines|
      ensures 0 <= Amount(lines[i].discount) <= Gross(lines[i])
    {
      assert LineAllowed(lines[i], currency);
    }
  }

  lemma {:induction false} SubtotalExact(lines: seq<LineInput>, currency: Currency, total: int)
    requires LinesAllowed(lines, currency) && total == GrossTotal(lines) - DiscountTotal(lines)
    ensures Lift(Sum(TotalsOf(PricedLines(lines, currency)), currency)) == SafeOrBroken(total, currency)
  {
    var values := TotalsOf(PricedLines(lines, currency));
    PricedSums(lines, currency);
    PricedAreCharges(lines, currency);
    SumIs(values, total, currency);
  }

  lemma {:induction false} LineDiscountsExact(lines: seq<LineInput>, currency: Currency)
    requires LinesAllowed(lines, currency)
    ensures Lift(Sum(DiscountsOf(PricedLines(lines, currency)), currency))
         == SafeOrBroken(DiscountTotal(lines), currency)
  {
    var values := DiscountsOf(PricedLines(lines, currency));
    PricedSums(lines, currency);
    PricedAreCharges(lines, currency);
    SumIs(values, DiscountTotal(lines), currency);
  }

  function SafeOrBroken(minor: int, currency: Currency): Outcome<Money> {
    if minor <= MAX_SAFE then Done(Money(minor, currency)) else Broken
  }

  // ----- Charges, tax and total -----

  function WholeCharges(input: ChargeInput): Charges
    requires Rate(input) >= 0
  {
    Charges(Money(Goods(input), input.currency), Money(Subtotal(input) - Goods(input), input.currency),
      Money(Fee(input), input.currency), IsWaived(input), Rate(input))
  }

  lemma {:induction false} ChargesExact(input: ChargeInput, subtotal: Money)
    requires AmountsSafe(input)
    requires subtotal == Money(Subtotal(input), input.currency) && 0 <= subtotal.minor <= MAX_SAFE
    ensures ChargesOn(input, subtotal) ==
            if ChargesAllowed(input) then Done(WholeCharges(input)) else Refused
  {
    var discount := MoneyOrZero(input.discount, input.currency);
    SubtractExact(subtotal, discount);
    SubtractExact(subtotal, Money(Goods(input), input.currency));
  }

  lemma {:induction false} ChargedExact(base: Money, rate: nat)
    requires 0 <= base.minor <= MAX_SAFE && rate <= 10000
    ensures TaxAndTotal(base, rate, false) == Settled(base, rate, false)
  {
    var tax := RoundedRate(base.minor * rate);
    ChargeMonotone(base.minor, base.minor, rate);
    AddExact(base, Money(tax, base.currency));
  }

  lemma {:induction false} ExtractedExact(base: Money, rate: nat)
    requires 0 <= base.minor <= MAX_SAFE && rate <= 10000
    ensures TaxAndTotal(base, rate, true) == Settled(base, rate, true)
  {
    ExtractionBounded(base.minor, rate);
  }

  function Settled(base: Money, rate: nat, inclusive: bool): Outcome<(Money, Money)> {
    var due := Due(base.minor, rate, inclusive);
    if due <= MAX_SAFE then
      Done((Money(TaxOn(base.minor, rate, inclusive), base.currency), Money(due, base.currency)))
    else Broken
  }

  lemma {:induction false} AddCharges(a: int, b: int, currency: Currency)
    requires a >= 0 && b >= 0
    ensures Lift(Add(Money(a, currency), Money(b, currency))) == SafeOrBroken(a + b, currency)
  {
    AddExact(Money(a, currency), Money(b, currency));
  }

  function Answer(input: ChargeInput): Totals
    requires Rate(input) >= 0
  {
    var tax := TaxOn(Taxable(input), Rate(input), input.taxInclusive);
    var due := Due(Taxable(input), Rate(input), input.taxInclusive);
    Totals(PricedLines(input.lines, input.currency), Money(Subtotal(input), input.currency),
      Money(GrossTotal(input.lines) - Goods(input), input.currency), Money(Fee(input), input.currency),
      Money(tax, input.currency), Money(due, input.currency), IsWaived(input))
  }

  lemma {:induction false} FigureSigns(input: ChargeInput)
    requires Allowed(input)
    ensures 0 <= Goods(input) <= Subtotal(input) <= GrossTotal(input.lines)
    ensures 0 <= DiscountTotal(input.lines) && 0 <= Fee(input)
    ensures 0 <= Rate(input) <= 10000
  {
    PricedSums(input.lines, input.currency);
  }

  lemma TaxNonNegative(base: int, rate: int)
    requires base >= 0 && rate >= 0
    ensures TaxOn(base, rate, false) >= 0
  {
    ChargeMonotone(base, base, rate);
  }

  /**
   * The engine answers exactly when the rules allow the order and the figures are safe
   * integers, and then with the figures computed in whole numbers; it refuses exactly when a
   * rule is what stops the order, and fails on the range of integers otherwise.
   */
  lemma {:induction false} ComputeExact(input: ChargeInput)
    requires AmountsSafe(input)
    ensures ComputeOrderTotals(input).Done? <==> Allowed(input) && Fits(input)
    ensures ComputeOrderTotals(input).Refused? <==> RuleStops(input)
    ensures ComputeOrderTotals(input).Broken? <==> !RuleStops(input) && !(Allowed(input) && Fits(input))
    ensures ComputeOrderTotals(input).Done? ==> ComputeOrderTotals(input).value == Answer(input)
  {
    PriceLinesExact(input.lines, input.currency);
    if 1 <= |input.lines| <= MAX_LINES && LinesAllowed(input.lines, input.currency) && GrossFits(input.lines) {
      SettleExact(input);
    }
  }

  lemma {:induction false} SettleExact(input: ChargeInput)
    requires AmountsSafe(input) && 1 <= |input.lines| <= MAX_LINES
    requires LinesAllowed(input.lines, input.currency) && GrossFits(input.lines)
    requires PriceLines(input.lines, input.currency) == Done(PricedLines(input.lines, input.currency))
    ensures ComputeOrderTotals(input) ==
            if Subtotal(input) > MAX_SAFE then Broken
            else if !ChargesAllowed(input) then Refused
            else if Fits(input) then Done(Answer(input)) else Broken
  {
    var subtotal, charges := GoodsAndCharges(input);
    ComputeSteps(input, subtotal, charges);
    if Subtotal(input) <= MAX_SAFE && ChargesAllowed(input) {
      BalanceExact(input);
    }
  }

  lemma {:induction false} GoodsAndCharges(input: ChargeInput)
    returns (subtotal: Outcome<Money>, charges: Outcome<Charges>)
    requires AmountsSafe(input) && LinesAllowed(input.lines, input.currency)
    ensures subtotal == SafeOrBroken(Subtotal(input), input.currency)
    ensures subtotal == Lift(Sum(TotalsOf(PricedLines(input.lines, input.currency)), input.currency))
    ensures charges == if ChargesAllowed(input) then Done(WholeCharges(input)) else Refused
    ensures subtotal.Done? ==> charges == ChargesOn(input, subtotal.value)
  {
    SubtotalExact(input.lines, input.currency, Subtotal(input));
    PricedSums(input.lines, input.currency);
    subtotal := SafeOrBroken(Subtotal(input), input.currency);
    charges := if ChargesAllowed(input) then Done(WholeCharges(input)) else Refused;
    if subtotal.Done? {
      ChargesExact(input, subtotal.value);
    }
  }

  /** The engine's last steps, from the results of the first. */
  lemma {:induction false} ComputeSteps(input: ChargeInput, subtotal: Outcome<Money>, charges: Outcome<Charges>)
    requires 1 <= |input.lines| <= MAX_LINES
    requires PriceLines(input.lines, input.currency) == Done(PricedLines(input.lines, input.currency))
    requires subtotal == Lift(Sum(TotalsOf(PricedLines(input.lines, input.currency)), input.currency))
    requires subtotal.Done? ==> charges == ChargesOn(input, subtotal.value)
    ensures ComputeOrderTotals(input) ==
            if subtotal.Broken? then Broken
            else if charges.Refused? then Refused
            else if charges.Broken? then Broken
            else Settle(PricedLines(input.lines, input.currency), subtotal.value, charges.value,
                        input.currency, input.taxInclusive)
  {
  }

  lemma {:induction false} SettleSteps(lines: seq<LineTotals>, subtotal: Money, charges: Charges, currency: Currency,
                                       inclusive: bool, base: Outcome<Money>, settled: Outcome<(Money, Money)>,
                                       lineDiscounts: Outcome<Money>, discount: Outcome<Money>)
    requires base == Lift(Add(charges.goods, charges.deliveryFee))
    requires base.Done? ==> settled == TaxAndTotal(base.value, charges.rate, inclusive)
    requires lineDiscounts == Lift(Sum(DiscountsOf(lines), currency))
    requires lineDiscounts.Done? ==> discount == Lift(Add(lineDiscounts.value, charges.appliedDiscount))
    requires !settled.Refused?
    ensures Settle(lines, subtotal, charges, currency, inclusive) ==
            if base.Done? && settled.Done? && lineDiscounts.Done? && discount.Done?
            then Done(Totals(lines, subtotal, discount.value, charges.deliveryFee,
                             settled.value.0, settled.value.1, charges.waived))
            else Broken
  {
  }

  /** The figures put together, given the results of the money operations. */
  lemma {:induction false} Balance(input: ChargeInput, base: Outcome<Money>, settled: Outcome<(Money, Money)>,
                                   lineDiscounts: Outcome<Money>, discount: Outcome<Money>)
    requires Allowed(input) && GrossFits(input.lines) && Subtotal(input) <= MAX_SAFE
    requires base == SafeOrBroken(Taxable(input), input.currency)
    requires settled == Settled(Money(Taxable(input), input.currency), Rate(input), input.taxInclusive)
    requires lineDiscounts == SafeOrBroken(DiscountTotal(input.lines), input.currency)
    requires discount == SafeOrBroken(GrossTotal(input.lines) - Goods(input), input.currency)
    ensures Fits(input) <==> base.Done? && settled.Done? && lineDiscounts.Done? && discount.Done?
    ensures Fits(input) ==>
              (Answer(input) ==
                 Totals(PricedLines(input.lines, input.currency), Money(Subtotal(input), input.currency),
                        discount.value,
                        Money(Fee(input), input.currency), settled.value.0, settled.value.1, IsWaived(input)))
  {
    FigureSigns(input);
    TaxNonNegative(Taxable(input), Rate(input));
  }

  lemma {:induction false} BalanceExact(input: ChargeInput)
    requires Allowed(input) && GrossFits(input.lines) && Subtotal(input) <= MAX_SAFE
    ensures Settle(PricedLines(input.lines, input.currency), Money(Subtotal(input), input.currency),
              WholeCharges(input), input.currency, input.taxInclusive)
         == if Fits(input) then Done(Answer(input)) else Broken
  {
    FigureSigns(input);
    var base := BaseOf(input);
    var settled := SettledResult(input);
    LineDiscountsExact(input.lines, input.currency);
    var lineDiscounts := SafeOrBroken(DiscountTotal(input.lines), input.currency);
    var discount := DiscountOf(input, lineDiscounts);
    SettleSteps(PricedLines(input.lines, input.currency), Money(Subtotal(input), input.currency), WholeCharges(input),
      input.currency, input.taxInclusive, base, settled, lineDiscounts, discount);
    Balance(input, base, settled, lineDiscounts, discount);
  }

  lemma {:induction false} BaseOf(input: ChargeInput) returns (base: Outcome<Money>)
    requires Allowed(input)
    ensures base == Lift(Add(WholeCharges(input).goods, WholeCharges(input).deliveryFee))
    ensures base == SafeOrBroken(Taxable(input), input.currency)
  {
    FigureSigns(input);
    base := BaseResult(WholeCharges(input), input.currency, Taxable(input));
  }

  lemma {:induction false} DiscountOf(input: ChargeInput, lineDiscounts: Outcome<Money>)
    returns (discount: Outcome<Money>)
    requires Allowed(input)
    requires lineDiscounts == SafeOrBroken(DiscountTotal(input.lines), input.currency)
    ensures lineDiscounts.Done? ==> discount == Lift(Add(lineDiscounts.value, WholeCharges(input).appliedDiscount))
    ensures discount == SafeOrBroken(GrossTotal(input.lines) - Goods(input), input.currency)
  {
    FigureSigns(input);
    discount := DiscountResult(WholeCharges(input), input.currency, DiscountTotal(input.lines),
      GrossTotal(input.lines) - Goods(input));
  }

  lemma {:induction false} BaseResult(charges: Charges, currency: Currency, taxable: int)
    returns (base: Outcome<Money>)
    requires IsCharge(charges.goods, currency) && IsCharge(charges.deliveryFee, currency)
    requires charges.goods.minor + charges.deliveryFee.minor == taxable
    ensures base == Lift(Add(charges.goods, charges.deliveryFee)) == SafeOrBroken(taxable, currency)
  {
    AddCharges(charges.goods.minor, charges.deliveryFee.minor, currency);
    base := SafeOrBroken(taxable, currency);
  }

  lemma {:induction false} DiscountResult(charges: Charges, currency: Currency, lineDiscounts: int, total: int)
    returns (discount: Outcome<Money>)
    requires IsCharge(charges.appliedDiscount, currency) && lineDiscounts >= 0
    requires lineDiscounts + charges.appliedDiscount.minor == total
    ensures discount == Lift(Add(Money(lineDiscounts, currency), charges.appliedDiscount))
    ensures discount == SafeOrBroken(total, currency)
  {
    AddCharges(lineDiscounts, charges.appliedDiscount.minor, currency);
    discount := SafeOrBroken(total, currency);
  }

  lemma {:induction false} SettledResult(input: ChargeInput) returns (settled: Outcome<(Money, Money)>)
    requires Allowed(input)
    ensures settled == Settled(Money(Taxable(input), input.currency), Rate(input), input.taxInclusive)
    ensures Taxable(input) <= MAX_SAFE ==>
              settled == TaxAndTotal(Money(Taxable(input), input.currency), Rate(input), input.taxInclusive)
  {
    FigureSigns(input);
    var base := Money(Taxable(input), input.currency);
    settled := Settled(base, Rate(input), input.taxInclusive);
    if Taxable(input) <= MAX_SAFE {
      if input.taxInclusive {
        ExtractedExact(base, Rate(input));
      } else {
        ChargedExact(base, Rate(input));
      }
    }
  }
}
