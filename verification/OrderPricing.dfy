/**
 * Pricing a submitted order (`createOrder` in server/services/order/order.service.ts): the
 * stored columns reconcile, and the estimate of the order form compared with what the server
 * charges.
 */
module OrderPricing {
  import opened Text
  import opened Money
  import opened Percentages
  import opened InclusiveTax
  import opened OrderTotals
  import opened OrderAccounts
  import Cart

  /** The business's own charges. */
  datatype Settings = Settings(deliveryFeeMinor: int, freeDeliveryThresholdMinor: Option<int>, taxRateBps: int)

  /** The money columns of the stored order. */
  datatype Stored = Stored(subtotal: int, discount: int, deliveryFee: int, tax: int, total: int)

  /** Where an order comes from and under which charges it is priced. */
  datatype Context = Context(price: Cart.Prices, settings: Settings, currency: Currency, createdByAi: bool)

  function MoneyOf(minor: int, currency: Currency): Outcome<Money> {
    Lift(MakeMoney(minor as real, currency))
  }

  function OptionalMoney(minor: Option<int>, currency: Currency): Outcome<Option<Money>> {
    match minor
    case None => Done(None)
    case Some(m) => var amount :- MoneyOf(m, currency); Done(Some(amount))
  }

  function LinesOf(lines: seq<Cart.Line>, price: Cart.Prices, currency: Currency): Outcome<seq<LineInput>> {
    if lines == [] then Done([])
    else
      var unitPrice :- MoneyOf(price(lines[0].productId, lines[0].variantId), currency);
      var rest :- LinesOf(lines[1..], price, currency);
      Done([LineInput(unitPrice, lines[0].quantity as real, None)] + rest)
  }

  /** Amounts typed by a person override the settings; an order made by the AI has none. */
  function Honoured(amount: Option<int>, createdByAi: bool): Option<int> {
    if createdByAi then None else amount
  }

  function FeeOf(request: Cart.OrderInput, context: Context): int {
    match Honoured(request.deliveryFee, context.createdByAi)
    case None => context.settings.deliveryFeeMinor
    case Some(fee) => fee
  }

  /** The waiver is for the configured fee only. */
  function ThresholdOf(request: Cart.OrderInput, context: Context): Option<int> {
    if Honoured(request.deliveryFee, context.createdByAi).None? then context.settings.freeDeliveryThresholdMinor
    else None
  }

  function RateOf(request: Cart.OrderInput, context: Context): int {
    if Honoured(request.tax, context.createdByAi).None? then context.settings.taxRateBps else 0
  }

  function OverrideTax(request: Cart.OrderInput, context: Context): int {
    Cart.OrZero(Honoured(request.tax, context.createdByAi))
  }

  function PriceOrder(request: Cart.OrderInput, context: Context): Outcome<Stored> {
    var currency := context.currency;
    var deliveryFee :- MoneyOf(FeeOf(request, context), currency);
    var threshold :- OptionalMoney(ThresholdOf(request, context), currency);
    var lines :- LinesOf(request.lines, context.price, currency);
    var discount :- MoneyOf(Cart.OrZero(Honoured(request.discount, context.createdByAi)), currency);
    var totals :- ComputeOrderTotals(ChargeInput(currency, lines, Some(deliveryFee), Some(discount), threshold,
                                                 Some(RateOf(request, context) as real), false));
    var overrideTax :- MoneyOf(OverrideTax(request, context), currency);
    WithOverride(totals, overrideTax)
  }

  /** The engine's figures with the tax typed by a person on top. */
  function WithOverride(totals: Totals, overrideTax: Money): Outcome<Stored> {
    var tax :- Lift(Add(totals.tax, overrideTax));
    var total :- Lift(Add(totals.total, overrideTax));
    Done(Stored(totals.subtotal.minor, totals.discount.minor, totals.deliveryFee.minor, tax.minor, total.minor))
  }

  // ----- The order the engine is asked about -----

  function LineOf(line: Cart.Line, price: Cart.Prices, currency: Currency): LineInput {
    LineInput(Money(price(line.productId, line.variantId), currency), line.quantity as real, None)
  }

  function WholeLines(lines: seq<Cart.Line>, price: Cart.Prices, currency: Currency): (r: seq<LineInput>)
    ensures |r| == |lines|
  {
    seq(|lines|, i requires 0 <= i < |lines| => LineOf(lines[i], price, currency))
  }

  function WholeOrder(request: Cart.OrderInput, context: Context): ChargeInput {
    var currency := context.currency;
    var threshold := ThresholdOf(request, context);
    ChargeInput(currency, WholeLines(request.lines, context.price, currency),
                Some(Money(FeeOf(request, context), currency)),
                Some(Money(Cart.OrZero(Honoured(request.discount, context.createdByAi)), currency)),
                if threshold.Some? then Some(Money(threshold.value, currency)) else None,
                Some(RateOf(request, context) as real), false)
  }

  lemma {:induction false} MoneyOfSafe(minor: int, currency: Currency)
    ensures MoneyOf(minor, currency) == if IsSafe(minor) then Done(Money(minor, currency)) else Broken
  {
  }

  predicate LinesSafe(lines: seq<LineInput>) {
    forall i :: 0 <= i < |lines| ==> LineSafe(lines[i])
  }

  lemma {:induction false} LinesOfSafe(lines: seq<Cart.Line>, price: Cart.Prices, currency: Currency)
    ensures LinesOf(lines, price, currency)
         == if LinesSafe(WholeLines(lines, price, currency)) then Done(WholeLines(lines, price, currency)) else Broken
    decreases lines
  {
    if lines != [] {
      var whole, rest := WholeLines(lines, price, currency), WholeLines(lines[1..], price, currency);
      MoneyOfSafe(price(lines[0].productId, lines[0].variantId), currency);
      LinesOfSafe(lines[1..], price, currency);
      assert whole == [LineOf(lines[0], price, currency)] + rest;
      LinesSafeSplits(whole[0], rest);
    }
  }

  lemma {:induction false} LinesSafeSplits(first: LineInput, rest: seq<LineInput>)
    ensures LinesSafe([first] + rest) <==> LineSafe(first) && LinesSafe(rest)
  {
    var whole := [first] + rest;
    assert whole[0] == first && whole[1..] == rest;
    if LinesSafe(whole) {
      forall i | 0 <= i < |rest|
        ensures LineSafe(rest[i])
      {
        assert LineSafe(whole[i + 1]);
      }
    }
  }

  lemma {:induction false} WholeLineSums(lines: seq<Cart.Line>, price: Cart.Prices, currency: Currency)
    ensures DiscountTotal(WholeLines(lines, price, currency)) == 0
    ensures GrossTotal(WholeLines(lines, price, currency)) == Cart.GoodsTotal(lines, price)
  {
    if lines != [] {
      assert WholeLines(lines, price, currency)[1..] == WholeLines(lines[1..], price, currency);
      WholeLineSums(lines[1..], price, currency);
    }
  }

  /** The amounts given to the engine and to the tax override are safe integers. */
  predicate GivenSafe(request: Cart.OrderInput, context: Context) {
    AmountsSafe(WholeOrder(request, context)) && IsSafe(OverrideTax(request, context))
  }

  function EngineThenOverride(o: ChargeInput, overrideTax: Money): Outcome<Stored> {
    var totals :- ComputeOrderTotals(o);
    WithOverride(totals, overrideTax)
  }

  /** Until the engine answers, only an unsafe amount can stop the order. */
  lemma {:induction false} PriceOrderSteps(request: Cart.OrderInput, context: Context)
    ensures GivenSafe(request, context) ==>
              PriceOrder(request, context) == EngineThenOverride(
                WholeOrder(request, context), Money(OverrideTax(request, context), context.currency))
    ensures !GivenSafe(request, context) ==> !PriceOrder(request, context).Done?
  {
    LinesOfSafe(request.lines, context.price, context.currency);
    MoneyOfSafe(FeeOf(request, context), context.currency);
    MoneyOfSafe(Cart.OrZero(Honoured(request.discount, context.createdByAi)), context.currency);
    MoneyOfSafe(OverrideTax(request, context), context.currency);
    var threshold := ThresholdOf(request, context);
    if threshold.Some? {
      MoneyOfSafe(threshold.value, context.currency);
    }
  }

  lemma {:induction false} OverrideExact(t: Totals, overrideTax: Money)
    requires t.tax.currency == t.total.currency == overrideTax.currency
    ensures WithOverride(t, overrideTax) ==
            if IsSafe(t.tax.minor + overrideTax.minor) && IsSafe(t.total.minor + overrideTax.minor)
            then Done(Stored(t.subtotal.minor, t.discount.minor, t.deliveryFee.minor,
                             t.tax.minor + overrideTax.minor, t.total.minor + overrideTax.minor))
            else Broken
  {
    AddExact(t.tax, overrideTax);
    AddExact(t.total, overrideTax);
  }

  /** The columns to store, once the engine has answered `t`. */
  function Columns(t: Totals, overrideTax: int): Stored {
    Stored(t.subtotal.minor, t.discount.minor, t.deliveryFee.minor,
      t.tax.minor + overrideTax, t.total.minor + overrideTax)
  }

  /**
   * An order is priced exactly when the amounts are safe integers before and after, and the
   * engine's rules and ranges hold of it.
   */
  lemma {:induction false} PricedExactly(request: Cart.OrderInput, context: Context)
    ensures PriceOrder(request, context).Done? <==>
            && GivenSafe(request, context)
            && Allowed(WholeOrder(request, context)) && Fits(WholeOrder(request, context))
            && IsSafe(Answer(WholeOrder(request, context)).tax.minor + OverrideTax(request, context))
            && IsSafe(Answer(WholeOrder(request, context)).total.minor + OverrideTax(request, context))
    ensures PriceOrder(request, context).Done? ==>
              PriceOrder(request, context).value
              == Columns(Answer(WholeOrder(request, context)), OverrideTax(request, context))
  {
    PriceOrderSteps(request, context);
    if GivenSafe(request, context) {
      PricedByEngine(WholeOrder(request, context), Money(OverrideTax(request, context), context.currency));
    }
  }

  lemma {:induction false} PricedByEngine(o: ChargeInput, overrideTax: Money)
    requires AmountsSafe(o) && overrideTax.currency == o.currency
    ensures EngineThenOverride(o, overrideTax).Done? <==>
            && Allowed(o) && Fits(o)
            && IsSafe(Answer(o).tax.minor + overrideTax.minor) && IsSafe(Answer(o).total.minor + overrideTax.minor)
    ensures EngineThenOverride(o, overrideTax).Done? ==>
              EngineThenOverride(o, overrideTax).value == Columns(Answer(o), overrideTax.minor)
  {
    ComputeExact(o);
    if Allowed(o) && Fits(o) {
      OverrideExact(Answer(o), overrideTax);
    }
  }

  /** An order made by the AI is priced as if no amount had been typed. */
  lemma {:induction false} AiAmountsIgnored(request: Cart.OrderInput, context: Context)
    requires context.createdByAi
    ensures PriceOrder(request, context)
         == PriceOrder(Cart.OrderInput(request.lines, None, None, None), context)
  {
    var plain := Cart.OrderInput(request.lines, None, None, None);
    assert WholeOrder(request, context) == WholeOrder(plain, context);
    PriceOrderSteps(request, context);
    PriceOrderSteps(plain, context);
  }

  // ----- What is stored -----

  /** The stored figures, in whole numbers. */
  predicate IsStored(request: Cart.OrderInput, context: Context, s: Stored) {
    var o := WholeOrder(request, context);
    && Allowed(o) && Subtotal(o) == GrossTotal(o.lines) == Cart.GoodsTotal(request.lines, context.price)
    && s.subtotal == Subtotal(o) && s.discount == Subtotal(o) - Goods(o) && s.deliveryFee == Fee(o)
    && s.tax == RoundedRate(Taxable(o) * Rate(o)) + OverrideTax(request, context)
    && s.total == Taxable(o) + s.tax
  }

  lemma {:induction false} StoredFigures(request: Cart.OrderInput, context: Context, s: Stored)
    requires PriceOrder(request, context) == Done(s)
    ensures IsStored(request, context, s)
  {
    PricedExactly(request, context);
    WholeLineSums(request.lines, context.price, context.currency);
    RateOfZero();
    TimesZero(Taxable(WholeOrder(request, context)));
  }

  lemma TimesZero(n: int)
    ensures n * 0 == 0
  {
  }

  /**
   * Subtotal less discount plus delivery plus tax is the total, as stored; the discount is the
   * one applied, and without a negative tax override no column is negative.
   */
  lemma {:induction false} StoredColumnsReconcile(request: Cart.OrderInput, context: Context, s: Stored)
    requires PriceOrder(request, context) == Done(s)
    ensures s.subtotal - s.discount + s.deliveryFee + s.tax == s.total
    ensures 0 <= s.discount <= s.subtotal && 0 <= s.deliveryFee
    ensures Cart.OrZero(request.tax) >= 0 ==> 0 <= s.tax && s.deliveryFee + s.tax <= s.total
  {
    var o := WholeOrder(request, context);
    StoredFigures(request, context, s);
    FigureSigns(o);
    ChargeMonotone(Taxable(o), Taxable(o), Rate(o));
  }

  // ----- The form's estimate against the server's total -----

  /** A charge of less than half a minor unit rounds away. */
  lemma SmallCharge(a: int)
    requires a >= 0
    ensures RoundedRate(a) == 0 <==> a < 5000
    ensures RoundedRate(a) >= 0
  {
    RateOfZero();
    RateMonotone(0, a);
    if a < 5000 {
      NonNegativeProduct(a);
    } else {
      NonNegativeProduct(5000);
      RateMonotone(5000, a);
    }
  }

  /** Goods left after the discount. */
  function Left(items: seq<Cart.SelectedItem>, discount: int): int {
    Cart.Max(0, Cart.Subtotal(items) - discount)
  }

  /** With the delivery field blank or zero, the settings charge nothing either. */
  predicate FeeAsShown(items: seq<Cart.SelectedItem>, discount: int, deliveryFee: int, settings: Settings) {
    || deliveryFee > 0 || settings.deliveryFeeMinor == 0
    || (settings.freeDeliveryThresholdMinor.Some? && Left(items, discount) >= settings.freeDeliveryThresholdMinor.value)
  }

  /** With the tax field blank or zero, the configured rate comes to less than half a minor unit. */
  predicate TaxAsShown(items: seq<Cart.SelectedItem>, discount: int, deliveryFee: int, tax: int, settings: Settings) {
    tax > 0 || (Left(items, discount) + deliveryFee) * settings.taxRateBps < 5000
  }

  /** The discount fits the goods, or nothing else is charged that it could eat into. */
  predicate DiscountAsShown(items: seq<Cart.SelectedItem>, discount: int, deliveryFee: int, tax: int) {
    discount <= Cart.Subtotal(items) || deliveryFee + tax == 0
  }

  lemma EstimateArithmetic(subtotal: int, discount: int, deliveryFee: int, tax: int, fee: int, charged: int)
    requires subtotal >= 0 && discount >= 0 && 0 <= deliveryFee <= fee && 0 <= tax <= charged
    ensures var estimate := Cart.Max(0, subtotal - discount + deliveryFee + tax);
            var total := Cart.Max(0, subtotal - discount) + fee + charged;
            && estimate <= total
            && (estimate == total <==>
                deliveryFee == fee && tax == charged && (discount <= subtotal || deliveryFee + tax == 0))
  {
  }

  lemma {:induction false} ChargedFee(items: seq<Cart.SelectedItem>, discount: int, deliveryFee: int, tax: int,
                                      context: Context, s: Stored)
    requires Cart.PricesAgree(items, context.price) && !context.createdByAi
    requires discount >= 0 && deliveryFee >= 0 && tax >= 0
    requires IsStored(Cart.Submitted(items, discount, deliveryFee, tax), context, s)
    ensures s.subtotal == Cart.Subtotal(items) >= 0 && s.total == Left(items, discount) + s.deliveryFee + s.tax
    ensures s.deliveryFee >= deliveryFee
    ensures s.deliveryFee == deliveryFee <==> FeeAsShown(items, discount, deliveryFee, context.settings)
  {
    FigureSigns(WholeOrder(Cart.Submitted(items, discount, deliveryFee, tax), context));
    Cart.GoodsAreSubtotal(items, context.price);
  }

  lemma {:induction false} ChargedTax(items: seq<Cart.SelectedItem>, discount: int, deliveryFee: int, tax: int,
                                      context: Context, s: Stored)
    requires Cart.PricesAgree(items, context.price) && !context.createdByAi
    requires discount >= 0 && deliveryFee >= 0 && tax >= 0
    requires IsStored(Cart.Submitted(items, discount, deliveryFee, tax), context, s)
    ensures s.tax >= tax
    ensures s.deliveryFee == deliveryFee ==>
              (s.tax == tax <==> TaxAsShown(items, discount, deliveryFee, tax, context.settings))
  {
    var o := WholeOrder(Cart.Submitted(items, discount, deliveryFee, tax), context);
    FigureSigns(o);
    Cart.GoodsAreSubtotal(items, context.price);
    ProductOrdered(0, Taxable(o), Rate(o));
    SmallCharge(Taxable(o) * Rate(o));
    TimesZero(Taxable(o));
  }

  /**
   * The estimate the form shows is never more than the server charges, and is what it charges
   * exactly when the discount fits the goods (or nothing else is charged), and blank delivery
   * and tax fields meet settings that charge nothing.
   */
  lemma {:induction false} EstimateAgainstTotal(items: seq<Cart.SelectedItem>, discount: int, deliveryFee: int,
                                                tax: int, context: Context, s: Stored)
    requires Cart.PricesAgree(items, context.price) && !context.createdByAi
    requires discount >= 0 && deliveryFee >= 0 && tax >= 0
    requires PriceOrder(Cart.Submitted(items, discount, deliveryFee, tax), context) == Done(s)
    ensures var estimate := Cart.Estimate(items, discount, deliveryFee, tax);
            && estimate <= s.total
            && (estimate == s.total <==>
                && DiscountAsShown(items, discount, deliveryFee, tax)
                && FeeAsShown(items, discount, deliveryFee, context.settings)
                && TaxAsShown(items, discount, deliveryFee, tax, context.settings))
  {
    StoredFigures(Cart.Submitted(items, discount, deliveryFee, tax), context, s);
    ChargedFee(items, discount, deliveryFee, tax, context, s);
    ChargedTax(items, discount, deliveryFee, tax, context, s);
    EstimateArithmetic(Cart.Subtotal(items), discount, deliveryFee, tax, s.deliveryFee, s.tax);
  }
}
