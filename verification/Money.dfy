/**
 * Money as whole minor units (lib/money.ts), with the arithmetic done where the program
 * does it: in binary64 numbers.
 */
module Money {
  import opened Ieee754
  import opened Sequences

  const MINOR_UNITS_PER_MAJOR: int := 100
  const MAX_SAFE: int := 9007199254740991

  datatype Currency = PKR | USD | AED | GBP | EUR

  datatype Money = Money(minor: int, currency: Currency)

  datatype MoneyError = NotSafeInteger | CurrencyMismatch | FractionalFactor

  datatype Result = Ok(value: Money) | Err(error: MoneyError)

  predicate IsSafe(n: int) {
    -MAX_SAFE <= n <= MAX_SAFE
  }

  /** The only constructor.  Its two refusals, of fractions and of unsafe integers, are one
      error here, so an overflow to infinity needs no case of its own. */
  function MakeMoney(minor: real, currency: Currency): Result {
    if minor.Floor as real != minor || !IsSafe(minor.Floor) then Err(NotSafeInteger)
    else Ok(Money(minor.Floor, currency))
  }

  /** `Math.round`: ties go up. */
  function MathRound(x: real): int {
    (x + 0.5).Floor
  }

  /** The sign-symmetric rounding written out in `fromMajor` and `percentageOf`. */
  function RoundSymmetric(x: real): int {
    if x < 0.0 then -MathRound(-x) else MathRound(x)
  }

  function FromMajor(major: real, currency: Currency): Result {
    MakeMoney(RoundSymmetric(Fl(major * 100.0)) as real, currency)
  }

  function Add(a: Money, b: Money): Result {
    if a.currency != b.currency then Err(CurrencyMismatch)
    else MakeMoney(Fl((a.minor + b.minor) as real), a.currency)
  }

  function Subtract(a: Money, b: Money): Result {
    if a.currency != b.currency then Err(CurrencyMismatch)
    else MakeMoney(Fl((a.minor - b.minor) as real), a.currency)
  }

  function Multiply(value: Money, quantity: real): Result {
    if quantity.Floor as real != quantity then Err(FractionalFactor)
    else MakeMoney(Fl((value.minor * quantity.Floor) as real), value.currency)
  }

  function PercentageOf(value: Money, basisPoints: real): Result {
    if basisPoints.Floor as real != basisPoints then Err(FractionalFactor)
    else
      var product := Fl((value.minor * basisPoints.Floor) as real);
      MakeMoney(RoundSymmetric(Fl(product / 10000.0)) as real, value.currency)
  }

  /** The left fold of `reduce`, from a running total that may already have thrown. */
  function SumFrom(total: Result, values: seq<Money>): Result
    decreases values
  {
    if total.Err? || values == [] then total
    else SumFrom(Add(total.value, values[0]), values[1..])
  }

  function Sum(values: seq<Money>, currency: Currency): Result {
    SumFrom(MakeMoney(0.0, currency), values)
  }

  /** A fractional quantity or rate is refused as one, and nothing else is. */
  lemma {:induction false} FractionsRefused(value: Money, factor: real)
    ensures Multiply(value, factor) == Err(FractionalFactor) <==> factor > factor.Floor as real
    ensures PercentageOf(value, factor) == Err(FractionalFactor) <==> factor > factor.Floor as real
  {
  }

  // ----- Checked integer arithmetic is what the doubles compute -----

  /** A whole number built by one rounded operation: exact when safe, refused otherwise. */
  lemma {:induction false} MakeRounded(n: int, currency: Currency)
    ensures IsSafe(n) ==> MakeMoney(Fl(n as real), currency) == Ok(Money(n, currency))
    ensures !IsSafe(n) ==> MakeMoney(Fl(n as real), currency).Err?
  {
    if IsSafe(n) {
      WholeIsDouble(n);
      FlExact(n as real);
    } else {
      WholeIsDouble(TWO_53);
      WholeIsDouble(-TWO_53);
      FlBounded(n as real, TWO_53 as real);
      FlBounded(n as real, (-TWO_53) as real);
    }
  }

  /** `add` is exact integer addition, and fails exactly on a currency clash or an unsafe sum. */
  lemma {:induction false} AddExact(a: Money, b: Money)
    ensures Add(a, b).Ok? <==> a.currency == b.currency && IsSafe(a.minor + b.minor)
    ensures Add(a, b).Ok? ==> Add(a, b).value == Money(a.minor + b.minor, a.currency)
  {
    MakeRounded(a.minor + b.minor, a.currency);
  }

  lemma {:induction false} SubtractExact(a: Money, b: Money)
    ensures Subtract(a, b).Ok? <==> a.currency == b.currency && IsSafe(a.minor - b.minor)
    ensures Subtract(a, b).Ok? ==> Subtract(a, b).value == Money(a.minor - b.minor, a.currency)
  {
    MakeRounded(a.minor - b.minor, a.currency);
  }

  lemma {:induction false} MultiplyExact(value: Money, quantity: int)
    ensures IsSafe(value.minor * quantity) ==>
              Multiply(value, quantity as real) == Ok(Money(value.minor * quantity, value.currency))
    ensures !IsSafe(value.minor * quantity) ==> Multiply(value, quantity as real).Err?
  {
    MakeRounded(value.minor * quantity, value.currency);
  }

  // ----- Summation -----

  function Total(values: seq<Money>): int {
    if values == [] then 0 else values[0].minor + Total(values[1..])
  }

  function Gain(value: Money): nat {
    if value.minor > 0 then value.minor else 0
  }

  function Loss(value: Money): (t: int)
    ensures t <= 0
  {
    if value.minor < 0 then value.minor else 0
  }

  function Gains(values: seq<Money>): nat {
    if values == [] then 0 else Gain(values[0]) + Gains(values[1..])
  }

  function Losses(values: seq<Money>): (t: int)
    ensures t <= 0
  {
    if values == [] then 0 else Loss(values[0]) + Losses(values[1..])
  }

  predicate OneCurrency(values: seq<Money>, currency: Currency) {
    forall i :: 0 <= i < |values| ==> values[i].currency == currency
  }

  lemma {:induction false} TotalSplits(values: seq<Money>)
    ensures Total(values) == Gains(values) + Losses(values)
  {
    if values != [] {
      TotalSplits(values[1..]);
    }
  }

  /** A fold whose running total stays safe on every path gives the integer total. */
  lemma {:induction false} SumFromExact(start: int, values: seq<Money>, currency: Currency)
    requires OneCurrency(values, currency)
    requires start + Gains(values) <= MAX_SAFE && start + Losses(values) >= -MAX_SAFE
    ensures SumFrom(Ok(Money(start, currency)), values)
         == Ok(Money(start + Total(values), currency))
    decreases values
  {
    if values != [] {
      AddExact(Money(start, currency), values[0]);
      assert OneCurrency(values[1..], currency);
      SumFromExact(start + values[0].minor, values[1..], currency);
    }
  }

  lemma {:induction false} MakeZero(currency: Currency)
    ensures MakeMoney(0.0, currency) == Ok(Money(0, currency))
  {
    MakeRounded(0, currency);
    WholeIsDouble(0);
    FlExact(0.0);
  }

  /** Any success is the exact total in the one currency, with no unsafe step on the way. */
  lemma {:induction false} SumFromSuccess(start: Money, values: seq<Money>)
    requires SumFrom(Ok(start), values).Ok?
    ensures OneCurrency(values, start.currency)
    ensures SumFrom(Ok(start), values).value == Money(start.minor + Total(values), start.currency)
    decreases values
  {
    if values != [] {
      AddExact(start, values[0]);
      SumFromSuccess(Add(start, values[0]).value, values[1..]);
    }
  }

  lemma {:induction false} SumFromAppend(total: Result, first: seq<Money>, second: seq<Money>)
    ensures SumFrom(total, first + second) == SumFrom(SumFrom(total, first), second)
    decreases first
  {
    if first == [] {
      assert first + second == second;
    } else if total.Ok? {
      assert (first + second)[1..] == first[1..] + second;
      SumFromAppend(Add(total.value, first[0]), first[1..], second);
    }
  }

  // ----- Order independence -----

  lemma {:induction false} MeasureWithout(b: seq<Money>, k: nat)
    requires k < |b|
    ensures Gains(b) == Gain(b[k]) + Gains(RemoveAt(b, k))
    ensures Losses(b) == Loss(b[k]) + Losses(RemoveAt(b, k))
  {
    if k == 0 {
      assert RemoveAt(b, 0) == b[1..];
    } else {
      assert RemoveAt(b, k)[1..] == RemoveAt(b[1..], k - 1);
      MeasureWithout(b[1..], k - 1);
    }
  }

  lemma {:induction false} MeasurePermuted(a: seq<Money>, b: seq<Money>)
    requires multiset(a) == multiset(b)
    ensures Gains(a) == Gains(b) && Losses(a) == Losses(b)
  {
    if a == [] {
      assert |multiset(b)| == 0;
    } else {
      var k := HeadOccurs(a, b);
      MeasureWithout(b, k);
      MeasurePermuted(a[1..], RemoveAt(b, k));
    }
  }

  /** `p` is an order in which the values can be added up. */
  ghost predicate IsOrderOf(p: seq<Money>, values: seq<Money>) {
    multiset(p) == multiset(values)
  }

  lemma {:induction false} OneCurrencyPermuted(p: seq<Money>, values: seq<Money>, currency: Currency)
    requires IsOrderOf(p, values) && OneCurrency(values, currency)
    ensures OneCurrency(p, currency)
  {
    forall i | 0 <= i < |p|
      ensures p[i].currency == currency
    {
      assert p[i] in multiset(values);
    }
  }

  /** The values with a gain (or, the other way, with a loss), or all the others. */
  function Part(values: seq<Money>, gains: bool, taken: bool): seq<Money> {
    if values == [] then []
    else
      var rest := Part(values[1..], gains, taken);
      if (if gains then values[0].minor > 0 else values[0].minor < 0) == taken then [values[0]] + rest
      else rest
  }

  lemma {:induction false} PartTotal(values: seq<Money>, gains: bool)
    ensures Total(Part(values, gains, true)) == if gains then Gains(values) else Losses(values)
  {
    if values != [] {
      var rest := Part(values[1..], gains, true);
      PartTotal(values[1..], gains);
      assert ([values[0]] + rest)[1..] == rest;
    }
  }

  lemma {:induction false} PartitionIsOrder(values: seq<Money>, gains: bool)
    ensures IsOrderOf(Part(values, gains, true) + Part(values, gains, false), values)
  {
    if values != [] {
      var a, b := Part(values[1..], gains, true), Part(values[1..], gains, false);
      PartitionIsOrder(values[1..], gains);
      assert values == [values[0]] + values[1..];
      assert multiset(a + b) == multiset(values[1..]);
    }
  }

  /** When the sum over first ++ second succeeds, the total of first is safe. */
  lemma {:induction false} PrefixSafe(first: seq<Money>, second: seq<Money>, currency: Currency)
    requires Sum(first + second, currency).Ok?
    ensures IsSafe(Total(first))
  {
    MakeZero(currency);
    var zero := MakeMoney(0.0, currency);
    SumFromAppend(zero, first, second);
    assert SumFrom(zero, first).Ok?;
    SumFromSuccess(Money(0, currency), first);
    SumFromSafe(Money(0, currency), first);
  }

  lemma {:induction false} SumFromSafe(start: Money, values: seq<Money>)
    requires IsSafe(start.minor) && SumFrom(Ok(start), values).Ok?
    ensures IsSafe(SumFrom(Ok(start), values).value.minor)
    decreases values
  {
    if values != [] {
      AddExact(start, values[0]);
      SumFromSafe(Add(start, values[0]).value, values[1..]);
    }
  }

  ghost predicate SumsInEveryOrder(values: seq<Money>, currency: Currency) {
    forall p :: IsOrderOf(p, values) ==> Sum(p, currency).Ok?
  }

  /**
   * `sum` succeeds in every order exactly when all values carry the one currency and the
   * gains alone and the losses alone are safe integers; the answer is then the integer total.
   */
  lemma {:induction false} SumOrderIndependent(values: seq<Money>, currency: Currency)
    ensures SumsInEveryOrder(values, currency) <==>
            OneCurrency(values, currency) && Gains(values) <= MAX_SAFE && Losses(values) >= -MAX_SAFE
    ensures SumsInEveryOrder(values, currency) ==>
              forall p :: IsOrderOf(p, values) ==> Sum(p, currency) == Ok(Money(Total(values), currency))
  {
    MakeZero(currency);
    if OneCurrency(values, currency) && Gains(values) <= MAX_SAFE && Losses(values) >= -MAX_SAFE {
      forall p | IsOrderOf(p, values)
        ensures Sum(p, currency) == Ok(Money(Total(values), currency))
      {
        MeasurePermuted(p, values);
        OneCurrencyPermuted(p, values, currency);
        SumFromExact(0, p, currency);
        TotalSplits(p);
        TotalSplits(values);
      }
    }
    if SumsInEveryOrder(values, currency) {
      SafeInEveryOrder(values, currency);
    }
  }

  lemma {:induction false} SafeInEveryOrder(values: seq<Money>, currency: Currency)
    requires SumsInEveryOrder(values, currency)
    ensures OneCurrency(values, currency) && Gains(values) <= MAX_SAFE && Losses(values) >= -MAX_SAFE
  {
    MakeZero(currency);
    assert IsOrderOf(values, values);
    SumFromSuccess(Money(0, currency), values);
    PartitionIsOrder(values, true);
    PrefixSafe(Part(values, true, true), Part(values, true, false), currency);
    PartTotal(values, true);
    PartitionIsOrder(values, false);
    PrefixSafe(Part(values, false, true), Part(values, false, false), currency);
    PartTotal(values, false);
  }

  // ----- Multiplication distributes over summation -----

  function Abs(n: int): nat {
    if n < 0 then -n else n
  }

  function Magnitude(values: seq<Money>): (t: nat)
    ensures Gains(values) <= t && Losses(values) + t >= 0
  {
    if values == [] then 0 else Abs(values[0].minor) + Magnitude(values[1..])
  }

  function Scale(values: seq<Money>, quantity: int): (r: seq<Money>)
    ensures |r| == |values|
    ensures forall i :: 0 <= i < |r| ==> r[i] == Money(values[i].minor * quantity, values[i].currency)
  {
    seq(|values|, i requires 0 <= i < |values| => Money(values[i].minor * quantity, values[i].currency))
  }

  lemma AbsProduct(a: int, b: int)
    ensures Abs(a * b) == Abs(a) * Abs(b)
  {
    if a < 0 && b < 0 {
      assert a * b == (-a) * (-b);
    }
  }

  lemma Distributes(a: int, b: int, c: int)
    ensures (a + b) * c == a * c + b * c
  {
  }

  lemma {:induction false} ScaleMeasures(values: seq<Money>, quantity: int)
    ensures Total(Scale(values, quantity)) == Total(values) * quantity
    ensures Magnitude(Scale(values, quantity)) == Magnitude(values) * Abs(quantity)
    ensures Abs(Total(values)) <= Magnitude(values)
  {
    if values != [] {
      var head, tail := values[0].minor, values[1..];
      assert Scale(values, quantity)[1..] == Scale(tail, quantity);
      ScaleMeasures(tail, quantity);
      AbsProduct(head, quantity);
      Distributes(head, Total(tail), quantity);
      Distributes(Abs(head), Magnitude(tail), Abs(quantity));
    }
  }

  lemma {:induction false} MagnitudeBoundsItems(values: seq<Money>, i: nat)
    requires i < |values|
    ensures Abs(values[i].minor) <= Magnitude(values)
  {
    if i > 0 {
      MagnitudeBoundsItems(values[1..], i - 1);
    }
  }

  /** Pricing each line and adding up equals adding up and pricing once. */
  lemma {:induction false} MultiplyDistributes(values: seq<Money>, quantity: int, currency: Currency)
    requires OneCurrency(values, currency)
    requires Magnitude(values) <= MAX_SAFE && Magnitude(Scale(values, quantity)) <= MAX_SAFE
    ensures forall i :: 0 <= i < |values| ==>
              Multiply(values[i], quantity as real) == Ok(Scale(values, quantity)[i])
    ensures Sum(values, currency).Ok? && Sum(Scale(values, quantity), currency).Ok?
    ensures Multiply(Sum(values, currency).value, quantity as real) == Sum(Scale(values, quantity), currency)
  {
    MakeZero(currency);
    SumFromExact(0, values, currency);
    SumFromExact(0, Scale(values, quantity), currency);
    ScaleMeasures(values, quantity);
    ScaleMeasures(Scale(values, quantity), 1);
    MultiplyExact(Money(Total(values), currency), quantity);
    forall i | 0 <= i < |values|
      ensures Multiply(values[i], quantity as real) == Ok(Scale(values, quantity)[i])
    {
      MagnitudeBoundsItems(Scale(values, quantity), i);
      MultiplyExact(values[i], quantity);
    }
  }
}
