/**
 * Basis-point percentages (`percentageOf` in lib/money.ts): where the two roundings of the
 * double computation still give exact rounding half away from zero, and how far per-line
 * rounding can drift from rounding once.
 */
module Percentages {
  import opened PowersOfTwo
  import opened Ieee754
  import opened Money
  import opened Quotients

  /** Rounding a / 10000 half away from zero, in whole numbers. */
  function HalfAway(a: int): int {
    if a < 0 then -((2 * -a + 10000) / 20000) else (2 * a + 10000) / 20000
  }

  /** `r` is nearest to a / 10000, and on a tie lies on the far side of it from zero. */
  predicate IsHalfAway(a: int, r: int) {
    && -5000 <= 10000 * r - a <= 5000
    && (10000 * r - a == 5000 ==> a > 0)
    && (10000 * r - a == -5000 ==> a < 0)
  }

  lemma HalfAwayCharacterised(a: int, r: int)
    ensures r == HalfAway(a) <==> IsHalfAway(a, r)
  {
  }

  /** The products below this one come out right; this one does not. */
  const FIRST_WRONG_PRODUCT: int := 9007199254744999

  /** The double computation on a whole product: round it, divide, round, round to whole. */
  function RoundedRate(a: int): int {
    RoundSymmetric(Fl(Fl(a as real) / 10000.0))
  }

  lemma RoundSymmetricOdd(x: real)
    ensures RoundSymmetric(-x) == -RoundSymmetric(x)
  {
  }

  lemma RoundedRateOdd(a: int)
    ensures RoundedRate(-a) == -RoundedRate(a)
  {
    var p := Fl(a as real);
    FlOdd(a as real);
    assert (-a) as real == -(a as real);
    NegatedQuotient(p);
    FlOdd(p / 10000.0);
    RoundSymmetricOdd(Fl(p / 10000.0));
  }

  lemma NegatedQuotient(p: real)
    ensures (-p) / 10000.0 == -(p / 10000.0)
  {
  }

  /** A product that is not negative goes through the rounded quotient of `Quotients`. */
  lemma {:induction false} RateIsRatio(a: nat)
    ensures RoundedRate(a) == RoundedRatio(a, 10000) && HalfAway(a) == HalfUp(a, 10000)
  {
    WholeIsDouble(0);
    FlBounded(a as real, 0.0);
    FlBounded(Fl(a as real) / 10000.0, 0.0);
  }

  // ----- Which products come out right -----

  const TWO_56: int := 72057594037927936

  /** How far below a tie a product is moved onto it by rounding to a double. */
  function Reach(a: nat): nat {
    if a <= TWO_53 then 0 else if a < 2 * TWO_53 then 1 else if a < 4 * TWO_53 then 2 else 3
  }

  /** Too close below a tie of a / 10000. */
  predicate FallsOntoTie(a: nat) {
    5000 - Reach(a) <= a % 10000 < 5000
  }

  lemma {:induction false} GrainOf(a: nat)
    requires TWO_53 <= a < TWO_56
    ensures Grain(a) == if a < 2 * TWO_53 then 2 else if a < 4 * TWO_53 then 4 else 8
  {
    assert Grain(a) == 2 * Grain(a / 2);
    if a >= 2 * TWO_53 {
      assert Grain(a / 2) == 2 * Grain(a / 2 / 2);
      if a >= 4 * TWO_53 {
        assert Grain(a / 2 / 2) == 2 * Grain(a / 2 / 2 / 2);
      }
    }
  }

  lemma {:induction false} GrainFineness(a: nat, near: nat, g: nat)
    requires TWO_53 <= a < TWO_56 && g == Grain(a) && near == NearestDouble(a)
    ensures 0 < near <= g * TWO_53 && near < TWO_53 * 10000
    ensures (g == 2 || g == 4 || g == 8) && g * Fineness(near, 10000) >= 8192
  {
    GrainOf(a);
    HalfEvenBound(a, g);
    TwoOf14();
    assert Two(11) == 2048 && Two(10) == 1024 && Two(9) == 512;
    if g == 2 {
      FinenessAbove(near, 10000, 11);
    } else if g == 4 {
      FinenessAbove(near, 10000, 10);
    } else {
      FinenessAbove(near, 10000, 9);
    }
  }

  lemma {:induction false} HalfEvenBound(a: nat, g: nat)
    requires (g == 2 || g == 4 || g == 8) && g * TWO_52 <= a < g * TWO_53
    ensures TWO_52 <= HalfEven(a, g) <= TWO_53
  {
  }

  lemma {:induction false} MultipleStays(t: int, g: nat, f: nat, n: nat, s: int)
    requires (g == 2 || g == 4 || g == 8) && g * f >= 8192 && f >= 4 && s == 2 * g * t
    ensures Stays(s, 10000, f, n) <==> 0 <= s < 20000
  {
    var gf := g * f;
    assert s * f == 2 * (t * gf);
    if t < 0 {
      Ordered(t, -1, gf);
    } else if s < 20000 {
      assert 20000 * f - s * f == (20000 - s) * f;
      assert 20000 - s >= 2 * g;
      Ordered(2 * g, 20000 - s, f);
    } else {
      Ordered(20000, s, f);
    }
  }

  lemma {:induction false} ResidueOfRate(a: nat, n: nat)
    requires n == HalfUp(a, 10000)
    ensures Residue(a, 10000) == 2 * a + 10000 - 20000 * n
    ensures 10000 * n <= a + 5000 < 10000 * n + 10000
  {
  }

  lemma {:induction false} OffsetSmall(a: nat, g: nat, k: nat)
    requires (g == 2 || g == 4 || g == 8) && k == HalfEven(a, g)
    ensures -(g as int) <= 2 * (g * k - a) <= g
  {
  }

  /** Near a tie of a / 10000 the offset of the nearest multiple is read off the residue. */
  lemma {:induction false} OffsetNearTie(a: nat, g: nat, k: nat, j: int)
    requires (g == 2 || g == 4 || g == 8) && k == HalfEven(a, g)
    requires a % 10000 == 5000 + j && -4 <= j <= 4
    ensures if j < 0 then g * k - a >= -j <==> -j < (if g == 2 then 2 else if g == 4 then 3 else 4)
            else g * k - a >= -j
  {
    var b := 625 * (a / 10000) + 312;
    assert a == 16 * b + (8 + j);
    HalfEvenShifted(a, g, b, 8 + j);
    OffsetOfSmall(g, 8 + j);
  }

  lemma {:induction false} HalfEvenShifted(a: nat, g: nat, b: nat, c: nat)
    requires (g == 2 || g == 4 || g == 8) && a == 16 * b + c
    ensures g * HalfEven(a, g) - a == g * HalfEven(c, g) - c
  {
    if g == 2 {
      ShiftedBy2(a, 8 * b, c);
    } else if g == 4 {
      ShiftedBy4(a, 4 * b, c);
    } else {
      ShiftedBy8(a, 2 * b, c);
    }
  }

  lemma {:induction false} ShiftedBy2(a: nat, m: nat, c: nat)
    requires a == 2 * m + c && m % 2 == 0
    ensures HalfEven(a, 2) == m + HalfEven(c, 2)
  {
    assert a / 2 == m + c / 2 && a % 2 == c % 2;
  }

  lemma {:induction false} ShiftedBy4(a: nat, m: nat, c: nat)
    requires a == 4 * m + c && m % 2 == 0
    ensures HalfEven(a, 4) == m + HalfEven(c, 4)
  {
    assert a / 4 == m + c / 4 && a % 4 == c % 4;
  }

  lemma {:induction false} ShiftedBy8(a: nat, m: nat, c: nat)
    requires a == 8 * m + c && m % 2 == 0
    ensures HalfEven(a, 8) == m + HalfEven(c, 8)
  {
    assert a / 8 == m + c / 8 && a % 8 == c % 8;
  }

  lemma {:induction false} OffsetOfSmall(g: nat, c: nat)
    requires (g == 2 || g == 4 || g == 8) && 4 <= c <= 12
    ensures var offset := g * HalfEven(c, g) - c;
            if c < 8 then offset >= 8 - c <==> 8 - c < (if g == 2 then 2 else if g == 4 then 3 else 4)
            else offset >= 8 - c
  {
  }

  /** Onto a tie from below is the only way a rounded product can change its quotient. */
  lemma {:induction false} NearestResidue(a: nat, g: nat, k: nat, n: nat)
    requires TWO_53 < a < TWO_56 && g == Grain(a) && k == HalfEven(a, g) && n == HalfUp(a, 10000)
    ensures 0 <= g * k + 5000 - 10000 * n < 10000 <==> !FallsOntoTie(a)
  {
    GrainOf(a);
    var j := a % 10000 - 5000;
    OffsetSmall(a, g, k);
    if -4 <= j <= 4 {
      OffsetNearTie(a, g, k, j);
    }
    BucketByResidue(a, g * k - a, n, j);
  }

  lemma {:induction false} BucketByResidue(a: nat, offset: int, n: nat, j: int)
    requires n == HalfUp(a, 10000) && j == a % 10000 - 5000 && -4 <= offset <= 4
    ensures 0 <= a + offset + 5000 - 10000 * n < 10000
            <==> if j < 0 then offset < -j else offset >= -j
  {
    ResidueOfRate(a, n);
  }

  lemma {:induction false} LargeUndisturbed(a: nat)
    requires TWO_53 < a < TWO_56
    ensures Undisturbed(a, 10000) <==> !FallsOntoTie(a)
  {
    var g, n := Grain(a), HalfUp(a, 10000);
    var k := HalfEven(a, g);
    GrainFineness(a, g * k, g);
    NearestResidue(a, g, k, n);
    ResidueStays(a, g, k, n);
  }

  lemma {:induction false} ResidueStays(a: nat, g: nat, k: nat, n: nat)
    requires (g == 2 || g == 4 || g == 8) && g * k > 0 && n == HalfUp(a, 10000)
    requires g * Fineness(g * k, 10000) >= 8192
    ensures Stays(Residue(a, 10000) + 2 * (g * k - a), 10000, Fineness(g * k, 10000), n)
            <==> 0 <= g * k + 5000 - 10000 * n < 10000
  {
    var near, t := g * k, k + 5000 / g - (10000 / g) * n;
    InMultiples(g, k, n, t);
    ResidueOfRate(a, n);
    AtLeastFour(g, Fineness(near, 10000));
    MultipleStays(t, g, Fineness(near, 10000), n, 2 * near + 10000 - 20000 * n);
  }

  /** One that falls onto the tie lands in the next place. */
  lemma {:induction false} ResidueMoves(a: nat, g: nat, k: nat, n: nat)
    requires (g == 2 || g == 4 || g == 8) && g * k > 0 && n == HalfUp(a, 10000)
    requires g * Fineness(g * k, 10000) >= 8192 && 0 <= g * k - 5000 - 10000 * n < 10000
    ensures Stays(2 * (g * k) - 10000 - 20000 * n, 10000, Fineness(g * k, 10000), n + 1)
  {
    var near, t := g * k, k + 5000 / g - (10000 / g) * (n + 1);
    InMultiples(g, k, n + 1, t);
    AtLeastFour(g, Fineness(near, 10000));
    MultipleStays(t, g, Fineness(near, 10000), n + 1, 2 * near - 10000 - 20000 * n);
  }

  lemma {:induction false} LandsNext(a: nat, g: nat, k: nat, n: nat)
    requires TWO_53 < a < TWO_56 && g == Grain(a) && k == HalfEven(a, g) && n == HalfUp(a, 10000)
    requires FallsOntoTie(a)
    ensures 0 <= g * k - 5000 - 10000 * n < 10000
  {
    GrainOf(a);
    OffsetSmall(a, g, k);
    ResidueOfRate(a, n);
    NearestResidue(a, g, k, n);
    NextPlace(a, g * k, n);
  }

  lemma {:induction false} NextPlace(a: nat, near: nat, n: nat)
    requires 0 <= a + 5000 - 10000 * n < 10000 && a % 10000 < 5000 && -4 <= near - a <= 4
    requires !(0 <= near + 5000 - 10000 * n < 10000) && a % 10000 >= 4990
    ensures 0 <= near - 5000 - 10000 * n < 10000
  {
  }

  lemma {:induction false} LargeMisses(a: nat)
    requires TWO_53 < a < TWO_56 && FallsOntoTie(a)
    ensures RoundedRatio(a, 10000) == HalfUp(a, 10000) + 1
  {
    var g, n := Grain(a), HalfUp(a, 10000);
    var k := HalfEven(a, g);
    GrainFineness(a, g * k, g);
    LandsNext(a, g, k, n);
    ResidueMoves(a, g, k, n);
    WholeRoundIs(g * k, 10000, n + 1, 2 * (g * k) - 10000 - 20000 * n);
    RatioInWhole(a, 10000);
  }

  lemma {:induction false} InMultiples(g: nat, k: nat, n: nat, t: int)
    requires (g == 2 || g == 4 || g == 8) && t == k + 5000 / g - (10000 / g) * n
    ensures 2 * g * t == 2 * (g * k) + 10000 - 20000 * n
  {
  }

  lemma {:induction false} AtLeastFour(g: nat, f: nat)
    requires g <= 8 && g * f >= 8192
    ensures f >= 4
  {
    Ordered(g, 8, f);
  }

  /** Below 2^56 a product comes out right exactly when it does not fall onto a tie. */
  lemma {:induction false} SimplyUndisturbed(a: nat)
    requires a < TWO_56
    ensures Undisturbed(a, 10000) <==> !FallsOntoTie(a)
  {
    if a > TWO_53 {
      LargeUndisturbed(a);
    } else {
      SmallUndisturbed(a, 10000);
      EvenResidue(a);
    }
  }

  /** The residue is even and no tie is closer than 2 to a double. */
  lemma {:induction false} EvenResidue(a: nat)
    requires a <= TWO_53
    ensures ClearOfTie(a, 10000)
  {
    assert Residue(a, 10000) % 2 == 0;
  }

  lemma {:induction false} TooLarge(a: nat)
    requires NearestDouble(a) >= TWO_53 * 10000
    ensures RoundedRatio(a, 10000) >= TWO_53
  {
    FlOfWhole(a);
    WholeIsDouble(TWO_53);
    FlBounded(Fl(a as real) / 10000.0, TWO_53 as real);
  }

  /** Every product: right and safe exactly when its residue stays and the true rate is safe. */
  lemma {:induction false} RateExactly(a: nat)
    ensures RoundedRate(a) == HalfAway(a) <= MAX_SAFE <==> Undisturbed(a, 10000) && HalfAway(a) <= MAX_SAFE
  {
    RateIsRatio(a);
    if NearestDouble(a) < TWO_53 * 10000 {
      RatioExactly(a, 10000);
    } else {
      TooLarge(a);
    }
  }

  lemma {:induction false} NonNegativeProduct(a: int)
    requires 0 <= a < FIRST_WRONG_PRODUCT
    ensures RoundedRate(a) == HalfAway(a)
  {
    BelowFirstWrong(a);
    SimplyUndisturbed(a);
    RateExactly(a);
  }

  lemma {:induction false} BelowFirstWrong(a: nat)
    requires a < FIRST_WRONG_PRODUCT
    ensures !FallsOntoTie(a)
  {
    if a > TWO_53 {
      assert a - 9007199254740000 < 4999;
      assert a % 10000 == a - 9007199254740000;
    }
  }

  /** Both signs. */
  lemma SignedRate(a: int)
    ensures RoundedRate(a) == HalfAway(a) <==> RoundedRate(Abs(a)) == HalfAway(Abs(a))
    ensures Abs(HalfAway(a)) == HalfAway(Abs(a))
  {
    if a < 0 {
      RoundedRateOdd(a);
    }
  }

  /**
   * On every amount and rate, `percentageOf` gives the product over 10000 rounded half away
   * from zero exactly when that is a safe integer and the two double roundings leave the
   * residue of the product where it belongs.
   */
  lemma {:induction false} PercentageExactly(value: Money, basisPoints: int)
    ensures var a := value.minor * basisPoints;
            PercentageOf(value, basisPoints as real) == Ok(Money(HalfAway(a), value.currency))
            <==> Undisturbed(Abs(a), 10000) && HalfAway(Abs(a)) <= MAX_SAFE
  {
    var a := value.minor * basisPoints;
    SignedRate(a);
    RateExactly(Abs(a));
    RateResult(value, basisPoints, a);
  }

  lemma {:induction false} RateResult(value: Money, basisPoints: int, a: int)
    requires a == value.minor * basisPoints
    ensures PercentageOf(value, basisPoints as real) ==
            if IsSafe(RoundedRate(a)) then Ok(Money(RoundedRate(a), value.currency)) else Err(NotSafeInteger)
  {
  }

  /** Below 2^56 a product that falls onto a tie is rounded one too high, any other exactly. */
  lemma {:induction false} RateBelow56(a: nat)
    requires a < TWO_56
    ensures RoundedRate(a) == HalfAway(a) + if FallsOntoTie(a) then 1 else 0
    ensures HalfAway(a) < MAX_SAFE
  {
    RateIsRatio(a);
    SimplyUndisturbed(a);
    RateExactly(a);
    if FallsOntoTie(a) {
      LargeMisses(a);
    }
  }

  /** What a product below 2^56 in size is rounded to. */
  function RateByResidue(a: int): int {
    HalfAway(a) + if !FallsOntoTie(Abs(a)) then 0 else if a < 0 then -1 else 1
  }

  /**
   * Products below 2^56 in size are wrong just 1, 2 or 3 below a tie, and then by one minor
   * unit away from zero.
   */
  lemma {:induction false} PercentageByResidue(value: Money, basisPoints: int)
    requires Abs(value.minor * basisPoints) < TWO_56
    ensures var a := value.minor * basisPoints;
            && PercentageOf(value, basisPoints as real) == Ok(Money(RateByResidue(a), value.currency))
            && (RateByResidue(a) == HalfAway(a) <==> !FallsOntoTie(Abs(a)))
  {
    var a := value.minor * basisPoints;
    RateBelow56(Abs(a));
    if a < 0 {
      RoundedRateOdd(a);
    }
    RateResult(value, basisPoints, a);
  }

  /** In particular all products below the first wrong one come out right. */
  lemma {:induction false} PercentageExact(value: Money, basisPoints: int)
    requires -FIRST_WRONG_PRODUCT < value.minor * basisPoints < FIRST_WRONG_PRODUCT
    ensures PercentageOf(value, basisPoints as real)
         == Ok(Money(HalfAway(value.minor * basisPoints), value.currency))
  {
    BelowFirstWrong(Abs(value.minor * basisPoints));
    PercentageByResidue(value, basisPoints);
  }

  /** At the first wrong product the answer is a whole minor unit too large. */
  lemma PercentageFirstWrong()
    ensures 1286742750677857 * 7 == FIRST_WRONG_PRODUCT && IsSafe(1286742750677857)
    ensures HalfAway(FIRST_WRONG_PRODUCT) == 900719925474
    ensures PercentageOf(Money(1286742750677857, PKR), 7.0) == Ok(Money(900719925475, PKR))
  {
    var a := FIRST_WRONG_PRODUCT as real;
    Pow2Plus53(0);
    Pow2Step(53);
    assert Pow2(0) == 1.0 && Pow2(1) == 2.0 && Pow2(1 + 52) == TWO_53 as real;
    assert a / Pow2(1) == 4503599627372499.5;
    FlAt(a, 1, 4503599627372500);
    assert Fl(a) == 9007199254745000.0;
    HalfIsDouble(1801439850949);
    FlExact(900719925474.5);
  }

  lemma NegatedProduct(a: int, b: int)
    ensures (-a) * b == -(a * b)
  {
  }

  lemma {:induction false} MakeNegated(n: int, currency: Currency)
    ensures MakeMoney((-n) as real, currency)
         == match MakeMoney(n as real, currency)
            case Ok(r) => Ok(Money(-r.minor, r.currency))
            case Err(e) => Err(e)
  {
  }

  /** Negating the amount negates the result, on every input. */
  lemma {:induction false} PercentageOdd(value: Money, basisPoints: real)
    ensures PercentageOf(Money(-value.minor, value.currency), basisPoints)
         == match PercentageOf(value, basisPoints)
            case Ok(r) => Ok(Money(-r.minor, r.currency))
            case Err(e) => Err(e)
  {
    var a := value.minor * basisPoints.Floor;
    RoundedRateOdd(a);
    NegatedProduct(value.minor, basisPoints.Floor);
    MakeNegated(RoundedRate(a), value.currency);
  }

  // ----- Per-line rounding against rounding once -----

  function PercentageAll(values: seq<Money>, basisPoints: int): (r: seq<Result>)
    ensures |r| == |values|
    ensures forall i :: 0 <= i < |r| ==> r[i] == PercentageOf(values[i], basisPoints as real)
  {
    seq(|values|, i requires 0 <= i < |values| => PercentageOf(values[i], basisPoints as real))
  }

  /** The total of the results, when none of them threw. */
  function TotalOf(results: seq<Result>): int
    requires forall i :: 0 <= i < |results| ==> results[i].Ok?
  {
    if results == [] then 0 else results[0].value.minor + TotalOf(results[1..])
  }

  predicate AllOk(results: seq<Result>) {
    forall i :: 0 <= i < |results| ==> results[i].Ok?
  }

  /** What the double computation adds to a / 10000, in ten-thousandths. */
  function RateError(a: int): int {
    10000 * RoundedRate(a) - a
  }

  function ErrorTotal(scaled: seq<Money>): int {
    if scaled == [] then 0 else RateError(scaled[0].minor) + ErrorTotal(scaled[1..])
  }

  lemma {:induction false} OkIsRate(value: Money, basisPoints: int)
    requires PercentageOf(value, basisPoints as real).Ok?
    ensures PercentageOf(value, basisPoints as real).value.minor == RoundedRate(value.minor * basisPoints)
    ensures IsSafe(RoundedRate(value.minor * basisPoints))
  {
    RateResult(value, basisPoints, value.minor * basisPoints);
  }

  /** Lines that are all rounded add up to the exact sum and the errors. */
  lemma {:induction false} LinesSummed(values: seq<Money>, basisPoints: int)
    requires AllOk(PercentageAll(values, basisPoints))
    ensures 10000 * TotalOf(PercentageAll(values, basisPoints))
         == Total(Scale(values, basisPoints)) + ErrorTotal(Scale(values, basisPoints))
  {
    if values != [] {
      assert Scale(values, basisPoints)[1..] == Scale(values[1..], basisPoints);
      assert PercentageAll(values, basisPoints)[1..] == PercentageAll(values[1..], basisPoints);
      assert PercentageAll(values, basisPoints)[0].Ok?;
      OkIsRate(values[0], basisPoints);
      LinesSummed(values[1..], basisPoints);
    }
  }

  predicate ErrorsWithin(scaled: seq<Money>, bound: nat) {
    forall i :: 0 <= i < |scaled| ==> 0 - bound <= RateError(scaled[i].minor) <= bound
  }

  lemma {:induction false} ErrorTotalWithin(scaled: seq<Money>, bound: nat)
    requires ErrorsWithin(scaled, bound)
    ensures -(bound * |scaled|) <= ErrorTotal(scaled) <= bound * |scaled|
  {
    if scaled != [] {
      assert 0 - bound <= RateError(scaled[0].minor) <= bound;
      ErrorTotalWithin(scaled[1..], bound);
      OneMoreTime(bound, |scaled[1..]|, |scaled|);
    }
  }

  lemma {:induction false} OneMoreTime(bound: nat, n: nat, next: nat)
    requires next == n + 1
    ensures bound * next == bound * n + bound
  {
  }

  predicate AllExact(scaled: seq<Money>) {
    forall i :: 0 <= i < |scaled| ==> RoundedRate(scaled[i].minor) == HalfAway(scaled[i].minor)
  }

  lemma {:induction false} ExactErrorTotal(scaled: seq<Money>)
    requires AllExact(scaled)
    ensures -5000 * |scaled| <= ErrorTotal(scaled) <= 5000 * |scaled|
    ensures scaled != [] && ErrorTotal(scaled) == 5000 * |scaled| ==> Total(scaled) > 0
    ensures scaled != [] && ErrorTotal(scaled) == -5000 * |scaled| ==> Total(scaled) < 0
  {
    if scaled != [] {
      assert RoundedRate(scaled[0].minor) == HalfAway(scaled[0].minor);
      HalfAwayCharacterised(scaled[0].minor, HalfAway(scaled[0].minor));
      ExactErrorTotal(scaled[1..]);
    }
  }

  /** The double roundings of a rate that comes out safe miss it by less than two units. */
  lemma {:induction false} RateErrorBounded(a: nat)
    requires RoundedRate(a) <= MAX_SAFE
    ensures -18192 <= RateError(a) <= 18192
  {
    var p := Fl(a as real);
    RateInRange(a, p);
    Pow2Plus13(0);
    Pow2Step(13);
    Pow2Plus53(14);
    Pow2Plus53(0);
    FlError(a as real, 14);
    FlError(p / 10000.0, 0);
    ErrorsAddUp(a, p, Fl(p / 10000.0), RoundedRate(a));
  }

  lemma {:induction false} RateInRange(a: nat, p: real)
    requires p == Fl(a as real) && RoundedRate(a) <= MAX_SAFE
    ensures 0.0 <= p / 10000.0 < TWO_53 as real && a < 10000 * TWO_53
    ensures RoundedRate(a) == MathRound(Fl(p / 10000.0))
  {
    WholeIsDouble(0);
    FlBounded(a as real, 0.0);
    FlBounded(p / 10000.0, 0.0);
    WholeIsDouble(TWO_53);
    FlBounded(p / 10000.0, TWO_53 as real);
    Pow2Plus53(0);
    ScaledIsDouble(10000, 53);
    FlBounded(a as real, 10000.0 * TWO_53 as real);
  }

  lemma {:induction false} ErrorsAddUp(a: nat, p: real, y: real, r: int)
    requires -8192.0 <= p - a as real <= 8192.0 && -0.5 <= y - p / 10000.0 <= 0.5 && r == MathRound(y)
    ensures -18192 <= 10000 * r - a <= 18192
  {
  }

  lemma {:induction false} SafeErrorBounded(a: int)
    requires IsSafe(RoundedRate(a))
    ensures -18192 <= RateError(a) <= 18192
  {
    RoundedRateOdd(a);
    RateErrorBounded(Abs(a));
  }

  lemma {:induction false} ResidueErrorBounded(a: int)
    requires Abs(a) < TWO_56
    ensures -5003 <= RateError(a) <= 5003
  {
    RoundedRateOdd(a);
    RateBelow56(Abs(a));
    HalfAwayCharacterised(Abs(a), HalfAway(Abs(a)));
    OntoTieError(Abs(a));
  }

  lemma {:induction false} OntoTieError(a: nat)
    ensures FallsOntoTie(a) ==> 10000 * (HalfAway(a) + 1) - a <= 5003
  {
  }

  lemma {:induction false} LinesWithinResidue(values: seq<Money>, basisPoints: int)
    requires Magnitude(Scale(values, basisPoints)) < TWO_56
    ensures AllOk(PercentageAll(values, basisPoints)) && ErrorsWithin(Scale(values, basisPoints), 5003)
  {
    var scaled := Scale(values, basisPoints);
    forall i | 0 <= i < |values|
      ensures PercentageAll(values, basisPoints)[i].Ok?
      ensures -5003 <= RateError(scaled[i].minor) <= 5003
    {
      MagnitudeBoundsItems(scaled, i);
      PercentageByResidue(values[i], basisPoints);
      ResidueErrorBounded(scaled[i].minor);
    }
  }

  /** What the lines' sum and the rounded sum miss each other by are the errors. */
  lemma {:induction false} DriftIsErrors(values: seq<Money>, basisPoints: int, currency: Currency) returns (drift: int)
    requires AllOk(PercentageAll(values, basisPoints)) && Sum(values, currency).Ok?
    requires PercentageOf(Sum(values, currency).value, basisPoints as real).Ok?
    ensures var scaled := Scale(values, basisPoints);
            && IsSafe(RoundedRate(Total(scaled)))
            && 10000 * drift == ErrorTotal(scaled) - RateError(Total(scaled))
    ensures drift == TotalOf(PercentageAll(values, basisPoints))
                     - PercentageOf(Sum(values, currency).value, basisPoints as real).value.minor
  {
    LinesSummed(values, basisPoints);
    MakeZero(currency);
    SumFromSuccess(Money(0, currency), values);
    ScaleMeasures(values, basisPoints);
    OkIsRate(Sum(values, currency).value, basisPoints);
    drift := TotalOf(PercentageAll(values, basisPoints))
             - PercentageOf(Sum(values, currency).value, basisPoints as real).value.minor;
  }

  /**
   * Whenever every line and the sum are rounded at all, rounding each of n lines and adding up
   * differs from rounding the sum by less than 2 (n + 1) minor units.
   */
  lemma {:induction false} PercentageDriftAlways(values: seq<Money>, basisPoints: int, currency: Currency)
    requires AllOk(PercentageAll(values, basisPoints)) && Sum(values, currency).Ok?
    requires PercentageOf(Sum(values, currency).value, basisPoints as real).Ok?
    ensures var lines := TotalOf(PercentageAll(values, basisPoints));
            var once := PercentageOf(Sum(values, currency).value, basisPoints as real).value.minor;
            10000 * Abs(lines - once) <= 18192 * (|values| + 1)
  {
    var scaled := Scale(values, basisPoints);
    forall i | 0 <= i < |scaled|
      ensures -18192 <= RateError(scaled[i].minor) <= 18192
    {
      assert PercentageAll(values, basisPoints)[i].Ok?;
      OkIsRate(values[i], basisPoints);
      SafeErrorBounded(scaled[i].minor);
    }
    var drift := DriftIsErrors(values, basisPoints, currency);
    ErrorTotalWithin(scaled, 18192);
    SafeErrorBounded(Total(scaled));
  }

  /** With products that total less than 2^56 in size, by at most 5003 (n + 1) / 10000. */
  lemma {:induction false} PercentageDriftByResidue(values: seq<Money>, basisPoints: int, currency: Currency)
    requires OneCurrency(values, currency) && Magnitude(values) <= MAX_SAFE
    requires Magnitude(Scale(values, basisPoints)) < TWO_56
    ensures AllOk(PercentageAll(values, basisPoints)) && Sum(values, currency).Ok?
    ensures PercentageOf(Sum(values, currency).value, basisPoints as real).Ok?
    ensures var lines := TotalOf(PercentageAll(values, basisPoints));
            var once := PercentageOf(Sum(values, currency).value, basisPoints as real).value.minor;
            10000 * Abs(lines - once) <= 5003 * (|values| + 1)
  {
    var scaled := Scale(values, basisPoints);
    DriftDefined(values, basisPoints, currency);
    LinesWithinResidue(values, basisPoints);
    var drift := DriftIsErrors(values, basisPoints, currency);
    ErrorTotalWithin(scaled, 5003);
    ResidueErrorBounded(Total(scaled));
  }

  lemma {:induction false} DriftDefined(values: seq<Money>, basisPoints: int, currency: Currency)
    requires OneCurrency(values, currency) && Magnitude(values) <= MAX_SAFE
    requires Magnitude(Scale(values, basisPoints)) < TWO_56
    ensures Sum(values, currency).Ok? && Abs(Total(Scale(values, basisPoints))) < TWO_56
    ensures PercentageOf(Sum(values, currency).value, basisPoints as real).Ok?
  {
    MakeZero(currency);
    SumFromExact(0, values, currency);
    ScaleMeasures(values, basisPoints);
    ScaleMeasures(Scale(values, basisPoints), 1);
    PercentageByResidue(Money(Total(values), currency), basisPoints);
  }

  /**
   * With products that total less than the first wrong one in size, by at most n / 2 minor
   * units.
   */
  lemma {:induction false} PercentageDrift(values: seq<Money>, basisPoints: int, currency: Currency)
    requires OneCurrency(values, currency) && Magnitude(values) <= MAX_SAFE
    requires Magnitude(Scale(values, basisPoints)) < FIRST_WRONG_PRODUCT
    ensures AllOk(PercentageAll(values, basisPoints)) && Sum(values, currency).Ok?
    ensures PercentageOf(Sum(values, currency).value, basisPoints as real).Ok?
    ensures var lines := TotalOf(PercentageAll(values, basisPoints));
            var once := PercentageOf(Sum(values, currency).value, basisPoints as real).value.minor;
            2 * Abs(lines - once) <= |values|
  {
    var scaled := Scale(values, basisPoints);
    DriftDefined(values, basisPoints, currency);
    LinesWithinResidue(values, basisPoints);
    var drift := DriftIsErrors(values, basisPoints, currency);
    ErrorsPerLine(scaled, drift);
  }

  lemma {:induction false} ErrorsPerLine(scaled: seq<Money>, drift: int)
    requires Magnitude(scaled) < FIRST_WRONG_PRODUCT && 10000 * drift == ErrorTotal(scaled) - RateError(Total(scaled))
    ensures 2 * Abs(drift) <= |scaled|
  {
    AllSmallExact(scaled);
    ExactErrorTotal(scaled);
    ScaleMeasures(scaled, 1);
    ExactError(Total(scaled));
    HalfPerLine(|scaled|, ErrorTotal(scaled), RateError(Total(scaled)), Total(scaled), drift);
  }

  lemma {:induction false} ExactError(a: int)
    requires Abs(a) < FIRST_WRONG_PRODUCT
    ensures -5000 <= RateError(a) <= 5000
    ensures (RateError(a) == 5000 ==> a > 0) && (RateError(a) == -5000 ==> a < 0) && (a == 0 ==> RateError(a) == 0)
  {
    SignedExact(a);
    HalfAwayCharacterised(a, HalfAway(a));
  }

  /** The extreme errors have the sign of the total, so the sum's own never adds to them. */
  lemma HalfPerLine(n: int, errors: int, once: int, total: int, drift: int)
    requires -5000 * n <= errors <= 5000 * n && -5000 <= once <= 5000 && 10000 * drift == errors - once
    requires (n > 0 && errors == 5000 * n ==> total > 0) && (n > 0 && errors == -5000 * n ==> total < 0)
    requires (once == 5000 ==> total > 0) && (once == -5000 ==> total < 0) && n >= 0 && (n == 0 ==> once == 0)
    ensures -n <= 2 * drift <= n
  {
  }

  lemma {:induction false} AllSmallExact(scaled: seq<Money>)
    requires Magnitude(scaled) < FIRST_WRONG_PRODUCT
    ensures AllExact(scaled)
  {
    forall i | 0 <= i < |scaled|
      ensures RoundedRate(scaled[i].minor) == HalfAway(scaled[i].minor)
    {
      MagnitudeBoundsItems(scaled, i);
      SignedExact(scaled[i].minor);
    }
  }

  lemma {:induction false} SignedExact(a: int)
    requires Abs(a) < FIRST_WRONG_PRODUCT
    ensures RoundedRate(a) == HalfAway(a)
  {
    SignedRate(a);
    NonNegativeProduct(Abs(a));
  }
}
