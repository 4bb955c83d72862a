/**
 * Binary64 rounding, round to nearest with ties to even (section 4.3.1 of
 * IEEE 754-2019), over the reals.  The exponent has the lower bound of the format but no
 * upper bound; code that can overflow checks for it itself.
 */
module Ieee754 {

  const TWO_52: int := 4503599627370496
  const TWO_53: int := 9007199254740992
  const MIN_EXPONENT: int := -1074

  function Pow2(e: int): (r: real)
    ensures r > 0.0
    decreases if e < 0 then -e else e
  {
    if e == 0 then 1.0 else if e > 0 then 2.0 * Pow2(e - 1) else Pow2(e + 1) / 2.0
  }

  lemma Pow2Step(e: int)
    ensures Pow2(e + 1) == 2.0 * Pow2(e)
  {
  }

  lemma Pow2Plus13(e: int)
    ensures Pow2(e + 13) == 8192.0 * Pow2(e)
  {
    Pow2Step(e); Pow2Step(e + 1); Pow2Step(e + 2); Pow2Step(e + 3); Pow2Step(e + 4);
    Pow2Step(e + 5); Pow2Step(e + 6); Pow2Step(e + 7); Pow2Step(e + 8); Pow2Step(e + 9);
    Pow2Step(e + 10); Pow2Step(e + 11); Pow2Step(e + 12);
  }

  lemma Pow2Plus53(e: int)
    ensures Pow2(e + 52) == TWO_52 as real * Pow2(e)
    ensures Pow2(e + 53) == TWO_53 as real * Pow2(e)
  {
    Pow2Plus13(e);
    Pow2Plus13(e + 13);
    Pow2Plus13(e + 26);
    Pow2Plus13(e + 39);
    Pow2Step(e + 52);
  }

  // ----- The numbers of the format -----

  function Scaled(m: int, e: int): real {
    m as real * Pow2(e)
  }

  /** A binary64 number: a significand of at most 53 bits times a power of two. */
  ghost predicate IsDouble(x: real) {
    exists m: int, e: int :: -TWO_53 <= m <= TWO_53 && e >= MIN_EXPONENT && x == Scaled(m, e)
  }

  /** No number of the format is closer to `x` than `y`. */
  ghost predicate IsNearest(x: real, y: real) {
    IsDouble(y) && forall z :: IsDouble(z) ==> Distance(x, y) <= Distance(x, z)
  }

  function Distance(x: real, y: real): real {
    if x < y then y - x else x - y
  }

  // ----- Rounding -----

  /** The exponent of the last place of `x`: the least `e` with x < 2^(e + 53). */
  function Exponent(x: real, from: int): (e: int)
    requires x > 0.0 && from >= MIN_EXPONENT
    ensures e >= from && x < Pow2(e + 53)
    ensures e > from ==> Pow2(e + 52) <= x
    decreases (x / Pow2(from + 53)).Floor
  {
    if x < Pow2(from + 53) then from
    else
      Pow2Step(from + 53);
      Halving(x, Pow2(from + 53));
      Exponent(x, from + 1)
  }

  lemma Halving(x: real, p: real)
    requires 0.0 < p <= x
    ensures 0 <= (x / (2.0 * p)).Floor < (x / p).Floor
  {
    var q := x / p;
    assert q >= 1.0 && x / (2.0 * p) == q / 2.0;
  }

  /** Nearest whole number to `q`; a tie goes to the even neighbour. */
  function RoundHalfEven(q: real): (n: int)
    ensures q.Floor <= n <= q.Floor + 1
    ensures n as real - q <= 0.5 && q - n as real <= 0.5
    ensures q.Floor as real == q ==> n == q.Floor
  {
    var n := q.Floor;
    var rest := q - n as real;
    if rest < 0.5 || (rest == 0.5 && n % 2 == 0) then n else n + 1
  }

  /** The double a real number rounds to. */
  function Fl(x: real): real {
    if x == 0.0 then 0.0
    else if x > 0.0 then
      var e := Exponent(x, MIN_EXPONENT);
      Scaled(RoundHalfEven(x / Pow2(e)), e)
    else
      var e := Exponent(-x, MIN_EXPONENT);
      -Scaled(RoundHalfEven(-x / Pow2(e)), e)
  }

  lemma FlOdd(x: real)
    ensures Fl(-x) == -Fl(x)
  {
  }

  // ----- Rounding gives a nearest double -----

  lemma DoubleNegated(x: real)
    requires IsDouble(x)
    ensures IsDouble(-x)
  {
    var m: int, e: int :| -TWO_53 <= m <= TWO_53 && e >= MIN_EXPONENT && x == Scaled(m, e);
    NegatedScaled(m, e);
  }

  lemma NegatedScaled(m: int, e: int)
    ensures Scaled(-m, e) == -Scaled(m, e)
  {
    var p := Pow2(e);
    assert (-m) as real * p == -(m as real * p);
  }

  lemma ScaledIsDouble(m: int, e: int)
    requires -TWO_53 <= m <= TWO_53 && e >= MIN_EXPONENT
    ensures IsDouble(Scaled(m, e))
  {
  }

  lemma WholeIsDouble(n: int)
    requires -TWO_53 <= n <= TWO_53
    ensures IsDouble(n as real)
  {
    assert n as real == Scaled(n, 0);
  }

  lemma HalfIsDouble(n: int)
    requires -TWO_53 <= n <= TWO_53
    ensures IsDouble(n as real / 2.0)
  {
    assert Pow2(-1) == 0.5;
    assert n as real / 2.0 == Scaled(n, -1);
  }

  lemma ScaledFloorBound(x: real, e: int)
    requires 0.0 < x < Pow2(e + 53)
    ensures 0.0 < x / Pow2(e) < TWO_53 as real
  {
    Pow2Plus53(e);
    var p := Pow2(e);
    DivTimes(x, p);
    TimesMonotone(x / p, TWO_53 as real, p);
    TimesMonotone(0.0, x / p, p);
  }

  lemma TimesMonotone(a: real, b: real, p: real)
    requires p > 0.0
    ensures a <= b <==> a * p <= b * p
    ensures a < b <==> a * p < b * p
  {
    assert (b - a) * p == b * p - a * p;
  }

  /** Comparing two numbers by their products with a positive one. */
  lemma Compare(a: real, x: real, b: real, y: real, p: real)
    requires p > 0.0 && x == a * p && y == b * p
    ensures (a < b <==> x < y) && (a == b <==> x == y)
  {
    TimesMonotone(a, b, p);
    TimesMonotone(b, a, p);
  }

  lemma DivTimes(x: real, p: real)
    requires p > 0.0
    ensures (x / p) * p == x
  {
  }

  /** No double lies strictly between the two neighbours of `x` on its own grid. */
  lemma NoDoubleBetween(x: real, e: int, z: real)
    requires x > 0.0 && e >= MIN_EXPONENT
    requires e > MIN_EXPONENT ==> Pow2(e + 52) <= x
    requires IsDouble(z)
    ensures z <= Scaled((x / Pow2(e)).Floor, e) || z >= Scaled((x / Pow2(e)).Floor + 1, e)
  {
    var m: int, d: int :| -TWO_53 <= m <= TWO_53 && d >= MIN_EXPONENT && z == Scaled(m, d);
    var n := (x / Pow2(e)).Floor;
    if d >= e {
      var k := OnCoarserGrid(m, d, e);
      ScaledMonotone(k, n, e);
      ScaledMonotone(n + 1, k, e);
    } else {
      Pow2Below(m, d, e);
      BinadeFloor(x, e);
    }
  }

  /** A multiple of 2^d is a multiple of 2^e when e <= d. */
  lemma {:induction false} OnCoarserGrid(m: int, d: int, e: int) returns (k: int)
    requires e <= d
    ensures Scaled(m, d) == Scaled(k, e)
    decreases d - e
  {
    if d == e {
      k := m;
    } else {
      Pow2Step(d - 1);
      ScaledTwice(m, Pow2(d - 1));
      k := OnCoarserGrid(2 * m, d - 1, e);
    }
  }

  lemma ScaledTwice(m: int, p: real)
    ensures m as real * (2.0 * p) == (2 * m) as real * p
  {
  }

  /** A number of the binade [2^(e + 52), 2^(e + 53)) has its grid floor in it too. */
  lemma BinadeFloor(x: real, e: int)
    requires Pow2(e + 52) <= x
    ensures Pow2(e + 52) <= Scaled((x / Pow2(e)).Floor, e)
  {
    Pow2Plus53(e);
    AtLeastWhole(x, Pow2(e));
    ScaledMonotone(TWO_52, (x / Pow2(e)).Floor, e);
  }

  lemma AtLeastWhole(x: real, p: real)
    requires p > 0.0 && TWO_52 as real * p <= x
    ensures TWO_52 <= (x / p).Floor
  {
    DivTimes(x, p);
    TimesMonotone(TWO_52 as real, x / p, p);
  }

  lemma ScaledMonotone(a: int, b: int, e: int)
    ensures a <= b ==> Scaled(a, e) <= Scaled(b, e)
  {
    TimesMonotone(a as real, b as real, Pow2(e));
  }

  lemma Pow2Below(m: int, d: int, e: int)
    requires -TWO_53 <= m <= TWO_53 && d < e
    ensures Scaled(m, d) <= Pow2(e + 52)
  {
    Pow2Plus53(d);
    ScaledMonotone(m, TWO_53, d);
    Pow2Monotone(d + 53, e + 52);
  }

  lemma {:induction false} Pow2Monotone(d: int, e: int)
    requires d <= e
    ensures Pow2(d) <= Pow2(e)
    decreases e - d
  {
    if d < e {
      Pow2Step(e - 1);
      Pow2Monotone(d, e - 1);
    }
  }

  lemma FlNearestPositive(x: real)
    requires x > 0.0
    ensures IsNearest(x, Fl(x))
  {
    var e := Exponent(x, MIN_EXPONENT);
    GridRoundingIsNearest(x, e, RoundHalfEven(x / Pow2(e)));
  }

  lemma GridRoundingIsNearest(x: real, e: int, n: int)
    requires 0.0 < x < Pow2(e + 53) && e >= MIN_EXPONENT
    requires e > MIN_EXPONENT ==> Pow2(e + 52) <= x
    requires n == RoundHalfEven(x / Pow2(e))
    ensures IsNearest(x, Scaled(n, e))
  {
    ScaledFloorBound(x, e);
    ScaledIsDouble(n, e);
    forall z | IsDouble(z)
      ensures Distance(x, Scaled(n, e)) <= Distance(x, z)
    {
      NoDoubleBetween(x, e, z);
      NearestNeighbour(x, e, n, z);
    }
  }

  /** Where `x` stands between its two neighbours on the grid of step 2^e. */
  lemma GridPosition(x: real, e: int) returns (rest: real)
    ensures x == Scaled((x / Pow2(e)).Floor, e) + rest
    ensures 0.0 <= rest < Pow2(e)
    ensures x / Pow2(e) - (x / Pow2(e)).Floor as real <= 0.5 ==> 2.0 * rest <= Pow2(e)
    ensures x / Pow2(e) - (x / Pow2(e)).Floor as real >= 0.5 ==> 2.0 * rest >= Pow2(e)
  {
    var q := x / Pow2(e);
    rest := FractionOf(q, q.Floor as real, Pow2(e));
    DivTimes(x, Pow2(e));
  }

  lemma FractionOf(q: real, f: real, p: real) returns (rest: real)
    requires f <= q < f + 1.0 && p > 0.0
    ensures q * p == f * p + rest && 0.0 <= rest < p
    ensures q - f <= 0.5 ==> 2.0 * rest <= p
    ensures q - f >= 0.5 ==> 2.0 * rest >= p
  {
    rest := FractionBounds(q - f, p);
    assert (f + (q - f)) * p == f * p + (q - f) * p;
  }

  lemma FractionBounds(r: real, p: real) returns (rest: real)
    requires 0.0 <= r < 1.0 && p > 0.0
    ensures rest == r * p && 0.0 <= rest < p
    ensures r <= 0.5 ==> 2.0 * rest <= p
    ensures r >= 0.5 ==> 2.0 * rest >= p
  {
    rest := r * p;
    TimesMonotone(0.0, r, p);
    TimesMonotone(r, 1.0, p);
    TimesMonotone(2.0 * r, 1.0, p);
    TimesMonotone(1.0, 2.0 * r, p);
    assert (2.0 * r) * p == 2.0 * (r * p);
  }

  lemma ScaledStep(n: int, e: int)
    ensures Scaled(n + 1, e) == Scaled(n, e) + Pow2(e)
  {
    assert (n + 1) as real == n as real + 1.0;
  }

  lemma NearestNeighbour(x: real, e: int, n: int, z: real)
    requires n == RoundHalfEven(x / Pow2(e))
    requires z <= Scaled((x / Pow2(e)).Floor, e) || z >= Scaled((x / Pow2(e)).Floor + 1, e)
    ensures Distance(x, Scaled(n, e)) <= Distance(x, z)
    ensures Distance(x, Scaled(n, e)) <= Pow2(e) / 2.0
  {
    var f := (x / Pow2(e)).Floor;
    var rest := GridPosition(x, e);
    ScaledStep(f, e);
    if n == f {
      assert Scaled(n, e) == Scaled(f, e);
    } else {
      assert Scaled(n, e) == Scaled(f + 1, e);
    }
  }

  /** The central fact: `Fl(x)` is a double and no double is closer to `x`. */
  lemma FlNearest(x: real)
    ensures IsNearest(x, Fl(x))
  {
    if x > 0.0 {
      FlNearestPositive(x);
    } else if x < 0.0 {
      FlNearestPositive(-x);
      DoubleNegated(Fl(-x));
      forall z | IsDouble(z)
        ensures Distance(x, Fl(x)) <= Distance(x, z)
      {
        DoubleNegated(z);
        assert Distance(-x, Fl(-x)) <= Distance(-x, -z);
      }
    } else {
      WholeIsDouble(0);
    }
  }

  /** Doubles are left alone. */
  lemma FlExact(x: real)
    requires IsDouble(x)
    ensures Fl(x) == x
  {
    FlNearest(x);
    assert Distance(x, Fl(x)) <= Distance(x, x);
  }

  /** Rounding never crosses a double. */
  lemma FlBounded(x: real, bound: real)
    requires IsDouble(bound)
    ensures x <= bound ==> Fl(x) <= bound
    ensures x >= bound ==> Fl(x) >= bound
  {
    FlNearest(x);
    assert Distance(x, Fl(x)) <= Distance(x, bound);
    if x == bound {
      FlExact(x);
    }
    if x < bound && Fl(x) > bound {
      assert false;
    }
  }

  lemma FlMonotone(x: real, y: real)
    requires x <= y
    ensures Fl(x) <= Fl(y)
  {
    FlNearest(x);
    FlNearest(y);
    assert Distance(x, Fl(x)) <= Distance(x, Fl(y));
    assert Distance(y, Fl(y)) <= Distance(y, Fl(x));
  }

  /** Below 2^(e + 53) the rounding error is at most half a unit of 2^e. */
  lemma FlError(x: real, e: int)
    requires e >= MIN_EXPONENT && -Pow2(e + 53) <= x <= Pow2(e + 53)
    ensures Distance(x, Fl(x)) <= Pow2(e) / 2.0
  {
    var n := RoundHalfEven(x / Pow2(e));
    QuotientBound(x, e);
    ScaledIsDouble(n, e);
    FlNearest(x);
    assert Distance(x, Fl(x)) <= Distance(x, Scaled(n, e));
    NearestNeighbour(x, e, n, Scaled((x / Pow2(e)).Floor, e));
  }

  lemma QuotientBound(x: real, e: int)
    requires -Pow2(e + 53) <= x <= Pow2(e + 53)
    ensures -(TWO_53 as real) <= x / Pow2(e) <= TWO_53 as real
  {
    Pow2Plus53(e);
    DivTimes(x, Pow2(e));
    TimesMonotone(x / Pow2(e), TWO_53 as real, Pow2(e));
    TimesMonotone(-(TWO_53 as real), x / Pow2(e), Pow2(e));
  }

  /** Reading off the rounding of a given number from its binade. */
  lemma FlAt(x: real, e: int, n: int)
    requires e > MIN_EXPONENT && 0.0 < Pow2(e + 52) <= x < Pow2(e + 53)
    requires n == RoundHalfEven(x / Pow2(e))
    ensures Fl(x) == Scaled(n, e)
  {
    var d := Exponent(x, MIN_EXPONENT);
    if d > e {
      Pow2Monotone(e + 53, d + 52);
    } else if d < e {
      Pow2Monotone(d + 53, e + 52);
    }
  }

  // ----- Overflow -----

  /** Numerals from 2^1024 - 2^970 on read as infinity. */
  predicate Overflows(x: real) {
    Distance(x, 0.0) >= Scaled(2 * TWO_53 - 1, 970)
  }

  lemma SmallDoesNotOverflow(x: real)
    requires Distance(x, 0.0) <= TWO_53 as real
    ensures !Overflows(x)
  {
    Pow2Monotone(0, 970);
    TimesMonotone(1.0, Pow2(970), (2 * TWO_53 - 1) as real);
  }
}
