/**
 * A whole number rounded to a double, divided by a small whole number, rounded again and
 * rounded to whole: what comes out, in whole numbers, and exactly when it is the true
 * quotient rounded half up.
 */
module Quotients {
  import opened PowersOfTwo
  import opened Ieee754
  import opened Money

  lemma {:induction false} Pow2OfTwo(e: nat)
    ensures Pow2(e) == Two(e) as real && Pow2(0 - e) * Two(e) as real == 1.0 && Two(e) >= 1
  {
    if e > 0 {
      Pow2OfTwo(e - 1);
      Pow2Step(e - 1);
      Pow2Step(0 - e);
      HalfAndDouble(Pow2(0 - e), Two(e - 1) as real);
    }
  }

  lemma HalfAndDouble(p: real, t: real)
    requires 2.0 * p * t == 1.0
    ensures p * (2.0 * t) == 1.0
  {
  }

  // ----- Rounding in whole numbers -----

  /** The whole number nearest to p / g, ties to even. */
  function HalfEven(p: nat, g: nat): nat
    requires g > 0
  {
    var k, r := p / g, p % g;
    if 2 * r < g || (2 * r == g && k % 2 == 0) then k else k + 1
  }

  lemma {:induction false} HalfEvenRounds(p: nat, g: nat, x: real)
    requires g > 0 && x * g as real == p as real
    ensures RoundHalfEven(x) == HalfEven(p, g)
  {
    var k, r := p / g, p % g;
    var f := x - k as real;
    assert p == g * k + r;
    FractionIs(x, k, f, g, r, p);
    assert x.Floor == k;
  }

  lemma {:induction false} FractionIs(x: real, k: nat, f: real, g: nat, r: nat, p: nat)
    requires g > 0 && x * g as real == p as real && p == g * k + r && r < g && f == x - k as real
    ensures 0.0 <= f < 1.0
    ensures 2 * r < g <==> f < 0.5
    ensures 2 * r == g <==> f == 0.5
  {
    var y := g as real;
    Difference(x, k as real, y, f, p as real, (g * k) as real);
    Compare(f, r as real, 0.0, 0.0, y);
    Compare(f, r as real, 1.0, y, y);
    Compare(f, r as real, 0.5, y / 2.0, y);
  }

  lemma Difference(x: real, k: real, y: real, f: real, xy: real, ky: real)
    requires f == x - k && xy == x * y && ky == k * y
    ensures f * y == xy - ky
  {
  }

  /** The distance between the doubles around a whole number, from 2^53 on. */
  function Grain(p: nat): (g: nat)
    ensures g > 0
  {
    if p < TWO_53 then 1 else 2 * Grain(p / 2)
  }

  lemma {:induction false} GrainBinade(p: nat) returns (e: nat)
    ensures Grain(p) == Two(e) && (e == 0 <==> p < TWO_53)
    ensures e > 0 ==> TWO_52 * Two(e) <= p < TWO_53 * Two(e)
  {
    if p < TWO_53 {
      e := 0;
    } else {
      var f := GrainBinade(p / 2);
      e := f + 1;
    }
  }

  /** The double nearest to a whole number. */
  function NearestDouble(p: nat): nat {
    Grain(p) * HalfEven(p, Grain(p))
  }

  lemma {:induction false} FlOfWhole(p: nat)
    ensures Fl(p as real) == NearestDouble(p) as real
  {
    var e := GrainBinade(p);
    if e == 0 {
      WholeIsDouble(p);
      FlExact(p as real);
    } else {
      FlOfLarge(p, e, Two(e));
    }
  }

  lemma {:induction false} FlOfLarge(p: nat, e: nat, g: nat)
    requires g == Two(e) && TWO_52 * g <= p < TWO_53 * g
    ensures g > 0 && Fl(p as real) == (g * HalfEven(p, g)) as real
  {
    Pow2OfTwo(e);
    var x := p as real / Pow2(e);
    DivTimes(p as real, Pow2(e));
    HalfEvenRounds(p, g, x);
    FlInBinade(p, e);
    FlAt(p as real, e, HalfEven(p, g));
    ScaledWhole(HalfEven(p, g), e, g);
  }

  lemma {:induction false} ScaledWhole(n: nat, e: nat, g: nat)
    requires Pow2(e) == g as real
    ensures Scaled(n, e) == (g * n) as real
  {
    assert (g * n) as real == n as real * g as real;
  }

  lemma {:induction false} FlInBinade(p: nat, e: nat)
    requires TWO_52 * Two(e) <= p < TWO_53 * Two(e)
    ensures Pow2(e + 52) <= p as real < Pow2(e + 53)
  {
    Pow2OfTwo(e);
    Pow2Plus53(e);
  }

  // ----- The rounded quotient -----

  /** How many doubles there are per unit around p / d; 1 from 2^52 on. */
  function Fineness(p: nat, d: nat): (f: nat)
    requires p > 0 && d > 0
    ensures f > 0
    decreases TWO_52 * d - p
  {
    if p >= TWO_52 * d then 1 else 2 * Fineness(2 * p, d)
  }

  lemma {:induction false} FinenessBinade(p: nat, d: nat) returns (u: nat)
    requires 0 < p < TWO_53 * d && d > 0
    ensures Fineness(p, d) == Two(u)
    ensures TWO_52 * d <= p * Two(u) < TWO_53 * d
    decreases TWO_52 * d - p
  {
    if p >= TWO_52 * d {
      u := 0;
    } else {
      var v := FinenessBinade(2 * p, d);
      u := v + 1;
      assert p * (2 * Two(v)) == 2 * p * Two(v);
    }
  }

  lemma {:induction false} TwoMonotone(u: nat, v: nat)
    requires u <= v
    ensures Two(u) <= Two(v)
    decreases v - u
  {
    if u < v {
      TwoMonotone(u, v - 1);
    }
  }

  /** The denominators met: a rate of 10000, and up to 10000 more. */
  const MAX_DENOMINATOR: nat := 20000

  lemma {:induction false} FinenessBounded(p: nat, u: nat, d: nat)
    requires p > 0 && p * Two(u) < TWO_53 * d && d <= MAX_DENOMINATOR
    ensures u < 78
  {
    if u >= 78 {
      TwoMonotone(78, u);
      TwoOf78();
      AtLeastFactor(p, Two(u));
    }
  }

  lemma {:induction false} AtLeastFactor(p: nat, t: nat)
    requires p > 0
    ensures p * t >= t
  {
  }

  lemma {:induction false} TwoPlus6(e: nat)
    ensures Two(e + 6) == 64 * Two(e)
  {
    assert Two(e + 1) == 2 * Two(e) && Two(e + 2) == 2 * Two(e + 1) && Two(e + 3) == 2 * Two(e + 2);
    assert Two(e + 4) == 2 * Two(e + 3) && Two(e + 5) == 2 * Two(e + 4);
  }

  lemma TwoOf78()
    ensures Two(78) == 302231454903657293676544
  {
    assert Two(6) == 64;
    TwoPlus6(6); TwoPlus6(12); TwoPlus6(18); TwoPlus6(24); TwoPlus6(30); TwoPlus6(36);
    TwoPlus6(42); TwoPlus6(48); TwoPlus6(54); TwoPlus6(60); TwoPlus6(66); TwoPlus6(72);
  }

  lemma {:induction false} QuotientBinade(q: real, p: nat, d: nat, u: nat, f: nat, a: nat)
    requires 0 < d <= MAX_DENOMINATOR && p > 0 && q * d as real == p as real
    requires f == Two(u) && a == p * f && TWO_52 * d <= a < TWO_53 * d
    ensures u < 78 && Pow2(52 - u) <= q < Pow2(53 - u)
  {
    FinenessBounded(p, u, d);
    var x := q * f as real;
    ScaledNumerator(q, p, d, f, x);
    QuotientInBinade(q, x, a, d, u, f as real);
  }

  /** What rounding p / d to a double comes down to. */
  lemma {:induction false} QuotientOnGrid(q: real, p: nat, d: nat, u: nat, f: nat, a: nat)
    requires d > 0 && q * d as real == p as real && f == Two(u) && a == p * f
    ensures RoundHalfEven(q / Pow2(0 - u)) == HalfEven(a, d)
  {
    Pow2OfTwo(u);
    var x := q * f as real;
    Rescaled(q, f as real, Pow2(0 - u), x);
    ScaledNumerator(q, p, d, f, x);
    HalfEvenRounds(a, d, x);
  }

  lemma {:induction false} FlOfQuotient(q: real, u: nat, n: int)
    requires u < 78 && Pow2(52 - u) <= q < Pow2(53 - u) && n == RoundHalfEven(q / Pow2(0 - u))
    ensures Fl(q) == Scaled(n, 0 - u)
  {
    FlAt(q, 0 - u, n);
  }

  lemma {:induction false} RoundScaled(y: real, n: nat, u: nat, f: nat)
    requires f == Two(u) > 0 && y == Scaled(n, 0 - u)
    ensures MathRound(y) == (2 * n + f) / (2 * f)
  {
    Pow2OfTwo(u);
    UnscaledIs(y, n as real, Pow2(0 - u), f as real);
    var r := (2 * n + f) / (2 * f);
    DivisionBounds(2 * n + f, 2 * f, r);
    MathRoundIs(y, n, f, r);
  }

  lemma {:induction false} MathRoundIs(y: real, n: nat, f: nat, r: nat)
    requires f > 0 && y * f as real == n as real && 2 * f * r <= 2 * n + f < 2 * f * r + 2 * f
    ensures MathRound(y) == r
  {
    Compare(y, n as real, r as real - 0.5, (r as real - 0.5) * f as real, f as real);
    Compare(y, n as real, r as real + 0.5, (r as real + 0.5) * f as real, f as real);
    HalfWayProduct(r, f);
  }

  lemma {:induction false} DivisionBounds(a: nat, b: nat, r: nat)
    requires b > 0 && r == a / b
    ensures b * r <= a < b * r + b
  {
  }

  lemma {:induction false} HalfWayProduct(r: nat, f: nat)
    ensures 2.0 * ((r as real - 0.5) * f as real) == (2 * f * r - f) as real
    ensures 2.0 * ((r as real + 0.5) * f as real) == (2 * f * r + f) as real
  {
    assert (f * r) as real == r as real * f as real;
    assert 2 * f * r == 2 * (f * r);
  }

  lemma Unscaled(t: real, h: real, f: real)
    requires h * f == 1.0
    ensures t * h * f == t
  {
    assert t * h * f == t * (h * f);
  }

  lemma UnscaledIs(y: real, t: real, h: real, f: real)
    requires y == t * h && h * f == 1.0
    ensures y * f == t
  {
    Unscaled(t, h, f);
  }

  lemma Rescaled(q: real, f: real, h: real, x: real)
    requires h * f == 1.0 && h > 0.0 && x == q * f
    ensures q / h == x
  {
    assert x * h == q * (h * f);
  }

  lemma {:induction false} ScaledNumerator(q: real, p: nat, d: nat, f: nat, x: real)
    requires q * d as real == p as real && x == q * f as real
    ensures x * d as real == (p * f) as real
  {
    assert x * d as real == (q * d as real) * f as real;
    assert (p * f) as real == p as real * f as real;
  }

  lemma {:induction false} QuotientInBinade(q: real, x: real, a: nat, d: nat, u: nat, f: real)
    requires d > 0 && x * d as real == a as real && TWO_52 * d <= a < TWO_53 * d
    requires f == Two(u) as real && x == q * f
    ensures Pow2(52 - u) <= q < Pow2(53 - u)
  {
    WholeBracket(x, a, d);
    var h, low, high := GridLines(u);
    Pow2OfTwo(u);
    Descaled(q, x, TWO_52 as real, h, f, low);
    Descaled(q, x, TWO_53 as real, h, f, high);
  }

  lemma {:induction false} GridLines(u: nat) returns (h: real, low: real, high: real)
    ensures low == Pow2(52 - u) && high == Pow2(53 - u)
    ensures h == Pow2(0 - u) && low == TWO_52 as real * h && high == TWO_53 as real * h
  {
    h := Pow2(0 - u);
    low, high := TWO_52 as real * h, TWO_53 as real * h;
    GridLinesAt(0 - u);
  }

  lemma GridLinesAt(e: int)
    ensures Pow2(52 + e) == TWO_52 as real * Pow2(e) && Pow2(53 + e) == TWO_53 as real * Pow2(e)
  {
    Pow2Plus53(e);
  }

  lemma {:induction false} WholeBracket(x: real, a: nat, d: nat)
    requires d > 0 && x * d as real == a as real && TWO_52 * d <= a < TWO_53 * d
    ensures TWO_52 as real <= x < TWO_53 as real
  {
    Compare(x, a as real, TWO_52 as real, (TWO_52 * d) as real, d as real);
    Compare(x, a as real, TWO_53 as real, (TWO_53 * d) as real, d as real);
  }

  lemma Descaled(q: real, x: real, t: real, h: real, f: real, line: real)
    requires h * f == 1.0 && f > 0.0 && x == q * f && line == t * h
    ensures q < line <==> x < t
  {
    UnscaledIs(line, t, h, f);
    Compare(q, x, line, t, f);
  }

  /** Dividing whole numbers in doubles and rounding to whole, in whole numbers. */
  function WholeRound(p: nat, d: nat): nat
    requires d > 0
  {
    if p == 0 then 0 else var f := Fineness(p, d); (2 * HalfEven(p * f, d) + f) / (2 * f)
  }

  lemma {:induction false} QuotientRounds(p: nat, d: nat)
    requires 0 < d <= MAX_DENOMINATOR && p < TWO_53 * d
    ensures MathRound(Fl(p as real / d as real)) == WholeRound(p, d)
  {
    if p == 0 {
      WholeIsDouble(0);
      FlExact(0.0);
    } else {
      var u := FinenessBinade(p, d);
      QuotientRoundsAt(p as real / d as real, p, d, u, Two(u));
    }
  }

  lemma {:induction false} QuotientRoundsAt(q: real, p: nat, d: nat, u: nat, f: nat)
    requires 0 < d <= MAX_DENOMINATOR && p > 0 && q == p as real / d as real
    requires f == Two(u) && TWO_52 * d <= p * f < TWO_53 * d
    ensures MathRound(Fl(q)) == (2 * HalfEven(p * f, d) + f) / (2 * f)
  {
    DivTimes(p as real, d as real);
    QuotientBinade(q, p, d, u, f, p * f);
    QuotientOnGrid(q, p, d, u, f, p * f);
    FlOfQuotient(q, u, HalfEven(p * f, d));
    RoundScaled(Fl(q), HalfEven(p * f, d), u, f);
  }

  // ----- When that is the true quotient rounded half up -----

  function HalfUp(p: nat, d: nat): nat
    requires d > 0
  {
    (2 * p + d) / (2 * d)
  }

  /** `n` is nearest to p / d, and on a tie the larger neighbour. */
  predicate IsHalfUp(p: int, d: int, n: int) {
    d * (2 * n - 1) <= 2 * p < d * (2 * n + 1)
  }

  /** How far 2 p / d has come since the last change of the rounded quotient, in d-ths. */
  function Residue(p: nat, d: nat): nat
    requires d > 0
  {
    (2 * p + d) % (2 * d)
  }

  lemma {:induction false} HalfUpParts(p: nat, d: nat, n: nat)
    requires d > 0 && n == HalfUp(p, d)
    ensures 2 * p == d * (2 * n - 1) + Residue(p, d) && 0 <= Residue(p, d) < 2 * d
    ensures IsHalfUp(p, d, n)
  {
    var r := Residue(p, d);
    assert 2 * p + d == (2 * d) * n + r;
    TwiceTimes(d, n);
  }

  lemma TwiceTimes(d: int, n: int)
    ensures (2 * d) * n == 2 * (d * n)
    ensures d * (2 * n - 1) == 2 * (d * n) - d && d * (2 * n + 1) == 2 * (d * n) + d
  {
  }

  /**
   * A residue moved to `s` by rounding the numerator stays where the rounding of a quotient
   * with `f` doubles per unit leaves `n`.
   */
  predicate Stays(s: int, d: nat, f: nat, n: nat) {
    if f >= 4 then 0 <= s * f + d < 2 * d * f
    else if f >= 2 then 0 < 2 * s + d <= 4 * d
    else 0 < s < 2 * d || ((s == 0 || s == 2 * d) && n % 2 == 0)
  }

  /** The two roundings leave the residue of p / d where it belongs. */
  predicate Undisturbed(p: nat, d: nat)
    requires d > 0
  {
    var near := NearestDouble(p);
    && near < TWO_53 * d
    && (near > 0 ==> Stays(Residue(p, d) + 2 * (near - p), d, Fineness(near, d), HalfUp(p, d)))
  }

  lemma {:induction false} HalfEvenAtLeast(a: nat, d: nat, m: int)
    requires d > 0
    ensures m % 2 == 0 ==> (HalfEven(a, d) >= m <==> 2 * a + d >= 2 * (m * d))
    ensures m % 2 == 1 ==> (HalfEven(a, d) >= m <==> 2 * a + d > 2 * (m * d))
  {
    var k, r := a / d, a % d;
    assert a == d * k + r;
    if m <= k {
      Ordered(m, k, d);
    } else if m > k + 1 {
      Ordered(k + 2, m, d);
      Spread(k, 2, d);
    } else {
      Spread(k, 1, d);
    }
    AtLeastParts(a, d, k, r, m, d * k, m * d);
  }

  lemma {:induction false} Spread(k: int, j: int, d: nat)
    ensures (k + j) * d == k * d + j * d && k * d == d * k
  {
  }

  lemma {:induction false} AtLeastParts(a: nat, d: nat, k: nat, r: nat, m: int, kd: int, md: int)
    requires d > 0 && k == a / d && r == a % d && a == kd + r && r < d
    requires if m <= k then md <= kd else if m > k + 1 then md >= kd + 2 * d else md == kd + d
    ensures m % 2 == 0 ==> (HalfEven(a, d) >= m <==> 2 * a + d >= 2 * md)
    ensures m % 2 == 1 ==> (HalfEven(a, d) >= m <==> 2 * a + d > 2 * md)
  {
  }

  lemma {:induction false} Ordered(a: int, b: int, d: nat)
    requires a <= b
    ensures a * d <= b * d
  {
    assert (b - a) * d >= 0;
  }

  /** Where the rounded multiple must lie for the quotient to come out as `n`. */
  lemma {:induction false} RoundIs(k: nat, f: nat, n: nat)
    requires f > 0
    ensures (2 * k + f) / (2 * f) == n <==> f * (2 * n - 1) <= 2 * k < f * (2 * n + 1)
  {
    var r := (2 * k + f) / (2 * f);
    DivisionBounds(2 * k + f, 2 * f, r);
    TwiceTimes(f, n);
    TwiceTimes(f, r);
    if r < n {
      Ordered(r + 1, n, f);
      Spread(r, 1, f);
    } else if r > n {
      Ordered(n + 1, r, f);
      Spread(n, 1, f);
    }
    BucketOf(k, f, r, n, r * f, n * f);
  }

  lemma {:induction false} BucketOf(k: nat, f: nat, r: nat, n: nat, rf: int, nf: int)
    requires 2 * rf <= 2 * k + f < 2 * rf + 2 * f
    requires if r < n then rf + f <= nf else if r > n then nf + f <= rf else rf == nf
    ensures r == n <==> 2 * nf - f <= 2 * k < 2 * nf + f
  {
  }

  lemma {:induction false} StaysWide(p: nat, d: nat, h: nat, n: nat, s: int)
    requires d > 0 && h > 0 && h % 2 == 0 && 2 * p == s + d * (2 * n - 1)
    ensures var f := 2 * h;
            f * (2 * n - 1) <= 2 * HalfEven(p * f, d) < f * (2 * n + 1) <==> Stays(s, d, f, n)
  {
    var f, a := 2 * h, p * (2 * h);
    var low, high := h * (2 * n - 1), h * (2 * n + 1);
    EvenProduct(h, 2 * n - 1);
    EvenProduct(h, 2 * n + 1);
    HalfEvenAtLeast(a, d, low);
    HalfEvenAtLeast(a, d, high);
    Expanded(p, d, h, n, s);
    DoubledFactor(h, 2 * n - 1);
    DoubledFactor(h, 2 * n + 1);
    BetweenEven(HalfEven(a, d), a, d, low, high, low * d, high * d, s, f);
  }

  lemma {:induction false} EvenProduct(h: int, y: int)
    requires h % 2 == 0
    ensures (h * y) % 2 == 0
  {
    assert h * y == 2 * ((h / 2) * y);
  }

  lemma DoubledFactor(h: int, y: int)
    ensures (2 * h) * y == 2 * (h * y)
  {
  }

  lemma {:induction false} BetweenEven(k: nat, a: nat, d: nat, low: int, high: int, ld: int, hd: int, s: int, f: nat)
    requires f >= 4 && (k >= low <==> 2 * a + d >= 2 * ld) && (k >= high <==> 2 * a + d >= 2 * hd)
    requires 2 * a - 2 * ld == s * f && 2 * hd - 2 * ld == 2 * d * f
    ensures 2 * low <= 2 * k < 2 * high <==> Stays(s, d, f, 0)
  {
  }

  /** The bounds of the multiple, in terms of the residue. */
  lemma {:induction false} Expanded(p: nat, d: nat, h: nat, n: nat, s: int)
    requires 2 * p == s + d * (2 * n - 1)
    ensures 2 * (p * (2 * h)) - 2 * (h * (2 * n - 1) * d) == s * (2 * h)
    ensures 2 * (h * (2 * n + 1) * d) - 2 * (h * (2 * n - 1) * d) == 2 * d * (2 * h)
  {
    var y := d * (2 * n - 1);
    assert 2 * (p * (2 * h)) == (2 * p) * (2 * h) == s * (2 * h) + y * (2 * h);
    assert h * (2 * n - 1) * d == h * y;
    assert h * (2 * n + 1) * d == h * (y + 2 * d) == h * y + 2 * (h * d);
  }

  lemma {:induction false} StaysAtHalves(p: nat, d: nat, n: nat, s: int)
    requires d > 0 && 2 * p == s + d * (2 * n - 1)
    ensures 2 * (2 * n - 1) <= 2 * HalfEven(p * 2, d) < 2 * (2 * n + 1) <==> Stays(s, d, 2, n)
  {
    HalfEvenAtLeast(p * 2, d, 2 * n - 1);
    HalfEvenAtLeast(p * 2, d, 2 * n + 1);
    Expanded(p, d, 1, n, s);
  }

  lemma {:induction false} StaysAtWholes(p: nat, d: nat, n: nat, s: int)
    requires d > 0 && 2 * p == s + d * (2 * n - 1)
    ensures 2 * n - 1 <= 2 * HalfEven(p, d) < 2 * n + 1 <==> Stays(s, d, 1, n)
  {
    var nd := n * d;
    TwiceTimes(d, n);
    WholesAtLeast(p, d, n, nd);
    BetweenWholes(HalfEven(p, d), p, d, n, nd, s);
  }

  lemma {:induction false} WholesAtLeast(p: nat, d: nat, n: nat, nd: int)
    requires d > 0 && nd == n * d
    ensures n % 2 == 0 ==> (HalfEven(p, d) >= n <==> 2 * p + d >= 2 * nd)
    ensures n % 2 == 0 ==> (HalfEven(p, d) >= n + 1 <==> 2 * p + d > 2 * (nd + d))
    ensures n % 2 == 1 ==> (HalfEven(p, d) >= n <==> 2 * p + d > 2 * nd)
    ensures n % 2 == 1 ==> (HalfEven(p, d) >= n + 1 <==> 2 * p + d >= 2 * (nd + d))
  {
    HalfEvenAtLeast(p, d, n);
    HalfEvenAtLeast(p, d, n + 1);
    Spread(n, 1, d);
  }

  lemma {:induction false} BetweenWholes(k: nat, p: nat, d: nat, n: nat, nd: nat, s: int)
    requires d > 0 && 2 * p == s + 2 * nd - d
    requires n % 2 == 0 ==> (k >= n <==> 2 * p + d >= 2 * nd) && (k >= n + 1 <==> 2 * p + d > 2 * (nd + d))
    requires n % 2 == 1 ==> (k >= n <==> 2 * p + d > 2 * nd) && (k >= n + 1 <==> 2 * p + d >= 2 * (nd + d))
    ensures 2 * n - 1 <= 2 * k < 2 * n + 1 <==> Stays(s, d, 1, n)
  {
  }

  lemma {:induction false} TwoForms(u: nat)
    ensures Two(u) == 1 || Two(u) == 2 || (Two(u) % 4 == 0 && Two(u) >= 4)
  {
    if u > 0 {
      TwoForms(u - 1);
    }
  }

  lemma {:induction false} RoundOnGrid(p: nat, d: nat, n: nat, s: int, f: nat)
    requires d > 0 && 2 * p == s + d * (2 * n - 1)
    requires f == 1 || f == 2 || (f >= 4 && f % 4 == 0)
    ensures (2 * HalfEven(p * f, d) + f) / (2 * f) == n <==> Stays(s, d, f, n)
  {
    RoundIs(HalfEven(p * f, d), f, n);
    StaysOnGrid(p, d, n, s, f);
  }

  lemma {:induction false} StaysOnGrid(p: nat, d: nat, n: nat, s: int, f: nat)
    requires d > 0 && 2 * p == s + d * (2 * n - 1)
    requires f == 1 || f == 2 || (f >= 4 && f % 4 == 0)
    ensures f * (2 * n - 1) <= 2 * HalfEven(p * f, d) < f * (2 * n + 1) <==> Stays(s, d, f, n)
  {
    if f == 1 {
      assert p * f == p;
      StaysAtWholes(p, d, n, s);
    } else if f == 2 {
      StaysAtHalves(p, d, n, s);
    } else {
      Quarters(f);
      StaysWide(p, d, f / 2, n, s);
    }
  }

  lemma {:induction false} Quarters(f: nat)
    requires f >= 4 && f % 4 == 0
    ensures f == 2 * (f / 2) && (f / 2) % 2 == 0 && f / 2 > 0
  {
  }

  /** The rounded quotient of a whole number is `n` exactly when the residue stays. */
  lemma {:induction false} WholeRoundIs(p: nat, d: nat, n: nat, s: int)
    requires 0 < d && 0 < p < TWO_53 * d && 2 * p == s + d * (2 * n - 1)
    ensures WholeRound(p, d) == n <==> Stays(s, d, Fineness(p, d), n)
  {
    var u := FinenessBinade(p, d);
    TwoForms(u);
    RoundOnGrid(p, d, n, s, Fineness(p, d));
  }

  /** The double computation: round p, divide by d, round, round to whole. */
  function RoundedRatio(p: nat, d: nat): int
    requires d > 0
  {
    MathRound(Fl(Fl(p as real) / d as real))
  }

  /**
   * For every numerator that leaves a quotient below 2^53, the double computation gives the
   * true quotient rounded half up exactly when the two roundings leave its residue in place.
   */
  lemma {:induction false} RatioExactly(p: nat, d: nat)
    requires 0 < d <= MAX_DENOMINATOR && NearestDouble(p) < TWO_53 * d
    ensures RoundedRatio(p, d) == HalfUp(p, d) <==> Undisturbed(p, d)
  {
    RatioInWhole(p, d);
    WholeExactly(p, d);
  }

  lemma {:induction false} WholeExactly(p: nat, d: nat)
    requires d > 0 && NearestDouble(p) < TWO_53 * d
    ensures WholeRound(NearestDouble(p), d) == HalfUp(p, d) <==> Undisturbed(p, d)
  {
    var near, n := NearestDouble(p), HalfUp(p, d);
    HalfUpParts(p, d, n);
    if near == 0 {
      NearZero(p);
    } else {
      WholeRoundIs(near, d, n, Residue(p, d) + 2 * (near - p));
    }
  }

  lemma {:induction false} RatioInWhole(p: nat, d: nat)
    requires 0 < d <= MAX_DENOMINATOR && NearestDouble(p) < TWO_53 * d
    ensures RoundedRatio(p, d) == WholeRound(NearestDouble(p), d)
  {
    FlOfWhole(p);
    QuotientRounds(NearestDouble(p), d);
  }

  lemma {:induction false} NearZero(p: nat)
    requires NearestDouble(p) == 0
    ensures p == 0
  {
    var e := GrainBinade(p);
    if e > 0 {
      HalfEvenAtLeast(p, Two(e), 2);
    }
  }

  // ----- Numerators that are doubles themselves -----

  const TWO_38: int := 274877906944

  /** The residue is far enough below the next tie, given how fine the doubles are there. */
  predicate ClearOfTie(p: nat, d: nat)
    requires d > 0
  {
    var gap := 2 * d - Residue(p, d);
    p < d * TWO_38 || d < gap * (if p < d * (2 * TWO_38) then 16384 else 8192)
  }

  lemma {:induction false} FinenessAbove(p: nat, d: nat, bits: nat)
    requires d > 0 && 0 < p < TWO_53 * d && p * Two(bits) < TWO_52 * d
    ensures Fineness(p, d) >= 2 * Two(bits)
  {
    var u := FinenessBinade(p, d);
    if u <= bits {
      TwoMonotone(u, bits);
      Ordered(Two(u), Two(bits), p);
    } else {
      TwoMonotone(bits + 1, u);
    }
  }

  lemma {:induction false} FinenessBelow(p: nat, d: nat, bits: nat)
    requires d > 0 && 0 < p < TWO_53 * d && p * Two(bits) >= TWO_52 * d
    ensures Fineness(p, d) <= Two(bits)
  {
    var u := FinenessBinade(p, d);
    if u > bits {
      TwoMonotone(bits + 1, u);
      Ordered(2 * Two(bits), Two(u), p);
    } else {
      TwoMonotone(u, bits);
    }
  }

  lemma TwoOf14()
    ensures Two(12) == 4096 && Two(13) == 8192 && Two(14) == 16384
  {
    assert Two(6) == 64;
    TwoPlus6(6);
  }

  /** Around quotients below 2^40 the fineness is 8192, 16384 or more. */
  lemma {:induction false} FinenessOf(p: nat, d: nat)
    requires 10000 <= d <= MAX_DENOMINATOR && 0 < p <= TWO_53
    ensures var f := Fineness(p, d);
            if p < d * TWO_38 then f >= 32768 else if p < d * (2 * TWO_38) then f == 16384 else f == 8192
  {
    TwoOf14();
    if p < d * TWO_38 {
      FinenessAbove(p, d, 14);
    } else if p < d * (2 * TWO_38) {
      FinenessAbove(p, d, 13);
      FinenessBelow(p, d, 14);
    } else {
      FinenessAbove(p, d, 12);
      FinenessBelow(p, d, 13);
    }
  }

  lemma {:induction false} GapStays(r: nat, d: nat, f: nat, n: nat)
    requires r < 2 * d && f >= 4
    ensures Stays(r, d, f, n) <==> d < (2 * d - r) * f
  {
    assert (2 * d - r) * f == 2 * d * f - r * f;
    assert r * f >= 0;
  }

  lemma {:induction false} WideGap(gap: nat, f: nat, d: nat)
    requires gap >= 1 && f > d
    ensures d < gap * f
  {
    assert gap * f >= f;
  }

  /** For a numerator up to 2^53 only the distance to the next tie matters. */
  lemma {:induction false} SmallUndisturbed(p: nat, d: nat)
    requires 10000 <= d <= MAX_DENOMINATOR && p <= TWO_53
    ensures NearestDouble(p) == p < TWO_53 * d
    ensures Undisturbed(p, d) <==> ClearOfTie(p, d)
  {
    var r := Residue(p, d);
    SmallNearest(p);
    if p > 0 {
      FinenessOf(p, d);
      GapStays(r, d, Fineness(p, d), HalfUp(p, d));
      if p < d * TWO_38 {
        WideGap(2 * d - r, Fineness(p, d), d);
      }
    }
  }

  lemma {:induction false} SmallNearest(p: nat)
    requires p <= TWO_53
    ensures NearestDouble(p) == p
  {
    if p == TWO_53 {
      assert Grain(p) == 2 * Grain(p / 2);
    }
  }

  /** Such a numerator too close to the next tie gives a quotient one too large. */
  lemma {:induction false} SmallMisses(p: nat, d: nat)
    requires 10000 <= d <= MAX_DENOMINATOR && p <= TWO_53
    ensures RoundedRatio(p, d) == HalfUp(p, d) + if ClearOfTie(p, d) then 0 else 1
  {
    SmallUndisturbed(p, d);
    RatioExactly(p, d);
    if !ClearOfTie(p, d) {
      RatioInWhole(p, d);
      NextBucket(p, d);
    }
  }

  lemma {:induction false} NextBucket(p: nat, d: nat)
    requires 10000 <= d <= MAX_DENOMINATOR && 0 < p <= TWO_53 && !ClearOfTie(p, d)
    ensures WholeRound(p, d) == HalfUp(p, d) + 1
  {
    var n, r, f := HalfUp(p, d), Residue(p, d), Fineness(p, d);
    HalfUpParts(p, d, n);
    FinenessOf(p, d);
    NextStays(r, d, f, n);
    TwiceTimes(d, n);
    TwiceTimes(d, n + 1);
    Spread(n, 1, d);
    WholeRoundIs(p, d, n + 1, r - 2 * d);
  }

  lemma {:induction false} NextStays(r: nat, d: nat, f: nat, n: nat)
    requires 0 < d && r < 2 * d && f >= 4 && d >= (2 * d - r) * f
    ensures Stays(r - 2 * d, d, f, n + 1)
  {
    var gap := 2 * d - r;
    assert (0 - gap) * f == 0 - gap * f;
    assert gap * f >= 0;
  }
}
