/**
 * Whole hundredths through doubles: the nearest double of n / 100, times 100, rounded to
 * whole.  This is what reading a decimal amount with `Number` and `fromMajor`, and printing
 * it at two decimals, come down to (lib/money.ts).
 */
module Hundredths {
  import opened Ieee754
  import opened Money
  import opened Quotients

  const TWO_45: int := 35184372088832
  const TWO_46: int := 70368744177664

  /** Through the nearest double of m / 100 and back, as `fromMajor` does. */
  function ReadBack(m: int): int {
    RoundSymmetric(Fl(Fl(m as real / 100.0) * 100.0))
  }

  /** Printed at two decimals: the exact value of the double, rounded half up. */
  function Printed(n: nat): int {
    MathRound(Fl(n as real / 100.0) * 100.0)
  }

  /**
   * The amounts that come back.  From 2^45 on the doubles are 1/128 and then 1/64 apart; the
   * remainder modulo 25 says how far n / 100 is from one, and from 2^52 on a tie goes to the
   * even amount.
   */
  predicate ReadsRight(n: nat) {
    && n <= MAX_SAFE
    && if n < 100 * TWO_45 then true
       else if n < TWO_52 then !(9 <= 18 * n % 25 <= 12)
       else if n < 100 * TWO_46 then true
       else
         var r := 9 * n % 25;
         r <= 7 || r >= 18 || ((r == 8 || r == 17) && n % 2 == 0)
  }

  /** What an amount comes back as: itself, or a neighbour. */
  function ReadsAs(n: nat): nat {
    if n < 100 * TWO_45 || TWO_52 <= n < 100 * TWO_46 then n
    else if n < TWO_52 then if 9 <= 18 * n % 25 <= 12 then n + 1 else n
    else
      var r := 9 * n % 25;
      if 8 < r <= 12 || (r == 8 && n % 2 == 1) then n + 1
      else if 13 <= r < 17 || (r == 17 && n % 2 == 1) then n - 1
      else n
  }

  lemma {:induction false} ReadsAsNeighbour(n: nat)
    ensures -1 <= ReadsAs(n) - n <= 1
    ensures n <= MAX_SAFE ==> (ReadsAs(n) == n <==> ReadsRight(n))
  {
  }

  lemma ReadBackOdd(m: int)
    ensures ReadBack(-m) == -ReadBack(m)
  {
    var x := m as real / 100.0;
    assert (-m) as real / 100.0 == -x;
    FlOdd(x);
    assert Fl(-x) * 100.0 == -(Fl(x) * 100.0);
    FlOdd(Fl(x) * 100.0);
  }

  // ----- Below 2^45 -----

  lemma PowersUsed()
    ensures Pow2(-8) == 1.0 / 256.0 && Pow2(-7) == 1.0 / 128.0 && Pow2(-6) == 1.0 / 64.0
    ensures Pow2(-1) == 0.5 && Pow2(0) == 1.0
  {
    assert Pow2(-4) == 1.0 / 16.0;
    Pow2Step(-5);
    Pow2Step(-6);
    Pow2Step(-7);
    Pow2Step(-8);
  }

  /** A quarter either way is repaired: the amount itself is a double. */
  lemma CloseIsRepaired(s: real, m: int)
    requires 0 <= m <= TWO_53 && -0.25 < s - m as real < 0.25
    ensures RoundSymmetric(Fl(s)) == m
  {
    WholeIsDouble(m);
    FlNearest(s);
    assert Distance(s, Fl(s)) <= Distance(s, m as real);
  }

  lemma SmallReads(m: int)
    requires 0 <= m < 100 * TWO_45
    ensures ReadBack(m) == m
  {
    var x := m as real / 100.0;
    PowersUsed();
    Pow2Plus53(-8);
    FlError(x, -8);
    CloseIsRepaired(Fl(x) * 100.0, m);
  }

  // ----- The doubles 1/128, 1/64, 1/2 and 1 apart -----

  lemma FlAmong128thsGrid(x: real)
    requires TWO_45 as real <= x < TWO_46 as real
    ensures 0.0 < Pow2(-7 + 52) <= x < Pow2(-7 + 53) && RoundHalfEven(x / Pow2(-7)) == RoundHalfEven(x * 128.0)
  {
    PowersUsed();
    Pow2Plus53(-7);
    assert x / Pow2(-7) == x * 128.0;
  }

  lemma FlAmong128ths(x: real, k: int)
    requires TWO_45 as real <= x < TWO_46 as real && k == RoundHalfEven(x * 128.0)
    ensures Fl(x) == k as real / 128.0
  {
    FlAmong128thsGrid(x);
    FlAt(x, -7, k);
    FlAmong128thsScale(k);
  }

  lemma FlAmong128thsScale(k: int)
    ensures Scaled(k, -7) == k as real / 128.0
  {
    PowersUsed();
  }

  lemma FlAmong64thsGrid(x: real)
    requires TWO_46 as real <= x < 2.0 * TWO_46 as real
    ensures 0.0 < Pow2(-6 + 52) <= x < Pow2(-6 + 53) && RoundHalfEven(x / Pow2(-6)) == RoundHalfEven(x * 64.0)
  {
    PowersUsed();
    Pow2Plus53(-6);
    assert x / Pow2(-6) == x * 64.0;
  }

  lemma FlAmong64ths(x: real, k: int)
    requires TWO_46 as real <= x < 2.0 * TWO_46 as real && k == RoundHalfEven(x * 64.0)
    ensures Fl(x) == k as real / 64.0
  {
    FlAmong64thsGrid(x);
    FlAt(x, -6, k);
    FlAmong64thsScale(k);
  }

  lemma FlAmong64thsScale(k: int)
    ensures Scaled(k, -6) == k as real / 64.0
  {
    PowersUsed();
  }

  lemma FlAmongHalvesGrid(x: real)
    requires TWO_52 as real / 2.0 <= x < TWO_52 as real
    ensures 0.0 < Pow2(-1 + 52) <= x < Pow2(-1 + 53) && RoundHalfEven(x / Pow2(-1)) == RoundHalfEven(x * 2.0)
  {
    PowersUsed();
    Pow2Plus53(-1);
    assert x / Pow2(-1) == x * 2.0;
  }

  lemma FlAmongHalves(x: real, k: int)
    requires TWO_52 as real / 2.0 <= x < TWO_52 as real && k == RoundHalfEven(x * 2.0)
    ensures Fl(x) == k as real / 2.0
  {
    FlAmongHalvesGrid(x);
    FlAt(x, -1, k);
    FlAmongHalvesScale(k);
  }

  lemma FlAmongHalvesScale(k: int)
    ensures Scaled(k, -1) == k as real / 2.0
  {
    PowersUsed();
  }

  lemma FlAmongWholesGrid(x: real)
    requires TWO_52 as real <= x < TWO_53 as real
    ensures 0.0 < Pow2(0 + 52) <= x < Pow2(0 + 53) && RoundHalfEven(x / Pow2(0)) == RoundHalfEven(x)
  {
    PowersUsed();
    Pow2Plus53(0);
    assert x / Pow2(0) == x;
  }

  lemma FlAmongWholes(x: real, k: int)
    requires TWO_52 as real <= x < TWO_53 as real && k == RoundHalfEven(x)
    ensures Fl(x) == k as real
  {
    FlAmongWholesGrid(x);
    FlAt(x, 0, k);
    FlAmongWholesScale(k);
  }

  lemma FlAmongWholesScale(k: int)
    ensures Scaled(k, 0) == k as real
  {
    PowersUsed();
  }

  /** The nearest multiple of 25 leaves a remainder between -12 and 12. */
  lemma {:induction false} NearestMultiple(a: nat, k: nat)
    requires k == HalfEven(a, 25)
    ensures -12 <= 25 * k - a <= 12
  {
  }

  lemma {:induction false} RemainderIs(a: nat, z: int, j: int)
    requires a == 25 * z + j && -12 <= j <= 12
    ensures a % 25 == if j < 0 then j + 25 else j
  {
  }

  lemma {:induction false} DoubleAmong128ths(n: nat) returns (k: nat, j: int)
    requires 100 * TWO_45 <= n < 100 * TWO_46
    ensures Fl(n as real / 100.0) == k as real / 128.0
    ensures 25 * k == 32 * n + j && -12 <= j <= 12 && 18 * n % 25 == if j < 0 then j + 25 else j
  {
    k := HalfEven(32 * n, 25);
    j := 25 * k - 32 * n;
    var x := n as real / 100.0;
    HalfEvenRounds(32 * n, 25, x * 128.0);
    FlAmong128ths(x, k);
    NearestMultiple(32 * n, k);
    RemainderIs(18 * n, 2 * n - k, j);
  }

  lemma {:induction false} DoubleAmong64ths(n: nat) returns (k: nat, j: int)
    requires 100 * TWO_46 <= n <= TWO_53
    ensures Fl(n as real / 100.0) == k as real / 64.0
    ensures 25 * k == 16 * n + j && -12 <= j <= 12 && 9 * n % 25 == if j < 0 then j + 25 else j
    ensures k == HalfEven(16 * n, 25)
  {
    k := HalfEven(16 * n, 25);
    j := 25 * k - 16 * n;
    var x := n as real / 100.0;
    HalfEvenRounds(16 * n, 25, x * 64.0);
    FlAmong64ths(x, k);
    NearestMultiple(16 * n, k);
    RemainderIs(9 * n, n - k, j);
  }

  // ----- What comes back -----

  lemma {:induction false} HalvesRound(n: nat, j: int, s: real)
    requires 100 * TWO_45 <= n < TWO_52 && -12 <= j <= 12 && s == n as real + j as real / 32.0
    ensures RoundSymmetric(Fl(s)) == if j > 8 then n + 1 else n
  {
    var k := if j > 8 then 2 * n + 1 else if j < -8 then 2 * n - 1 else 2 * n;
    assert RoundHalfEven(s * 2.0) == k;
    FlAmongHalves(s, k);
  }

  lemma {:induction false} WholesRound(n: nat, j: int, s: real)
    requires TWO_52 <= n <= MAX_SAFE && -12 <= j <= 12 && s == n as real + j as real / 32.0
    ensures RoundSymmetric(Fl(s)) == n
  {
    if s >= TWO_52 as real {
      assert RoundHalfEven(s) == n;
      FlAmongWholes(s, n);
    } else {
      HalfIsDouble(2 * n - 1);
      FlBounded(s, (2 * n - 1) as real / 2.0);
      WholeIsDouble(n);
      FlBounded(s, n as real);
    }
  }

  lemma {:induction false} SixteenthsHalfEven(n: nat, j: int, s: real)
    requires -12 <= j <= 12 && s == n as real + j as real / 16.0
    ensures RoundHalfEven(s) ==
            if j > 8 || (j == 8 && n % 2 == 1) then n + 1
            else if j < -8 || (j == -8 && n % 2 == 1) then n - 1
            else n
  {
    assert s.Floor == if j < 0 then n - 1 else n;
  }

  lemma {:induction false} SixteenthsRound(n: nat, j: int, s: real)
    requires 100 * TWO_46 <= n <= MAX_SAFE && -12 <= j <= 12 && s == n as real + j as real / 16.0
    ensures RoundSymmetric(Fl(s)) ==
            if j > 8 || (j == 8 && n % 2 == 1) then n + 1
            else if j < -8 || (j == -8 && n % 2 == 1) then n - 1
            else n
  {
    SixteenthsHalfEven(n, j, s);
    FlAmongWholes(s, RoundHalfEven(s));
  }

  lemma {:induction false} MiddleReads(n: nat)
    requires 100 * TWO_45 <= n < 100 * TWO_46
    ensures ReadBack(n) == ReadsAs(n)
  {
    var k, j := DoubleAmong128ths(n);
    var s := n as real + j as real / 32.0;
    TimesHundred(Fl(n as real / 100.0), k, n, j, 32);
    MiddleRounds(n, j, s);
  }

  lemma {:induction false} MiddleRounds(n: nat, j: int, s: real)
    requires 100 * TWO_45 <= n < 100 * TWO_46 && -12 <= j <= 12 && s == n as real + j as real / 32.0
    requires 18 * n % 25 == if j < 0 then j + 25 else j
    ensures RoundSymmetric(Fl(s)) == ReadsAs(n)
  {
    if n < TWO_52 {
      HalvesRound(n, j, s);
    } else {
      WholesRound(n, j, s);
    }
  }

  lemma {:induction false} TimesHundred(y: real, k: nat, n: nat, j: int, c: nat)
    requires (c == 32 || c == 16) && y == k as real / (4 * c) as real && 25 * k == c * n + j
    ensures y * 100.0 == n as real + j as real / c as real
  {
  }

  lemma {:induction false} LargeReads(n: nat)
    requires 100 * TWO_46 <= n <= MAX_SAFE
    ensures ReadBack(n) == ReadsAs(n)
  {
    var k, j := DoubleAmong64ths(n);
    TimesHundred(Fl(n as real / 100.0), k, n, j, 16);
    SixteenthsRound(n, j, n as real + j as real / 16.0);
  }

  /** What every safe amount comes back as. */
  lemma {:induction false} ReadBackIs(n: nat)
    requires n <= MAX_SAFE
    ensures ReadBack(n) == ReadsAs(n)
  {
    if n < 100 * TWO_45 {
      SmallReads(n);
    } else if n < 100 * TWO_46 {
      MiddleReads(n);
    } else {
      LargeReads(n);
    }
  }

  /** An amount comes back exactly when its remainder allows it. */
  lemma {:induction false} ReadBackExactly(n: nat)
    requires n <= MAX_SAFE
    ensures ReadBack(n) == n <==> ReadsRight(n)
  {
    ReadBackIs(n);
    ReadsAsNeighbour(n);
  }

  // ----- What is printed -----

  lemma CloseRounds(x: real, y: real, n: int)
    requires Distance(x, y) <= 1.0 / 256.0 && x == n as real / 100.0
    ensures MathRound(y * 100.0) == n
  {
  }

  /** Up to 2^46 the two decimals printed are the amount's own. */
  lemma {:induction false} PrintedClose(n: nat)
    requires n <= 100 * TWO_46
    ensures Printed(n) == n
  {
    var x := n as real / 100.0;
    PowersUsed();
    Pow2Plus53(-7);
    FlError(x, -7);
    CloseRounds(x, Fl(x), n);
  }

  /** What an amount is printed as: itself, or, where the doubles are 1/64 apart, a neighbour. */
  function PrintsAs(n: nat): nat {
    var r := 9 * n % 25;
    if n <= 100 * TWO_46 || r < 8 || r > 16 then n
    else if r <= 12 then n + 1 else n - 1
  }

  /** The amounts that print as themselves. */
  predicate PrintsRight(n: nat) {
    n <= 100 * TWO_46 || !(8 <= 9 * n % 25 <= 16)
  }

  lemma {:induction false} SixteenthsPrint(n: nat, j: int, s: real)
    requires n > 100 * TWO_46 && -12 <= j <= 12 && s == n as real + j as real / 16.0
    requires 9 * n % 25 == if j < 0 then j + 25 else j
    ensures MathRound(s) == PrintsAs(n)
  {
  }

  /** What every safe amount is printed as. */
  lemma {:induction false} PrintedIs(n: nat)
    requires n <= MAX_SAFE
    ensures Printed(n) == PrintsAs(n) && (Printed(n) == n <==> PrintsRight(n))
  {
    if n <= 100 * TWO_46 {
      PrintedClose(n);
    } else {
      var k, j := DoubleAmong64ths(n);
      TimesHundred(Fl(n as real / 100.0), k, n, j, 16);
      SixteenthsPrint(n, j, n as real + j as real / 16.0);
    }
  }

  /** Every amount prints as one with the same nearest double. */
  lemma {:induction false} PrintedSameDouble(n: nat)
    requires n <= MAX_SAFE
    ensures 0 <= Printed(n) <= TWO_53 && Fl(Printed(n) as real / 100.0) == Fl(n as real / 100.0)
  {
    PrintedIs(n);
    if n > 100 * TWO_46 {
      var k, j := DoubleAmong64ths(n);
      NeighbourSameDouble(n, k, j, PrintsAs(n));
    }
  }

  lemma {:induction false} NeighbourSameDouble(n: nat, k: nat, j: int, p: nat)
    requires 100 * TWO_46 <= p <= TWO_53 && 25 * k == 16 * n + j && -12 <= j <= 12
    requires p == n || (p == n + 1 && j >= 8) || (p == n - 1 && j <= -9)
    ensures Fl(p as real / 100.0) == k as real / 64.0
  {
    var k', j' := DoubleAmong64ths(p);
    SameMultiple(k, p, 25 * k - 16 * p);
  }

  lemma {:induction false} SameMultiple(k: nat, p: nat, j: int)
    requires 25 * k == 16 * p + j && -12 <= j <= 12
    ensures HalfEven(16 * p, 25) == k
  {
  }
}
