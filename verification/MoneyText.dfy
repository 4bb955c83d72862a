/**
 * Money as text: `parseMoney` and `formatMoney` of lib/money.ts.  Reading and writing both go
 * through rounded operations; the results say for which amounts that is harmless.
 */
module MoneyText {
  import opened Text
  import opened Ieee754
  import opened Money
  import opened Hundredths

  // ----- Reading -----

  datatype ParseResult = Null | Parsed(value: Money) | Throws(error: MoneyError)

  predicate StartsIgnoringCase(s: string, lower: string) {
    |lower| <= |s| && forall i :: 0 <= i < |lower| ==> LowerChar(s[i]) == lower[i]
  }

  /** Length of a currency symbol or code in front, with the point of `Rs.` */
  function SymbolLength(s: string): (n: nat)
    ensures n <= |s|
  {
    if StartsIgnoringCase(s, "rs") then
      if |s| > 2 && s[2] == '.' then 3 else 2
    else if || StartsIgnoringCase(s, "pkr") || StartsIgnoringCase(s, "usd")
            || StartsIgnoringCase(s, "aed") || StartsIgnoringCase(s, "gbp")
            || StartsIgnoringCase(s, "eur") then 3
    else if s != [] && (s[0] == '$' || s[0] == '\U{A3}' || s[0] == '\U{20AC}') then 1
    else 0
  }

  /** Drops one leading currency symbol or code and the white space after it. */
  function StripSymbol(s: string): string {
    if SymbolLength(s) == 0 then s else TrimStart(s[SymbolLength(s)..])
  }

  /** Every comma and every white-space character removed. */
  function WithoutSeparators(s: string): (r: string)
    ensures forall i :: 0 <= i < |r| ==> r[i] != ',' && !IsWhitespace(r[i])
  {
    if s == [] then []
    else if s[0] == ',' || IsWhitespace(s[0]) then WithoutSeparators(s[1..])
    else [s[0]] + WithoutSeparators(s[1..])
  }

  function Clean(input: string): string {
    WithoutSeparators(StripSymbol(Trim(input)))
  }

  function Unsigned(s: string): string {
    if s != [] && s[0] == '-' then s[1..] else s
  }

  function PointIndex(s: string): (k: nat)
    ensures k <= |s| && (k < |s| ==> s[k] == '.')
    ensures '.' !in s[..k]
  {
    if s == [] || s[0] == '.' then 0 else 1 + PointIndex(s[1..])
  }

  /** Digits, and at most two digits after a point. */
  predicate IsUnsignedNumeral(u: string) {
    var k := PointIndex(u);
    && k >= 1 && AllDigits(u[..k])
    && (k < |u| ==> AllDigits(u[k + 1..]) && 1 <= |u[k + 1..]| <= 2)
  }

  predicate IsNumeral(s: string) {
    IsUnsignedNumeral(Unsigned(s))
  }

  /** Hundredths written as one digit or two. */
  function FractionValue(digits: string): nat
    requires AllDigits(digits)
  {
    if |digits| == 1 then 10 * ReadDecimal(digits) else ReadDecimal(digits)
  }

  function UnsignedValue(u: string): nat
    requires IsUnsignedNumeral(u)
  {
    var k := PointIndex(u);
    100 * ReadDecimal(u[..k]) + if k == |u| then 0 else FractionValue(u[k + 1..])
  }

  /** The exact amount a numeral denotes, in hundredths. */
  function Denoted(s: string): int
    requires IsNumeral(s)
  {
    if s != [] && s[0] == '-' then 0 - UnsignedValue(Unsigned(s)) else UnsignedValue(Unsigned(s))
  }

  /** `Number` of a numeral denoting m hundredths, then `fromMajor`. */
  function ReadAmount(m: int, currency: Currency): ParseResult {
    if Overflows(m as real / 100.0) then Null
    else match FromMajor(Fl(m as real / 100.0), currency)
         case Ok(value) => Parsed(value)
         case Err(error) => Throws(error)
  }

  function ParseMoney(input: string, currency: Currency): ParseResult {
    if !IsNumeral(Clean(input)) then Null else ReadAmount(Denoted(Clean(input)), currency)
  }

  // ----- Which amounts are read exactly -----

  lemma {:induction false} ReadAmountIs(m: int, currency: Currency)
    requires -TWO_53 <= m <= TWO_53
    ensures ReadAmount(m, currency) ==
            if IsSafe(ReadBack(m)) then Parsed(Money(ReadBack(m), currency)) else Throws(NotSafeInteger)
  {
    SmallDoesNotOverflow(m as real / 100.0);
    FromMajorOfRounded(m, currency);
  }

  lemma {:induction false} FromMajorOfRounded(m: int, currency: Currency)
    ensures FromMajor(Fl(m as real / 100.0), currency) ==
            if IsSafe(ReadBack(m)) then Ok(Money(ReadBack(m), currency)) else Err(NotSafeInteger)
  {
  }

  lemma {:induction false} ReadAmountIsSafe(m: int, currency: Currency)
    requires ReadAmount(m, currency).Parsed?
    ensures IsSafe(ReadAmount(m, currency).value.minor)
  {
  }

  /** Reading m hundredths gives m exactly when its remainder allows it. */
  lemma {:induction false} ReadAmountExactly(m: int, currency: Currency)
    ensures ReadAmount(m, currency) == Parsed(Money(m, currency)) <==> ReadsRight(Abs(m))
  {
    if IsSafe(m) {
      ReadAmountIs(m, currency);
      ReadBackExactly(Abs(m));
      if m < 0 {
        ReadBackOdd(-m);
      }
    } else if ReadAmount(m, currency) == Parsed(Money(m, currency)) {
      ReadAmountIsSafe(m, currency);
    }
  }

  /**
   * What is no numeral is refused.  A numeral is read as exactly the amount it denotes just
   * when the remainder of that amount allows it.
   */
  lemma {:induction false} NumeralExactly(input: string, currency: Currency)
    ensures !IsNumeral(Clean(input)) ==> ParseMoney(input, currency) == Null
    ensures IsNumeral(Clean(input)) ==>
              (ParseMoney(input, currency) == Parsed(Money(Denoted(Clean(input)), currency))
               <==> ReadsRight(Abs(Denoted(Clean(input)))))
  {
    if IsNumeral(Clean(input)) {
      ReadAmountExactly(Denoted(Clean(input)), currency);
    }
  }

  /**
   * A numeral of a safe amount is read as that amount or a neighbour, which one its remainder
   * says; it is refused only when that neighbour is not a safe integer.
   */
  lemma {:induction false} NumeralValue(input: string, currency: Currency)
    requires IsNumeral(Clean(input)) && IsSafe(Denoted(Clean(input)))
    ensures var m := Denoted(Clean(input));
            var n := ReadsAs(Abs(m));
            && -1 <= n - Abs(m) <= 1
            && ParseMoney(input, currency) ==
               if n <= MAX_SAFE then Parsed(Money(if m < 0 then 0 - n else n, currency)) else Throws(NotSafeInteger)
  {
    ReadsAsNeighbour(Abs(Denoted(Clean(input))));
    ReadAmountValue(Denoted(Clean(input)), currency);
  }

  lemma {:induction false} ReadAmountValue(m: int, currency: Currency)
    requires IsSafe(m)
    ensures var n := ReadsAs(Abs(m));
            ReadAmount(m, currency) ==
            if n <= MAX_SAFE then Parsed(Money(if m < 0 then 0 - n else n, currency)) else Throws(NotSafeInteger)
  {
    ReadAmountIs(m, currency);
    SignedReadBack(m);
    ReadsAsNeighbour(Abs(m));
  }

  lemma {:induction false} SignedReadBack(m: int)
    requires IsSafe(m)
    ensures ReadBack(m) == if m < 0 then 0 - ReadsAs(-m) else ReadsAs(m)
  {
    ReadBackIs(Abs(m));
    if m < 0 {
      ReadBackOdd(-m);
    }
  }

  /** The largest amount up to which every numeral is read exactly. */
  const LAST_EXACT: int := 3518437208883201

  lemma {:induction false} FirstsReadRight(n: nat)
    ensures n <= LAST_EXACT ==> ReadsRight(n)
    ensures n == LAST_EXACT + 1 ==> !ReadsRight(n)
  {
  }

  /** So every numeral up to the bound is read exactly, and none that denotes the next amount. */
  lemma {:induction false} NumeralExact(input: string, currency: Currency)
    requires IsNumeral(Clean(input))
    ensures var m := Denoted(Clean(input));
            && (Abs(m) <= LAST_EXACT ==> ParseMoney(input, currency) == Parsed(Money(m, currency)))
            && (Abs(m) == LAST_EXACT + 1 ==> ParseMoney(input, currency) != Parsed(Money(m, currency)))
  {
    NumeralExactly(input, currency);
    FirstsReadRight(Abs(Denoted(Clean(input))));
  }

  // ----- Writing -----

  function Symbol(currency: Currency): string {
    match currency
    case PKR => "Rs."
    case USD => "$"
    case AED => "AED"
    case GBP => "\U{A3}"
    case EUR => "\U{20AC}"
  }

  function Rounded(x: real): nat
    requires x >= 0.0
  {
    MathRound(x)
  }

  /** The double nearest to the amount in major units, sign dropped. */
  function Major(minor: int): (x: real)
    ensures x >= 0.0
  {
    WholeIsDouble(0);
    FlBounded(Abs(minor) as real / 100.0, 0.0);
    Fl(Abs(minor) as real / 100.0)
  }

  /** The digits of a number at zero or two decimals; the locale groups the whole part. */
  function Digits(major: real, fraction: bool, group: string -> string): string
    requires major >= 0.0
  {
    if !fraction then group(Decimal(Rounded(major)))
    else
      var hundredths := Rounded(major * 100.0);
      group(Decimal(hundredths / 100)) + "." + PadStart(Decimal(hundredths % 100), 2, '0')
  }

  /** What stands before the digits: the sign, then the symbol and a blank. */
  function Prefix(negative: bool, showSymbol: bool, currency: Currency): string {
    (if negative then "-" else "") + (if showSymbol then Symbol(currency) + " " else "")
  }

  function FormatMoney(value: Money, compactDecimals: bool, showSymbol: bool, group: string -> string): string {
    var fraction := !(compactDecimals && value.minor % MINOR_UNITS_PER_MAJOR == 0);
    Prefix(value.minor < 0, showSymbol, value.currency) + Digits(Major(value.minor), fraction, group)
  }

  /** A locale's grouping: commas put anywhere among the digits. */
  ghost predicate GroupsWithCommas(group: string -> string) {
    forall s :: Groups(group, s)
  }

  predicate Groups(group: string -> string, s: string) {
    s != [] && AllDigits(s) ==> IsGrouping(group(s), s)
  }

  predicate IsGrouping(grouped: string, digits: string) {
    && WithoutSeparators(grouped) == digits
    && forall i :: 0 <= i < |grouped| ==> grouped[i] == ',' || IsDigit(grouped[i])
  }

  // ----- What is written reads back -----

  /** The plain numeral behind a formatted magnitude. */
  function Numeral(n: nat, fraction: bool): string {
    Decimal(n / 100) + if fraction then "." + PadStart(Decimal(n % 100), 2, '0') else ""
  }

  /** The amount that is printed: the two decimals of the nearest double. */
  function Shown(minor: int, fraction: bool): nat {
    if fraction then Rounded(Major(minor) * 100.0) else Abs(minor)
  }

  lemma {:induction false} ShownIsPrinted(minor: int, fraction: bool)
    requires IsSafe(minor) && (fraction || minor % 100 == 0)
    ensures Shown(minor, fraction) <= TWO_53 && (fraction || Shown(minor, fraction) % 100 == 0)
    ensures Fl(Shown(minor, fraction) as real / 100.0) == Fl(Abs(minor) as real / 100.0)
  {
    if fraction {
      ShownFraction(minor);
      PrintedSameDouble(Abs(minor));
    }
  }

  lemma {:induction false} ShownFraction(minor: int)
    ensures Shown(minor, true) == Printed(Abs(minor))
  {
  }

  lemma MajorWhole(minor: int)
    requires IsSafe(minor) && minor % 100 == 0
    ensures Rounded(Major(minor)) == Abs(minor) / 100
  {
    var whole := Abs(minor) / 100;
    assert Abs(minor) as real / 100.0 == whole as real;
    WholeIsDouble(whole);
    FlExact(whole as real);
  }

  lemma {:induction false} WithoutSeparatorsAppend(s: string, t: string)
    ensures WithoutSeparators(s + t) == WithoutSeparators(s) + WithoutSeparators(t)
  {
    if s == [] {
      assert s + t == t;
    } else {
      assert (s + t)[1..] == s[1..] + t;
      WithoutSeparatorsAppend(s[1..], t);
    }
  }

  lemma {:induction false} WithoutSeparatorsKeeps(s: string)
    requires forall i :: 0 <= i < |s| ==> s[i] != ',' && !IsWhitespace(s[i])
    ensures WithoutSeparators(s) == s
  {
    if s != [] {
      WithoutSeparatorsKeeps(s[1..]);
    }
  }

  lemma {:induction false} TwoDigits(n: nat)
    requires n < 100
    ensures |PadStart(Decimal(n), 2, '0')| == 2 && AllDigits(PadStart(Decimal(n), 2, '0'))
    ensures ReadDecimal(PadStart(Decimal(n), 2, '0')) == n
  {
    ReadOfPadded(n, 2);
    assert n >= 10 ==> Decimal(n) == Decimal(n / 10) + [DigitChar(n % 10)];
  }

  lemma {:induction false} PointAfterDigits(digits: string, rest: string)
    requires AllDigits(digits) && (rest == [] || rest[0] == '.')
    ensures PointIndex(digits + rest) == |digits|
  {
    if digits == [] {
      assert digits + rest == rest;
    } else {
      assert (digits + rest)[1..] == digits[1..] + rest;
      PointAfterDigits(digits[1..], rest);
    }
  }

  lemma {:induction false} NumeralMagnitude(n: nat, fraction: bool)
    requires fraction || n % 100 == 0
    ensures IsUnsignedNumeral(Numeral(n, fraction)) && UnsignedValue(Numeral(n, fraction)) == n
    ensures IsDigit(Numeral(n, fraction)[0])
  {
    var whole := Decimal(n / 100);
    var u := Numeral(n, fraction);
    ReadOfDecimal(n / 100);
    if fraction {
      var cents := PadStart(Decimal(n % 100), 2, '0');
      TwoDigits(n % 100);
      PointAfterDigits(whole, "." + cents);
      assert u == whole + ("." + cents);
      assert u[..|whole|] == whole && u[|whole| + 1..] == cents;
    } else {
      PointAfterDigits(whole, "");
      assert u == whole + "" && u[..|whole|] == whole;
    }
  }

  /** The plain numeral, with or without a minus, denotes the amount. */
  lemma {:induction false} NumeralDenotes(n: nat, fraction: bool, negative: bool)
    requires fraction || n % 100 == 0
    ensures var s := (if negative then "-" else "") + Numeral(n, fraction);
            IsNumeral(s) && Denoted(s) == if negative then 0 - n else n
  {
    var u := Numeral(n, fraction);
    NumeralMagnitude(n, fraction);
    SignedValue(u, n, negative);
  }

  lemma {:induction false} SignedValue(u: string, n: nat, negative: bool)
    requires u != "" && IsDigit(u[0]) && IsUnsignedNumeral(u) && UnsignedValue(u) == n
    ensures var s := (if negative then "-" else "") + u;
            IsNumeral(s) && Denoted(s) == if negative then 0 - n else n
  {
    var s := (if negative then "-" else "") + u;
    assert Unsigned(s) == u && (s[0] == '-' <==> negative);
  }

  /** What the locale prints for a magnitude: commas apart, the plain numeral. */
  lemma {:induction false} DigitsClean(minor: int, fraction: bool, group: string -> string)
    requires GroupsWithCommas(group) && IsSafe(minor)
    requires fraction || minor % 100 == 0
    ensures StartsLikeDigits(Digits(Major(minor), fraction, group))
    ensures WithoutSeparators(Digits(Major(minor), fraction, group)) == Numeral(Shown(minor, fraction), fraction)
  {
    var n := Shown(minor, fraction);
    var whole := Decimal(n / 100);
    var grouped := group(whole);
    assert Groups(group, whole);
    if fraction {
      DigitsWithCents(grouped, whole, n % 100);
    } else {
      MajorWhole(minor);
      assert Numeral(n, false) == whole;
      assert grouped != [];
    }
  }

  predicate StartsLikeDigits(d: string) {
    d != [] && (d[0] == ',' || IsDigit(d[0])) && !IsWhitespace(d[|d| - 1])
  }

  lemma {:induction false} DigitsWithCents(grouped: string, whole: string, cents: nat)
    requires IsGrouping(grouped, whole) && whole != [] && cents < 100
    ensures var d := grouped + "." + PadStart(Decimal(cents), 2, '0');
            && StartsLikeDigits(d)
            && WithoutSeparators(d) == whole + ("." + PadStart(Decimal(cents), 2, '0'))
  {
    TwoDigits(cents);
    var rest := "." + PadStart(Decimal(cents), 2, '0');
    assert grouped + "." + PadStart(Decimal(cents), 2, '0') == grouped + rest;
    WithoutSeparatorsAppend(grouped, rest);
    WithoutSeparatorsKeeps(rest);
  }

  lemma {:induction false} FirstDiffers(s: string, lower: string)
    requires s != [] && lower != [] && LowerChar(s[0]) != lower[0]
    ensures !StartsIgnoringCase(s, lower)
  {
  }

  lemma {:induction false} NoCode(s: string)
    requires s != [] && LowerChar(s[0]) !in ['r', 'p', 'u', 'a', 'g', 'e']
    ensures !StartsIgnoringCase(s, "rs") && !StartsIgnoringCase(s, "pkr")
    ensures !StartsIgnoringCase(s, "usd") && !StartsIgnoringCase(s, "aed")
    ensures !StartsIgnoringCase(s, "gbp") && !StartsIgnoringCase(s, "eur")
  {
    FirstDiffers(s, "rs");
    FirstDiffers(s, "pkr");
    FirstDiffers(s, "usd");
    FirstDiffers(s, "aed");
    FirstDiffers(s, "gbp");
    FirstDiffers(s, "eur");
  }

  lemma {:induction false} SymbolMeasured(currency: Currency, rest: string)
    ensures SymbolLength(Symbol(currency) + rest) == |Symbol(currency)|
  {
    var s := Symbol(currency) + rest;
    match currency
    case PKR => assert StartsIgnoringCase(s, "rs");
    case AED =>
      FirstDiffers(s, "rs");
      assert StartsIgnoringCase(s, "aed");
    case _ => NoCode(s);
  }

  /** A symbol and the blank after it are stripped from in front of digits. */
  lemma {:induction false} StripsSymbol(currency: Currency, d: string)
    requires StartsLikeDigits(d)
    ensures StripSymbol(Symbol(currency) + " " + d) == d
  {
    var s := Symbol(currency) + " " + d;
    assert s == Symbol(currency) + (" " + d);
    SymbolMeasured(currency, " " + d);
    assert s[|Symbol(currency)|..] == " " + d;
    TrimStartPadded(" ", d);
  }

  lemma {:induction false} NothingToStrip(s: string)
    requires s != [] && (s[0] == '-' || s[0] == ',' || IsDigit(s[0]))
    ensures StripSymbol(s) == s
  {
    NoCode(s);
  }

  lemma {:induction false} CleanOfTrimmed(prefix: string, d: string)
    requires StartsLikeDigits(d) && (prefix == "" || !IsWhitespace(prefix[0]))
    ensures Clean(prefix + d) == WithoutSeparators(StripSymbol(prefix + d))
  {
    var text := prefix + d;
    assert text[|text| - 1] == d[|d| - 1];
    assert text[0] == if prefix == "" then d[0] else prefix[0];
    TrimOfTrimmed(text);
  }

  lemma {:induction false} PlainCleans(d: string)
    requires StartsLikeDigits(d)
    ensures Clean(d) == WithoutSeparators(d)
  {
    SignedCleans(false, d);
    assert "" + d == d && "" + WithoutSeparators(d) == WithoutSeparators(d);
  }

  lemma {:induction false} CentsClean(whole: string, cents: nat)
    requires AllDigits(whole) && whole != "" && cents < 100
    ensures var u := whole + ("." + PadStart(Decimal(cents), 2, '0'));
            Clean(u) == u
  {
    var u := whole + ("." + PadStart(Decimal(cents), 2, '0'));
    WithoutSeparatorsKeeps(whole);
    DigitsWithCents(whole, whole, cents);
    assert whole + "." + PadStart(Decimal(cents), 2, '0') == u;
    PlainCleans(u);
  }

  lemma {:induction false} NumeralCleans(n: nat)
    ensures Clean(Numeral(n, true)) == Numeral(n, true)
  {
    CentsClean(Decimal(n / 100), n % 100);
  }

  /** The first amount that is not read exactly, as it is typed: 35184372088832.02. */
  lemma {:induction false} ParseFirstWrong(currency: Currency)
    ensures ParseMoney(Numeral(LAST_EXACT + 1, true), currency) == Parsed(Money(LAST_EXACT + 2, currency))
  {
    NumeralCleans(LAST_EXACT + 1);
    PlainNumeralReads(LAST_EXACT + 1, currency);
    FirstWrongAmount(LAST_EXACT + 1, currency);
  }

  lemma {:induction false} PlainNumeralReads(n: nat, currency: Currency)
    requires Clean(Numeral(n, true)) == Numeral(n, true)
    ensures ParseMoney(Numeral(n, true), currency) == ReadAmount(n, currency)
  {
    assert "" + Numeral(n, true) == Numeral(n, true);
    CleanNumeralReads(Numeral(n, true), n, true, false, currency);
  }

  lemma {:induction false} FirstWrongAmount(n: nat, currency: Currency)
    requires n == LAST_EXACT + 1
    ensures ReadAmount(n, currency) == Parsed(Money(n + 1, currency))
  {
    FirstWrongReads();
    ReadAmountIs(n, currency);
  }

  lemma FirstWrongReads()
    ensures ReadBack(LAST_EXACT + 1) == LAST_EXACT + 2
  {
    var k, j := DoubleAmong128ths(LAST_EXACT + 1);
    TimesHundred(Fl((LAST_EXACT + 1) as real / 100.0), k, LAST_EXACT + 1, j, 32);
    HalvesRound(LAST_EXACT + 1, j, (LAST_EXACT + 1) as real + j as real / 32.0);
  }

  /** A minus in front of a symbol leaves a letter or sign that no numeral has. */
  lemma {:induction false} SymbolIsNoNumeral(currency: Currency, rest: string)
    ensures !IsNumeral(WithoutSeparators("-" + (Symbol(currency) + rest)))
  {
    var c := Symbol(currency)[0];
    var tail := Symbol(currency)[1..] + rest;
    assert "-" + (Symbol(currency) + rest) == ['-', c] + tail;
    NoNumeralBehindMinus(c, tail);
  }

  lemma {:induction false} NoNumeralBehindMinus(c: char, tail: string)
    requires !IsDigit(c) && !IsWhitespace(c) && c != ','
    ensures !IsNumeral(WithoutSeparators(['-', c] + tail))
  {
    WithoutSeparatorsAppend(['-', c], tail);
    WithoutSeparatorsKeeps(['-', c]);
    assert ['-', c] + WithoutSeparators(tail) == "-" + ([c] + WithoutSeparators(tail));
    NoNumeralFrom(c, WithoutSeparators(tail));
  }

  lemma {:induction false} NoNumeralFrom(c: char, rest: string)
    requires !IsDigit(c)
    ensures !IsNumeral("-" + ([c] + rest))
  {
    var u := [c] + rest;
    assert Unsigned("-" + u) == u;
    if PointIndex(u) >= 1 {
      assert u[..PointIndex(u)][0] == c;
    }
  }

  lemma {:induction false} NegativeWithSymbol(currency: Currency, d: string)
    requires StartsLikeDigits(d)
    ensures ParseMoney(Prefix(true, true, currency) + d, currency) == Null
  {
    var text := "-" + (Symbol(currency) + " ") + d;
    assert text == "-" + (Symbol(currency) + (" " + d));
    CleanOfTrimmed("-" + (Symbol(currency) + " "), d);
    NothingToStrip(text);
    SymbolIsNoNumeral(currency, " " + d);
  }

  lemma {:induction false} CleanNumeralReads(text: string, n: nat, fraction: bool, negative: bool, currency: Currency)
    requires Clean(text) == (if negative then "-" else "") + Numeral(n, fraction)
    requires fraction || n % 100 == 0
    ensures ParseMoney(text, currency) == ReadAmount(if negative then 0 - n else n, currency)
  {
    NumeralDenotes(n, fraction, negative);
  }

  lemma {:induction false} WithSymbolCleans(currency: Currency, d: string)
    requires StartsLikeDigits(d)
    ensures Clean(Symbol(currency) + " " + d) == WithoutSeparators(d)
  {
    CleanOfTrimmed(Symbol(currency) + " ", d);
    StripsSymbol(currency, d);
  }

  lemma {:induction false} SymbolPrefix(currency: Currency)
    ensures Prefix(false, true, currency) == Symbol(currency) + " "
  {
    assert "" + (Symbol(currency) + " ") == Symbol(currency) + " ";
  }

  lemma {:induction false} SignedCleans(negative: bool, d: string)
    requires StartsLikeDigits(d)
    ensures Clean((if negative then "-" else "") + d) == (if negative then "-" else "") + WithoutSeparators(d)
  {
    var sign := if negative then "-" else "";
    CleanOfTrimmed(sign, d);
    NothingToStrip(sign + d);
    WithoutSeparatorsAppend(sign, d);
    WithoutSeparatorsKeeps(sign);
  }

  lemma {:induction false} PrefixCleans(negative: bool, showSymbol: bool, currency: Currency, d: string)
    requires StartsLikeDigits(d) && !(negative && showSymbol)
    ensures Clean(Prefix(negative, showSymbol, currency) + d)
         == (if negative then "-" else "") + WithoutSeparators(d)
  {
    if showSymbol {
      SymbolPrefix(currency);
      WithSymbolCleans(currency, d);
      assert "" + WithoutSeparators(d) == WithoutSeparators(d);
    } else {
      assert Prefix(negative, showSymbol, currency) == if negative then "-" else "";
      SignedCleans(negative, d);
    }
  }

  /** Amounts with the same nearest double, up to sign, are read alike. */
  lemma {:induction false} SameDoubleReadsAlike(n: nat, p: nat, negative: bool, currency: Currency)
    requires n <= TWO_53 && p <= TWO_53 && Fl(n as real / 100.0) == Fl(p as real / 100.0)
    ensures ReadAmount(if negative then 0 - n else n, currency) == ReadAmount(if negative then 0 - p else p, currency)
  {
    assert ReadBack(n) == ReadBack(p);
    if negative {
      ReadBackOdd(n);
      ReadBackOdd(p);
      ReadAmountIs(0 - n, currency);
      ReadAmountIs(0 - p, currency);
    } else {
      ReadAmountIs(n, currency);
      ReadAmountIs(p, currency);
    }
  }

  /** A text that cleans to what is shown of an amount reads as the amount itself does. */
  lemma {:induction false} AcceptedReads(value: Money, text: string, fraction: bool)
    requires IsSafe(value.minor) && (fraction || value.minor % 100 == 0)
    requires Clean(text) == (if value.minor < 0 then "-" else "") + Numeral(Shown(value.minor, fraction), fraction)
    ensures ParseMoney(text, value.currency) == ReadAmount(value.minor, value.currency)
  {
    ShownIsPrinted(value.minor, fraction);
    CleanNumeralReads(text, Shown(value.minor, fraction), fraction, value.minor < 0, value.currency);
    ShownReadsAlike(value, fraction);
  }

  lemma {:induction false} ShownReadsAlike(value: Money, fraction: bool)
    requires IsSafe(value.minor) && (fraction || value.minor % 100 == 0)
    ensures var n := Shown(value.minor, fraction);
            ReadAmount(if value.minor < 0 then 0 - n else n, value.currency) == ReadAmount(value.minor, value.currency)
  {
    ShownIsPrinted(value.minor, fraction);
    SameDoubleReadsAlike(Shown(value.minor, fraction), Abs(value.minor), value.minor < 0, value.currency);
  }

  /**
   * With any grouping and either decimals setting, a negative amount with its symbol is not
   * accepted again; every other amount comes back exactly when its remainder allows it.
   */
  lemma {:induction false} FormatThenParse(value: Money, compactDecimals: bool, showSymbol: bool,
                                           group: string -> string)
    requires GroupsWithCommas(group) && IsSafe(value.minor)
    ensures var back := ParseMoney(FormatMoney(value, compactDecimals, showSymbol, group), value.currency);
            if value.minor < 0 && showSymbol then back == Null
            else back == Parsed(value) <==> ReadsRight(Abs(value.minor))
  {
    var fraction := !(compactDecimals && value.minor % 100 == 0);
    var d := Digits(Major(value.minor), fraction, group);
    DigitsClean(value.minor, fraction, group);
    if value.minor < 0 && showSymbol {
      NegativeWithSymbol(value.currency, d);
    } else {
      PrefixCleans(value.minor < 0, showSymbol, value.currency, d);
      AcceptedReads(value, Prefix(value.minor < 0, showSymbol, value.currency) + d, fraction);
      ReadAmountExactly(value.minor, value.currency);
    }
  }
}
