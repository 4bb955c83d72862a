/**
 * What a reader sees in the text of `formatMoney` (lib/money.ts): the currency from the symbol
 * in front, by a table of the reader's own, and the amount from the digits.
 */
module PrintedAmounts {
  import opened Text
  import opened Ieee754
  import opened Money
  import opened Hundredths
  import opened MoneyText

  // ----- The reader -----

  datatype Priced = Priced(currency: Currency, digits: string)

  function SymbolRead(text: string): Option<Priced> {
    if "Rs. " <= text then Some(Priced(PKR, text[4..]))
    else if "AED " <= text then Some(Priced(AED, text[4..]))
    else if "$ " <= text then Some(Priced(USD, text[2..]))
    else if "\U{A3} " <= text then Some(Priced(GBP, text[2..]))
    else if "\U{20AC} " <= text then Some(Priced(EUR, text[2..]))
    else None
  }

  /** The digits from left to right as one number, whatever stands between them. */
  function Scan(text: string, sofar: nat): nat
    decreases text
  {
    if text == "" then sofar
    else Scan(text[1..], if IsDigit(text[0]) then 10 * sofar + DigitValue(text[0]) else sofar)
  }

  /** Whole units without a point, hundredths with one. */
  function AmountRead(digits: string): nat {
    if '.' in digits then Scan(digits, 0) else 100 * Scan(digits, 0)
  }

  function SignedRead(text: string): int {
    if "-" <= text then 0 - AmountRead(text[1..]) else AmountRead(text)
  }

  function PriceRead(text: string): Option<Money> {
    match SymbolRead(if "-" <= text then text[1..] else text)
    case None => None
    case Some(priced) =>
      var n := AmountRead(priced.digits);
      Some(Money(if "-" <= text then 0 - n else n, priced.currency))
  }

  // ----- Digits are read as the number they write -----

  lemma {:induction false} ScanAppend(s: string, t: string, sofar: nat)
    ensures Scan(s + t, sofar) == Scan(t, Scan(s, sofar))
    decreases s
  {
    if s == "" {
      assert s + t == t;
    } else {
      assert (s + t)[1..] == s[1..] + t;
      ScanAppend(s[1..], t, if IsDigit(s[0]) then 10 * sofar + DigitValue(s[0]) else sofar);
    }
  }

  lemma {:induction false} ScanOne(c: char, sofar: nat)
    ensures Scan([c], sofar) == if IsDigit(c) then 10 * sofar + DigitValue(c) else sofar
  {
    assert [c][1..] == "";
  }

  lemma {:induction false} ScanDigits(w: string)
    requires AllDigits(w)
    ensures Scan(w, 0) == ReadDecimal(w)
  {
    if w != "" {
      var n := |w| - 1;
      ScanDigits(w[..n]);
      ScanAppend(w[..n], [w[n]], 0);
      ScanOne(w[n], Scan(w[..n], 0));
      assert w == w[..n] + [w[n]];
    }
  }

  lemma {:induction false} ScanPastSeparators(text: string, sofar: nat)
    ensures Scan(text, sofar) == Scan(WithoutSeparators(text), sofar)
    ensures '.' in text <==> '.' in WithoutSeparators(text)
    decreases text
  {
    if text != "" {
      var rest := WithoutSeparators(text[1..]);
      ScanPastSeparators(text[1..], if IsDigit(text[0]) then 10 * sofar + DigitValue(text[0]) else sofar);
      assert ([text[0]] + rest)[1..] == rest;
      assert text == [text[0]] + text[1..];
    }
  }

  lemma {:induction false} ScanTwo(pair: string, sofar: nat)
    requires |pair| == 2 && AllDigits(pair)
    ensures Scan(pair, sofar) == 100 * sofar + ReadDecimal(pair)
  {
    assert pair == [pair[0]] + [pair[1]];
    ScanAppend([pair[0]], [pair[1]], sofar);
    ScanOne(pair[0], sofar);
    ScanOne(pair[1], 10 * sofar + DigitValue(pair[0]));
    assert pair[..1][..0] == "" && ReadDecimal(pair[..1]) == DigitValue(pair[0]);
  }

  lemma {:induction false} NumeralRead(n: nat, fraction: bool)
    requires fraction || n % 100 == 0
    ensures AmountRead(Numeral(n, fraction)) == n && ('.' in Numeral(n, fraction) <==> fraction)
  {
    var whole := Decimal(n / 100);
    ReadOfDecimal(n / 100);
    ScanDigits(whole);
    if fraction {
      TwoDigits(n % 100);
      WithCentsRead(whole, PadStart(Decimal(n % 100), 2, '0'));
    } else {
      assert whole + "" == whole;
    }
  }

  lemma {:induction false} WithCentsRead(whole: string, cents: string)
    requires AllDigits(whole) && AllDigits(cents) && |cents| == 2
    ensures Scan(whole + ("." + cents), 0) == 100 * Scan(whole, 0) + ReadDecimal(cents)
    ensures (whole + ("." + cents))[|whole|] == '.'
  {
    ScanAppend(whole, "." + cents, 0);
    ScanAppend(".", cents, Scan(whole, 0));
    ScanOne('.', Scan(whole, 0));
    ScanTwo(cents, Scan(whole, 0));
  }

  // ----- What is printed -----

  predicate ShowsCents(value: Money, compactDecimals: bool) {
    !(compactDecimals && value.minor % 100 == 0)
  }

  /** With cents the two decimals of the nearest double are printed, without them the amount. */
  function PrintedMagnitude(minor: int, cents: bool): nat {
    if cents then PrintsAs(Abs(minor)) else Abs(minor)
  }

  function PrintedAmount(value: Money, compactDecimals: bool): int {
    var n := PrintedMagnitude(value.minor, ShowsCents(value, compactDecimals));
    if value.minor < 0 then 0 - n else n
  }

  lemma {:induction false} DigitsRead(minor: int, fraction: bool, group: string -> string)
    requires GroupsWithCommas(group) && IsSafe(minor) && (fraction || minor % 100 == 0)
    ensures var d := Digits(Major(minor), fraction, group);
            && d != "" && d[0] != '-'
            && AmountRead(d) == PrintedMagnitude(minor, fraction)
            && ('.' in d <==> fraction)
  {
    var d := Digits(Major(minor), fraction, group);
    DigitsClean(minor, fraction, group);
    ScanPastSeparators(d, 0);
    ShownIsPrinted(minor, fraction);
    ShownFraction(minor);
    PrintedIs(Abs(minor));
    NumeralRead(Shown(minor, fraction), fraction);
  }

  lemma {:induction false} SymbolsRead(currency: Currency, d: string)
    ensures SymbolRead(Symbol(currency) + " " + d) == Some(Priced(currency, d))
    ensures Symbol(currency) != "" && Symbol(currency)[0] != '-'
  {
    var s := Symbol(currency) + " ";
    assert (s + d)[..|s|] == s && (s + d)[|s|..] == d;
    assert (s + d)[0] == Symbol(currency)[0];
  }

  /** A printed price shows its currency, and its amount as far as the decimals go. */
  lemma {:induction false} PriceIsRead(value: Money, compactDecimals: bool, group: string -> string)
    requires GroupsWithCommas(group) && IsSafe(value.minor)
    ensures PriceRead(FormatMoney(value, compactDecimals, true, group))
         == Some(Money(PrintedAmount(value, compactDecimals), value.currency))
  {
    DigitsShow(value, compactDecimals, group);
    PriceShows(value, compactDecimals, group);
  }

  ghost predicate Shows(value: Money, compactDecimals: bool, group: string -> string) {
    AmountRead(Digits(Major(value.minor), ShowsCents(value, compactDecimals), group))
 == PrintedMagnitude(value.minor, ShowsCents(value, compactDecimals))
  }

  lemma {:induction false} DigitsShow(value: Money, compactDecimals: bool, group: string -> string)
    requires GroupsWithCommas(group) && IsSafe(value.minor)
    ensures Shows(value, compactDecimals, group)
  {
    DigitsRead(value.minor, ShowsCents(value, compactDecimals), group);
  }

  lemma {:induction false} PriceShows(value: Money, compactDecimals: bool, group: string -> string)
    requires Shows(value, compactDecimals, group)
    ensures PriceRead(FormatMoney(value, compactDecimals, true, group))
         == Some(Money(PrintedAmount(value, compactDecimals), value.currency))
  {
    PriceWithDigits(value, compactDecimals, group, PrintedMagnitude(value.minor, ShowsCents(value, compactDecimals)),
                    PrintedAmount(value, compactDecimals));
  }

  lemma {:induction false} PriceWithDigits(value: Money, compactDecimals: bool, group: string -> string, n: nat, m: int)
    requires AmountRead(Digits(Major(value.minor), ShowsCents(value, compactDecimals), group)) == n
    requires m == if value.minor < 0 then 0 - n else n
    ensures PriceRead(FormatMoney(value, compactDecimals, true, group)) == Some(Money(m, value.currency))
  {
    var d := Digits(Major(value.minor), ShowsCents(value, compactDecimals), group);
    PriceRests(value, compactDecimals, group, d);
    SignedPriceRead(value.minor < 0, value.currency, d, n);
  }

  lemma {:induction false} PriceRests(value: Money, compactDecimals: bool, group: string -> string, d: string)
    requires d == Digits(Major(value.minor), ShowsCents(value, compactDecimals), group)
    ensures FormatMoney(value, compactDecimals, true, group)
         == (if value.minor < 0 then "-" else "") + (Symbol(value.currency) + " " + d)
  {
    var sign, symbol := if value.minor < 0 then "-" else "", Symbol(value.currency) + " ";
    assert sign + symbol + d == sign + (symbol + d);
  }

  lemma {:induction false} SignedPriceRead(negative: bool, currency: Currency, d: string, n: nat)
    requires AmountRead(d) == n
    ensures PriceRead((if negative then "-" else "") + (Symbol(currency) + " " + d))
         == Some(Money(if negative then 0 - n else n, currency))
  {
    var body := Symbol(currency) + " " + d;
    SymbolsRead(currency, d);
    assert body[0] == Symbol(currency)[0];
    BodyRead(negative, body, Priced(currency, d));
  }

  lemma {:induction false} BodyRead(negative: bool, body: string, priced: Priced)
    requires body != "" && body[0] != '-' && SymbolRead(body) == Some(priced)
    ensures PriceRead((if negative then "-" else "") + body)
         == Some(Money(if negative then 0 - AmountRead(priced.digits) else AmountRead(priced.digits), priced.currency))
  {
    var text := (if negative then "-" else "") + body;
    if negative {
      assert text[1..] == body;
    } else {
      assert text == body;
    }
  }

  lemma {:induction false} PrintedAmountExactly(value: Money, compactDecimals: bool)
    requires IsSafe(value.minor)
    ensures PrintedAmount(value, compactDecimals) == value.minor
            <==> (compactDecimals && value.minor % 100 == 0) || PrintsRight(Abs(value.minor))
  {
    PrintedIs(Abs(value.minor));
  }

  /**
   * The reader recovers every price, negative ones included, except with cents among the
   * amounts whose nearest double is half a hundredth or more away.
   */
  lemma {:induction false} PriceIsReadExactly(value: Money, compactDecimals: bool, group: string -> string)
    requires GroupsWithCommas(group) && IsSafe(value.minor)
    ensures PriceRead(FormatMoney(value, compactDecimals, true, group)) == Some(value)
            <==> (compactDecimals && value.minor % 100 == 0) || PrintsRight(Abs(value.minor))
  {
    PriceIsRead(value, compactDecimals, group);
    PrintedAmountExactly(value, compactDecimals);
  }

  /** Without its symbol an amount reads the same.  It has a point, two digits from the end,
      exactly unless decimals are compact and the amount is whole. */
  lemma {:induction false} AmountIsRead(value: Money, compactDecimals: bool, group: string -> string)
    requires GroupsWithCommas(group) && IsSafe(value.minor)
    ensures var text := FormatMoney(value, compactDecimals, false, group);
            && SignedRead(text) == PrintedAmount(value, compactDecimals)
            && ('.' in text <==> !(compactDecimals && value.minor % 100 == 0))
            && ('.' in text ==> |text| > 3 && text[|text| - 3] == '.')
  {
    var fraction := ShowsCents(value, compactDecimals);
    var d := Digits(Major(value.minor), fraction, group);
    DigitsRead(value.minor, fraction, group);
    SignedAmountRead(value.minor < 0, value.currency, d);
    if fraction {
      PointPlace(Major(value.minor), group);
    }
  }

  lemma {:induction false} SignedAmountRead(negative: bool, currency: Currency, d: string)
    requires d != "" && d[0] != '-'
    ensures var text := Prefix(negative, false, currency) + d;
            && SignedRead(text) == (if negative then 0 - AmountRead(d) else AmountRead(d))
            && ('.' in text <==> '.' in d)
            && |text| >= |d| && text[|text| - |d|..] == d
  {
    var text := Prefix(negative, false, currency) + d;
    if negative {
      assert text == "-" + d && text[1..] == d;
    } else {
      assert text == d;
    }
  }

  lemma {:induction false} PointPlace(major: real, group: string -> string)
    requires GroupsWithCommas(group) && major >= 0.0
    ensures var d := Digits(major, true, group); |d| > 3 && d[|d| - 3] == '.'
  {
    var hundredths := Rounded(major * 100.0);
    assert Groups(group, Decimal(hundredths / 100));
    TwoDigits(hundredths % 100);
  }
}
