/**
 * What `parseMoney` (lib/money.ts) accepts and what it takes it to mean, said without its
 * reader: which texts spell an amount, and of each the amount it spells.
 */
module TypedAmounts {
  import opened Text
  import opened Ieee754
  import opened Money
  import opened Hundredths
  import opened MoneyText

  // ----- Amounts and how they are typed -----

  type Digit = d: nat | d < 10

  datatype Decimals = NoDecimals | Tenths(tenths: Digit) | Cents(tenths: Digit, cents: Digit)

  datatype Amount = Amount(negative: bool, major: nat, decimals: Decimals)

  function Minor(a: Amount): int {
    var cents := match a.decimals
                 case NoDecimals => 0
                 case Tenths(d) => 10 * d
                 case Cents(d, e) => 10 * d + e;
    if a.negative then -(100 * a.major + cents) else 100 * a.major + cents
  }

  function Point(decimals: Decimals): string {
    match decimals
    case NoDecimals => ""
    case Tenths(d) => ['.', DigitChar(d)]
    case Cents(d, e) => ['.', DigitChar(d), DigitChar(e)]
  }

  function Magnitude(major: nat, decimals: Decimals, zeros: nat): string {
    (Repeat('0', zeros) + Decimal(major)) + Point(decimals)
  }

  /** A minus if negative, any leading zeros, the whole number, a point and one digit or two. */
  function Typed(a: Amount, zeros: nat): string {
    (if a.negative then "-" else "") + Magnitude(a.major, a.decimals, zeros)
  }

  predicate IsSeparator(c: char) {
    c == ',' || IsWhitespace(c)
  }

  /** The text is `core` with commas and white space put in anywhere. */
  predicate Strewn(text: string, core: string) {
    if text == "" then core == ""
    else || (IsSeparator(text[0]) && Strewn(text[1..], core))
         || (core != "" && text[0] == core[0] && Strewn(text[1..], core[1..]))
  }

  /** The codes and symbols that may stand in front, in small letters. */
  const CODES: seq<string> := ["rs", "rs.", "pkr", "usd", "aed", "gbp", "eur", "$", "\U{A3}", "\U{20AC}"]

  /** One of them, each letter small or capital, or nothing. */
  predicate IsCode(code: string) {
    code == "" || exists k :: 0 <= k < |CODES| && |code| == |CODES[k]| && StartsIgnoringCase(code, CODES[k])
  }

  /** White space, a code or none, then the amount with commas and white space strewn in. */
  ghost predicate Says(input: string, a: Amount, zeros: nat) {
    exists blanks, code, rest ::
      && input == blanks + (code + rest)
      && AllWhitespace(blanks) && IsCode(code) && Strewn(rest, Typed(a, zeros))
  }

  // ----- Typed amounts are the numerals -----

  lemma {:induction false} ReadOneMore(w: string, d: Digit)
    requires AllDigits(w)
    ensures AllDigits(w + [DigitChar(d)]) && ReadDecimal(w + [DigitChar(d)]) == 10 * ReadDecimal(w) + d
  {
    var s := w + [DigitChar(d)];
    assert s[..|s| - 1] == w;
  }

  lemma {:induction false} PointDigits(decimals: Decimals)
    ensures var p := Point(decimals);
            && (p != "" ==> p[0] == '.' && AllDigits(p[1..]) && 1 <= |p[1..]| <= 2)
            && (decimals.Tenths? ==> |p| == 2 && ReadDecimal(p[1..]) == decimals.tenths)
            && (decimals.Cents? ==> |p| == 3 && ReadDecimal(p[1..]) == 10 * decimals.tenths + decimals.cents)
            && (decimals.NoDecimals? <==> p == "")
  {
    var p := Point(decimals);
    if !decimals.NoDecimals? {
      ReadOneMore("", decimals.tenths);
      if decimals.Tenths? {
        assert p[1..] == "" + [DigitChar(decimals.tenths)];
      } else {
        ReadOneMore("" + [DigitChar(decimals.tenths)], decimals.cents);
        assert p[1..] == "" + [DigitChar(decimals.tenths)] + [DigitChar(decimals.cents)];
      }
    }
  }

  lemma {:induction false} MagnitudeDenotes(major: nat, decimals: Decimals, zeros: nat)
    ensures var u := Magnitude(major, decimals, zeros);
            && u != "" && IsDigit(u[0]) && IsUnsignedNumeral(u)
            && UnsignedValue(u) == Minor(Amount(false, major, decimals))
  {
    var whole := Repeat('0', zeros) + Decimal(major);
    var u := whole + Point(decimals);
    ReadOfLeadingZeros(zeros, Decimal(major));
    ReadOfDecimal(major);
    PointDigits(decimals);
    PointAfterDigits(whole, Point(decimals));
    assert u[..|whole|] == whole;
    assert Point(decimals) != "" ==> u[|whole| + 1..] == Point(decimals)[1..];
  }

  lemma {:induction false} TypedDenotes(a: Amount, zeros: nat)
    ensures IsNumeral(Typed(a, zeros)) && Denoted(Typed(a, zeros)) == Minor(a)
  {
    var u := Magnitude(a.major, a.decimals, zeros);
    MagnitudeDenotes(a.major, a.decimals, zeros);
    SignedValue(u, UnsignedValue(u), a.negative);
  }

  lemma {:induction false} DigitOfChar(c: char)
    requires IsDigit(c)
    ensures DigitChar(DigitValue(c)) == c
  {
  }

  /** Digits are a whole number behind leading zeros. */
  lemma {:induction false} DigitsAreDecimal(w: string) returns (zeros: nat, n: nat)
    requires AllDigits(w) && w != ""
    ensures w == Repeat('0', zeros) + Decimal(n)
  {
    var c := w[|w| - 1];
    DigitOfChar(c);
    if |w| == 1 {
      zeros, n := 0, DigitValue(c);
      assert w == Repeat('0', 0) + [c];
    } else {
      var before := w[..|w| - 1];
      var z, m := DigitsAreDecimal(before);
      assert w == before + [c];
      zeros, n := if m == 0 then z + 1 else z, 10 * m + DigitValue(c);
      OneMoreDigit(z, m, DigitValue(c));
    }
  }

  lemma {:induction false} OneMoreDigit(zeros: nat, n: nat, d: Digit)
    ensures Repeat('0', zeros) + Decimal(n) + [DigitChar(d)]
         == Repeat('0', if n == 0 then zeros + 1 else zeros) + Decimal(10 * n + d)
  {
    if n > 0 {
      DecimalOneMore(n, d);
    } else {
      assert Decimal(0) == "0" && Decimal(d) == [DigitChar(d)];
      assert Repeat('0', zeros + 1) == Repeat('0', zeros) + "0";
    }
  }

  lemma {:induction false} DecimalOneMore(n: nat, d: Digit)
    requires n > 0
    ensures Decimal(10 * n + d) == Decimal(n) + [DigitChar(d)]
  {
    assert (10 * n + d) / 10 == n && (10 * n + d) % 10 == d;
  }

  lemma {:induction false} DigitsAreDecimals(p: string) returns (decimals: Decimals)
    requires p != "" ==> p[0] == '.' && AllDigits(p[1..]) && 1 <= |p[1..]| <= 2
    ensures Point(decimals) == p
  {
    if p == "" {
      decimals := NoDecimals;
    } else {
      assert IsDigit(p[1..][0]);
      DigitOfChar(p[1]);
      if |p| == 2 {
        decimals := Tenths(DigitValue(p[1]));
      } else {
        assert IsDigit(p[1..][1]);
        DigitOfChar(p[2]);
        decimals := Cents(DigitValue(p[1]), DigitValue(p[2]));
      }
    }
  }

  lemma {:induction false} NumeralIsTyped(s: string) returns (a: Amount, zeros: nat)
    requires IsNumeral(s)
    ensures s == Typed(a, zeros)
  {
    var u := Unsigned(s);
    var k := PointIndex(u);
    var decimals := DigitsAreDecimals(u[k..]);
    var n: nat;
    zeros, n := DigitsAreDecimal(u[..k]);
    a := Amount(s != "" && s[0] == '-', n, decimals);
    assert u == u[..k] + u[k..];
  }

  // ----- Separators -----

  lemma {:induction false} StrewnReads(text: string, core: string)
    requires Strewn(text, core) && forall i :: 0 <= i < |core| ==> !IsSeparator(core[i])
    ensures WithoutSeparators(text) == core
    decreases text
  {
    if text != "" {
      if IsSeparator(text[0]) {
        StrewnReads(text[1..], core);
      } else {
        StrewnReads(text[1..], core[1..]);
      }
    }
  }

  lemma {:induction false} StrewnOfItself(text: string)
    ensures Strewn(text, WithoutSeparators(text))
  {
    if text != "" {
      StrewnOfItself(text[1..]);
      assert !IsSeparator(text[0]) ==> WithoutSeparators(text)[1..] == WithoutSeparators(text[1..]);
    }
  }

  predicate InAmount(c: char) {
    c == '-' || c == '.' || IsDigit(c)
  }

  /** What may stand behind a code, or alone, without being taken for part of one. */
  predicate Harmless(rest: string) {
    && (forall i :: 0 <= i < |rest| ==> IsSeparator(rest[i]) || InAmount(rest[i]))
    && (rest != "" ==> rest[0] != '.')
  }

  lemma {:induction false} StrewnHarmless(text: string, core: string)
    requires Strewn(text, core) && forall i :: 0 <= i < |core| ==> InAmount(core[i])
    ensures forall i :: 0 <= i < |text| ==> IsSeparator(text[i]) || InAmount(text[i])
    ensures core != "" && core[0] != '.' ==> Harmless(text)
    decreases text
  {
    if text != "" {
      if IsSeparator(text[0]) && Strewn(text[1..], core) {
        StrewnHarmless(text[1..], core);
      } else {
        StrewnHarmless(text[1..], core[1..]);
      }
      assert text == [text[0]] + text[1..];
    }
  }

  lemma {:induction false} PointInAmount(decimals: Decimals)
    ensures forall i :: 0 <= i < |Point(decimals)| ==> InAmount(Point(decimals)[i])
  {
    PointDigits(decimals);
    var p := Point(decimals);
    assert p != "" ==> p == [p[0]] + p[1..];
  }

  lemma {:induction false} MagnitudeInAmount(major: nat, decimals: Decimals, zeros: nat)
    ensures var u := Magnitude(major, decimals, zeros);
            u != "" && IsDigit(u[0]) && forall i :: 0 <= i < |u| ==> InAmount(u[i])
  {
    MagnitudeDenotes(major, decimals, zeros);
    PointInAmount(decimals);
  }

  lemma {:induction false} TypedInAmount(a: Amount, zeros: nat)
    ensures var core := Typed(a, zeros);
            && core != "" && core[0] != '.'
            && forall i :: 0 <= i < |core| ==> InAmount(core[i]) && !IsSeparator(core[i])
  {
    MagnitudeInAmount(a.major, a.decimals, zeros);
  }

  lemma {:induction false} BlanksVanish(blanks: string)
    requires AllWhitespace(blanks)
    ensures WithoutSeparators(blanks) == ""
  {
    if blanks != "" {
      BlanksVanish(blanks[1..]);
    }
  }

  lemma {:induction false} TrimmedFrontSame(s: string)
    ensures WithoutSeparators(TrimStart(s)) == WithoutSeparators(s)
  {
    var t := TrimStart(s);
    var blanks := s[..|s| - |t|];
    assert s == blanks + t;
    BlanksVanish(blanks);
    WithoutSeparatorsAppend(blanks, t);
  }

  lemma {:induction false} TrimmedEndSame(s: string)
    ensures WithoutSeparators(TrimEnd(s)) == WithoutSeparators(s)
  {
    var t := TrimEnd(s);
    var blanks := s[|t|..];
    assert s == t + blanks;
    BlanksVanish(blanks);
    WithoutSeparatorsAppend(t, blanks);
  }

  // ----- Codes -----

  lemma {:induction false} CodeGoesOn(code: string, rest: string, lower: string)
    requires |code| >= |lower| && StartsIgnoringCase(code, lower)
    ensures StartsIgnoringCase(code + rest, lower)
  {
  }

  lemma {:induction false} CodeMeasured(code: string, rest: string)
    requires IsCode(code) && Harmless(rest)
    ensures SymbolLength(code + rest) == |code|
    ensures code != "" ==> !IsWhitespace(code[0]) && !IsWhitespace(code[|code| - 1])
  {
    var s := code + rest;
    if code == "" {
      assert s == rest;
      if rest != "" {
        PlainChar(rest[0]);
        NoCode(rest);
      }
    } else {
      var k :| 0 <= k < |CODES| && |code| == |CODES[k]| && StartsIgnoringCase(code, CODES[k]);
      CodeGoesOn(code, rest, CODES[k]);
      assert LowerChar(s[0]) == CODES[k][0];
      CodeMeasuredAs(code, rest, k);
    }
  }

  lemma {:induction false} CodeMeasuredAs(code: string, rest: string, k: nat)
    requires k < |CODES| && |code| == |CODES[k]| && Harmless(rest)
    requires StartsIgnoringCase(code, CODES[k]) && StartsIgnoringCase(code + rest, CODES[k])
    ensures SymbolLength(code + rest) == |code|
    ensures !IsWhitespace(code[0]) && !IsWhitespace(code[|code| - 1])
  {
    var s := code + rest;
    assert LowerChar(code[0]) == CODES[k][0] && LowerChar(code[|code| - 1]) == CODES[k][|code| - 1];
    if k < 2 {
      assert StartsIgnoringCase(s, "rs");
      assert k == 1 ==> LowerChar(code[2]) == '.';
      assert rest != "" ==> s[|code|] == rest[0];
    } else if k < 7 {
      FirstDiffers(s, "rs");
    } else {
      NoCode(s);
    }
  }

  /** Of a text with a code in front, only what is behind it is read. */
  lemma {:induction false} CleanIs(blanks: string, code: string, rest: string)
    requires AllWhitespace(blanks) && IsCode(code) && Harmless(rest)
    ensures Clean(blanks + (code + rest)) == WithoutSeparators(rest)
  {
    if code == "" {
      CleanAlone(blanks, rest);
    } else {
      CodeMeasured(code, rest);
      TrimAround(blanks, code, rest);
      CodeStripped(code, TrimEnd(rest));
      TrimmedEndSame(rest);
    }
  }

  lemma {:induction false} CodeStripped(code: string, e: string)
    requires code != "" && IsCode(code) && Harmless(e)
    ensures WithoutSeparators(StripSymbol(code + e)) == WithoutSeparators(e)
  {
    CodeMeasured(code, e);
    assert (code + e)[|code|..] == e;
    TrimmedFrontSame(e);
  }

  lemma {:induction false} TrimAround(blanks: string, code: string, rest: string)
    requires AllWhitespace(blanks) && code != "" && !IsWhitespace(code[0]) && !IsWhitespace(code[|code| - 1])
    ensures Trim(blanks + (code + rest)) == code + TrimEnd(rest)
  {
    TrimStartPadded(blanks, code + rest);
    TrimEndBehind(code, rest);
  }

  lemma {:induction false} TrimmedSame(s: string)
    ensures WithoutSeparators(Trim(s)) == WithoutSeparators(s)
  {
    TrimmedFrontSame(s);
    TrimmedEndSame(TrimStart(s));
  }

  lemma {:induction false} TrimKeeps(s: string)
    requires forall i :: 0 <= i < |s| ==> IsSeparator(s[i]) || InAmount(s[i])
    ensures Trim(s) != "" ==> IsSeparator(Trim(s)[0]) || InAmount(Trim(s)[0])
  {
    var t := TrimStart(s);
    if Trim(s) != "" {
      assert Trim(s)[0] == t[0] && t[0] == s[|s| - |t|];
    }
  }

  lemma {:induction false} PlainChar(c: char)
    requires IsSeparator(c) || InAmount(c)
    ensures LowerChar(c) !in ['r', 'p', 'u', 'a', 'g', 'e'] && c !in ['$', '\U{A3}', '\U{20AC}']
  {
  }

  lemma {:induction false} NoSymbol(t: string)
    requires t != "" ==> IsSeparator(t[0]) || InAmount(t[0])
    ensures StripSymbol(t) == t
  {
    if t != "" {
      PlainChar(t[0]);
      NoCode(t);
    }
  }

  lemma {:induction false} CleanAlone(blanks: string, rest: string)
    requires AllWhitespace(blanks) && Harmless(rest)
    ensures Clean(blanks + ("" + rest)) == WithoutSeparators(rest)
  {
    var s := blanks + rest;
    assert blanks + ("" + rest) == s;
    TrimKeeps(s);
    NoSymbol(Trim(s));
    TrimmedSame(s);
    BlanksVanish(blanks);
    WithoutSeparatorsAppend(blanks, rest);
  }

  // ----- What a text says is what is read -----

  lemma {:induction false} SaysDenotes(input: string, a: Amount, zeros: nat)
    requires Says(input, a, zeros)
    ensures IsNumeral(Clean(input)) && Denoted(Clean(input)) == Minor(a)
  {
    var blanks, code, rest :|
      && input == blanks + (code + rest)
      && AllWhitespace(blanks) && IsCode(code) && Strewn(rest, Typed(a, zeros));
    TypedInAmount(a, zeros);
    StrewnHarmless(rest, Typed(a, zeros));
    CleanIs(blanks, code, rest);
    StrewnReads(rest, Typed(a, zeros));
    TypedDenotes(a, zeros);
  }

  lemma {:induction false} TrimSplits(input: string) returns (blanks: string, after: string)
    ensures AllWhitespace(blanks) && AllWhitespace(after) && input == blanks + (Trim(input) + after)
  {
    var t := TrimStart(input);
    blanks := input[..|input| - |t|];
    after := TrimEndSplits(t);
  }

  lemma {:induction false} TrimEndSplits(t: string) returns (after: string)
    ensures AllWhitespace(after) && t == TrimEnd(t) + after
  {
    after := t[|TrimEnd(t)|..];
  }

  lemma {:induction false} FrontIsCode(t: string)
    ensures IsCode(t[..SymbolLength(t)])
  {
    var n := SymbolLength(t);
    var code := t[..n];
    if n != 0 {
      var k := if StartsIgnoringCase(t, "rs") then n - 2
               else if StartsIgnoringCase(t, "pkr") then 2 else if StartsIgnoringCase(t, "usd") then 3
               else if StartsIgnoringCase(t, "aed") then 4 else if StartsIgnoringCase(t, "gbp") then 5
               else if StartsIgnoringCase(t, "eur") then 6
               else if t[0] == '$' then 7 else if t[0] == '\U{A3}' then 8 else 9;
      assert |code| == |CODES[k]|;
      assert StartsIgnoringCase(code, CODES[k]);
    }
  }

  lemma {:induction false} StripsFront(t: string, after: string)
    requires AllWhitespace(after)
    ensures WithoutSeparators(StripSymbol(t)) == WithoutSeparators(t[SymbolLength(t)..] + after)
  {
    var rest := t[SymbolLength(t)..];
    assert SymbolLength(t) == 0 ==> rest == t;
    TrimmedFrontSame(rest);
    BlanksVanish(after);
    WithoutSeparatorsAppend(rest, after);
  }

  lemma {:induction false} DenotesSays(input: string) returns (a: Amount, zeros: nat)
    requires IsNumeral(Clean(input))
    ensures Says(input, a, zeros)
  {
    var t := Trim(input);
    var blanks, after := TrimSplits(input);
    FrontIsCode(t);
    StripsFront(t, after);
    a, zeros := NumeralIsTyped(Clean(input));
    SaysSplit(input, blanks, t, after, SymbolLength(t), a, zeros);
  }

  lemma {:induction false} SaysSplit(input: string, blanks: string, t: string, after: string, n: nat, a: Amount,
                                     zeros: nat)
    requires input == blanks + (t + after) && n <= |t| && AllWhitespace(blanks) && IsCode(t[..n])
    requires WithoutSeparators(t[n..] + after) == Typed(a, zeros)
    ensures Says(input, a, zeros)
  {
    var code, rest := t[..n], t[n..] + after;
    assert code + rest == t + after;
    StrewnOfItself(rest);
    assert input == blanks + (code + rest);
  }

  /**
   * Null is the answer exactly for texts that say no amount, or one beyond the largest double.
   * An amount is read as exactly itself just when its remainder allows it.
   */
  lemma {:induction false} ParseExactly(input: string, currency: Currency)
    ensures (forall a, zeros :: !Says(input, a, zeros)) ==> ParseMoney(input, currency) == Null
    ensures forall a, zeros :: Says(input, a, zeros) ==>
              && (ParseMoney(input, currency) == Null <==> Overflows(Minor(a) as real / 100.0))
              && (ParseMoney(input, currency) == Parsed(Money(Minor(a), currency)) <==> ReadsRight(Abs(Minor(a))))
  {
    if ParseMoney(input, currency) != Null {
      var a, zeros := DenotesSays(input);
    }
    forall a, zeros | Says(input, a, zeros)
      ensures ParseMoney(input, currency) == Null <==> Overflows(Minor(a) as real / 100.0)
      ensures ParseMoney(input, currency) == Parsed(Money(Minor(a), currency)) <==> ReadsRight(Abs(Minor(a)))
    {
      SaysDenotes(input, a, zeros);
      NullExactly(Minor(a), currency);
      NumeralExactly(input, currency);
    }
  }

  lemma {:induction false} NullExactly(m: int, currency: Currency)
    ensures ReadAmount(m, currency) == Null <==> Overflows(m as real / 100.0)
  {
  }

  /**
   * A safe amount is read as itself or a neighbour, which one its remainder says; it is refused
   * only when that neighbour is not a safe integer.
   */
  lemma {:induction false} ParseValue(input: string, a: Amount, zeros: nat, currency: Currency)
    requires Says(input, a, zeros) && IsSafe(Minor(a))
    ensures var n := ReadsAs(Abs(Minor(a)));
            && -1 <= n - Abs(Minor(a)) <= 1
            && var signed := if Minor(a) < 0 then 0 - n else n;
               ParseMoney(input, currency) ==
               if n <= MAX_SAFE then Parsed(Money(signed, currency)) else Throws(NotSafeInteger)
  {
    SaysDenotes(input, a, zeros);
    NumeralValue(input, currency);
  }

  /** Every amount up to the bound is read exactly, however it is typed, and not the next one. */
  lemma {:induction false} ParseExact(input: string, a: Amount, zeros: nat, currency: Currency)
    requires Says(input, a, zeros)
    ensures Abs(Minor(a)) <= 3518437208883201 ==> ParseMoney(input, currency) == Parsed(Money(Minor(a), currency))
    ensures Abs(Minor(a)) == 3518437208883202 ==> ParseMoney(input, currency) != Parsed(Money(Minor(a), currency))
  {
    SaysDenotes(input, a, zeros);
    NumeralExact(input, currency);
  }

  /** Two ways of saying one amount are read alike, right or wrong: codes, separators, leading
      zeros and a zero behind the tenths make no difference. */
  lemma {:induction false} SaidAlike(input: string, a: Amount, zeros: nat, other: string, b: Amount, zeros': nat,
                                     currency: Currency)
    requires Says(input, a, zeros) && Says(other, b, zeros') && Minor(a) == Minor(b)
    ensures ParseMoney(input, currency) == ParseMoney(other, currency)
  {
    SaysDenotes(input, a, zeros);
    SaysDenotes(other, b, zeros');
  }
}
