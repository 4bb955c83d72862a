/**
 * Order numbers: `formatOrderNumber` and `orderNumberPrefix` of lib/ids.ts, and the
 * repository code that reads the last number back to find the next sequence.
 */
module OrderNumbers {
  import opened Text

  // ----- Writing -----

  /** `slice(-2)`. */
  function LastTwo(s: string): string {
    if |s| <= 2 then s else s[|s| - 2..]
  }

  function FormatOrderNumber(prefix: string, year: nat, month: nat, sequence: nat): string {
    Upper(prefix) + "-" + (LastTwo(Decimal(year)) + PadStart(Decimal(month), 2, '0')) + "-"
    + PadStart(Decimal(sequence), 4, '0')
  }

  /** The characters that have another case. */
  predicate IsLetter(c: char): (r: bool)
    ensures r <==> LowerChar(c) != c || UpperChar(c) != c
  {
    'A' <= c <= 'Z' || 'a' <= c <= 'z'
  }

  function LettersOf(word: string): (r: string)
    ensures forall i :: 0 <= i < |r| ==> IsLetter(r[i])
  {
    if word == "" then ""
    else (if IsLetter(word[0]) then [word[0]] else "") + LettersOf(word[1..])
  }

  /** The name cut at white space.  Neighbouring blanks leave empty parts, which the caller
      drops, so cutting at each blank or at each run of blanks is the same. */
  function SplitAtBlanks(s: string): (parts: seq<string>)
    ensures parts != []
  {
    if s == "" then [""]
    else
      var rest := SplitAtBlanks(s[1..]);
      if IsWhitespace(s[0]) then [""] + rest else [[s[0]] + rest[0]] + rest[1..]
  }

  predicate IsWord(w: string) {
    w != "" && forall i :: 0 <= i < |w| ==> IsLetter(w[i])
  }

  /** The parts reduced to their letters, those without any dropped. */
  function WordsOf(parts: seq<string>): (words: seq<string>)
    ensures forall i :: 0 <= i < |words| ==> IsWord(words[i])
  {
    if parts == [] then []
    else (if LettersOf(parts[0]) == "" then [] else [LettersOf(parts[0])]) + WordsOf(parts[1..])
  }

  function Initials(words: seq<string>): (r: string)
    requires forall i :: 0 <= i < |words| ==> IsWord(words[i])
    ensures |r| == |words| && forall i :: 0 <= i < |r| ==> 'A' <= r[i] <= 'Z'
  {
    seq(|words|, i requires 0 <= i < |words| => Initial(words[i]))
  }

  function Initial(word: string): (c: char)
    requires IsWord(word)
    ensures 'A' <= c <= 'Z'
  {
    UpperChar(word[0])
  }

  function First<T>(s: seq<T>, n: nat): (r: seq<T>)
    ensures r <= s && |r| == if |s| < n then |s| else n
  {
    if |s| < n then s else s[..n]
  }

  /** One to three capital letters, whatever the name. */
  function OrderNumberPrefix(businessName: string): (prefix: string)
    ensures IsPrefix(prefix)
  {
    var words := WordsOf(SplitAtBlanks(businessName));
    if |words| >= 2 then Initials(First(words, 3))
    else if |words| == 1 then Upper(First(words[0], 3))
    else "ORD"
  }

  predicate IsPrefix(prefix: string) {
    1 <= |prefix| <= 3 && forall i :: 0 <= i < |prefix| ==> 'A' <= prefix[i] <= 'Z'
  }

  // ----- The prefix without cutting the name -----

  /** The letters before which, back to the last blank or the start, there is no letter. */
  function FirstLetters(name: string, behindLetter: bool): string {
    if name == "" then ""
    else if IsWhitespace(name[0]) then FirstLetters(name[1..], false)
    else if IsLetter(name[0]) && !behindLetter then [name[0]] + FirstLetters(name[1..], true)
    else FirstLetters(name[1..], behindLetter)
  }

  function Heads(words: seq<string>): string
    requires forall i :: 0 <= i < |words| ==> IsWord(words[i])
  {
    if words == [] then ""
    else
      assert IsWord(words[0]);
      [words[0][0]] + Heads(words[1..])
  }

  lemma {:induction false} WordsOfFirst(part: string, rest: seq<string>)
    ensures WordsOf([part] + rest) == (if LettersOf(part) == "" then [] else [LettersOf(part)]) + WordsOf(rest)
  {
    assert ([part] + rest)[1..] == rest;
  }

  lemma {:induction false} HeadsOfFirst(word: string, words: seq<string>)
    requires IsWord(word) && forall i :: 0 <= i < |words| ==> IsWord(words[i])
    ensures Heads([word] + words) == [word[0]] + Heads(words)
  {
    assert ([word] + words)[1..] == words;
  }

  /** Behind a letter the rest of the first part is passed over. */
  lemma {:induction false} HeadsOfParts(name: string)
    ensures var parts := SplitAtBlanks(name);
            && FirstLetters(name, false) == Heads(WordsOf(parts))
            && FirstLetters(name, true) == Heads(WordsOf(parts[1..]))
  {
    var parts := SplitAtBlanks(name);
    if name == "" {
      WordsOfFirst("", []);
      assert parts == [""] + [] && parts[1..] == [];
    } else {
      var c, rest := name[0], SplitAtBlanks(name[1..]);
      HeadsOfParts(name[1..]);
      if IsWhitespace(c) {
        WordsOfFirst("", rest);
        assert parts[1..] == rest && [] + WordsOf(rest) == WordsOf(rest);
      } else {
        assert parts[1..] == rest[1..] && rest == [rest[0]] + rest[1..];
        HeadOfLonger(c, rest[0], rest[1..]);
      }
    }
  }

  lemma {:induction false} HeadOfLonger(c: char, part: string, rest: seq<string>)
    ensures Heads(WordsOf([[c] + part] + rest))
         == if IsLetter(c) then [c] + Heads(WordsOf(rest)) else Heads(WordsOf([part] + rest))
  {
    assert ([c] + part)[1..] == part;
    WordsOfFirst([c] + part, rest);
    WordsOfFirst(part, rest);
    if IsLetter(c) {
      HeadsOfFirst([c] + LettersOf(part), WordsOf(rest));
    } else {
      assert "" + LettersOf(part) == LettersOf(part);
    }
  }

  function Flat(words: seq<string>): string {
    if words == [] then "" else words[0] + Flat(words[1..])
  }

  lemma {:induction false} FlatOfParts(parts: seq<string>)
    ensures Flat(WordsOf(parts)) == LettersOf(Flat(parts))
  {
    if parts != [] {
      FlatOfParts(parts[1..]);
      LettersAppend(parts[0], Flat(parts[1..]));
      if LettersOf(parts[0]) != "" {
        assert WordsOf(parts)[1..] == WordsOf(parts[1..]);
      } else {
        assert [] + WordsOf(parts[1..]) == WordsOf(parts[1..]);
        assert "" + LettersOf(Flat(parts[1..])) == LettersOf(Flat(parts[1..]));
      }
    }
  }

  lemma {:induction false} LettersAppend(s: string, t: string)
    ensures LettersOf(s + t) == LettersOf(s) + LettersOf(t)
  {
    if s == "" {
      assert s + t == t && "" + LettersOf(t) == LettersOf(t);
    } else {
      assert (s + t)[1..] == s[1..] + t;
      LettersAppend(s[1..], t);
    }
  }

  lemma {:induction false} FlatSplit(name: string)
    ensures LettersOf(Flat(SplitAtBlanks(name))) == LettersOf(name)
  {
    if name != "" {
      var c, rest := name[0], SplitAtBlanks(name[1..]);
      FlatSplit(name[1..]);
      if IsWhitespace(c) {
        assert ([""] + rest)[1..] == rest;
        assert "" + Flat(rest) == Flat(rest) && "" + LettersOf(name[1..]) == LettersOf(name[1..]);
      } else {
        assert ([[c] + rest[0]] + rest[1..])[1..] == rest[1..];
        assert ([c] + rest[0]) + Flat(rest[1..]) == [c] + Flat(rest);
        assert ([c] + Flat(rest))[1..] == Flat(rest);
      }
    }
  }

  lemma {:induction false} InitialsAreHeads(words: seq<string>)
    requires forall i :: 0 <= i < |words| ==> IsWord(words[i])
    ensures Initials(words) == Upper(Heads(words)) && |Heads(words)| == |words|
  {
    if words != [] {
      InitialsAreHeads(words[1..]);
      assert Initials(words) == [Initial(words[0])] + Initials(words[1..]);
    }
  }

  lemma {:induction false} HeadsCut(words: seq<string>, n: nat)
    requires forall i :: 0 <= i < |words| ==> IsWord(words[i])
    ensures Heads(First(words, n)) == First(Heads(words), n)
  {
    if words != [] && n > 0 {
      HeadsCut(words[1..], n - 1);
      assert First(words, n) == [words[0]] + First(words[1..], n - 1);
      HeadsOfFirst(words[0], First(words[1..], n - 1));
    }
  }

  /**
   * The prefix is the capitals of the first letters of the first three words, or of the first
   * three letters when there is one word, or ORD; characters that are no letters do not matter.
   */
  lemma {:induction false} PrefixSays(name: string)
    ensures var firsts := FirstLetters(name, false);
            OrderNumberPrefix(name) == if |firsts| >= 2 then Upper(First(firsts, 3))
                                       else if |firsts| == 1 then Upper(First(LettersOf(name), 3))
                                       else "ORD"
  {
    var words := WordsOf(SplitAtBlanks(name));
    HeadsOfParts(name);
    InitialsAreHeads(words);
    InitialsAreHeads(First(words, 3));
    HeadsCut(words, 3);
    if |words| == 1 {
      FlatOfParts(SplitAtBlanks(name));
      FlatSplit(name);
      assert words[1..] == [] && words[0] + "" == words[0];
    }
  }

  // ----- Reading -----

  datatype OrderNumber = OrderNumber(prefix: string, yearInCentury: nat, month: nat, sequence: nat)

  function ReadOrderNumber(text: string): Option<OrderNumber> {
    var parts := Split(text, '-');
    if |parts| == 3 && |parts[1]| == 4 && AllDigits(parts[1]) && AllDigits(parts[2]) then
      Some(OrderNumber(parts[0], ReadDecimal(parts[1][..2]), ReadDecimal(parts[1][2..]), ReadDecimal(parts[2])))
    else None
  }

  function LeadingDigits(s: string): (d: string)
    ensures AllDigits(d)
  {
    if s != "" && IsDigit(s[0]) then [s[0]] + LeadingDigits(s[1..]) else ""
  }

  /** `Number.parseInt(s, 10)`; `None` is NaN. */
  function ParseInt(s: string): (n: Option<int>)
    ensures '-' !in s && n.Some? ==> n.value >= 0
  {
    var t := TrimStart(s);
    var negative := t != "" && t[0] == '-';
    assert negative ==> s[|s| - |t|] == '-';
    var digits := LeadingDigits(if t != "" && (t[0] == '-' || t[0] == '+') then t[1..] else t);
    if digits == "" then None
    else Some(if negative then 0 - ReadDecimal(digits) else ReadDecimal(digits))
  }

  /** One more than the last order's sequence; 1 when there is none or it does not read. */
  function NextSequence(last: Option<string>): nat {
    match last
    case None => 1
    case Some(text) =>
      var parts := Split(text, '-');
      if |parts| != 3 then 1
      else match ParseInt(parts[2])
           case None => 1
           case Some(n) => n + 1
  }

  /** `generateOrderNumber`, given the month's last order number. */
  function NumberAfter(last: Option<string>, businessName: string, year: nat, month: nat): string {
    FormatOrderNumber(OrderNumberPrefix(businessName), year, month, NextSequence(last))
  }

  // ----- Reading what was written -----

  lemma {:induction false} DecimalLength(n: nat)
    ensures n < 10 <==> |Decimal(n)| == 1
    ensures n < 100 <==> |Decimal(n)| <= 2
    ensures n < 1000 <==> |Decimal(n)| <= 3
    ensures n < 10000 <==> |Decimal(n)| <= 4
  {
    if n >= 10 {
      DecimalLength(n / 10);
    }
  }

  /** A number by its last two digits. */
  lemma {:induction false} DigitsOf(n: nat) returns (h: nat, tens: nat, ones: nat)
    ensures n == 100 * h + 10 * tens + ones && tens < 10 && ones < 10
    ensures n % 100 == 10 * tens + ones && n % 10 == ones
    ensures n / 10 == 10 * h + tens && (10 * h + tens) % 10 == tens && (10 * h + tens) / 10 == h
  {
    var q := n / 10;
    h, tens, ones := q / 10, q % 10, n % 10;
    Hundreds(n, h, 10 * tens + ones);
  }

  lemma {:induction false} Hundreds(n: nat, h: nat, rest: nat)
    requires n == 100 * h + rest && rest < 100
    ensures n % 100 == rest
  {
  }

  lemma {:induction false} DecimalStep(q: nat, d: nat)
    requires q >= 1 && d < 10
    ensures Decimal(10 * q + d) == Decimal(q) + [DigitChar(d)]
  {
    assert (10 * q + d) / 10 == q && (10 * q + d) % 10 == d;
  }

  /** The last two digits of a number with two digits or more. */
  lemma {:induction false} LastTwoDigits(n: nat)
    requires n >= 10
    ensures LastTwo(Decimal(n)) == TwoDigits(n % 100)
    ensures AllDigits(LastTwo(Decimal(n))) && ReadDecimal(LastTwo(Decimal(n))) == n % 100
  {
    var h, tens, ones := DigitsOf(n);
    var s := DecimalEnds(h, tens, ones);
    LastTwoOf(s, DigitChar(tens), DigitChar(ones));
    TwoDigitsOf(tens, ones);
    ReadTwo(DigitChar(tens), DigitChar(ones));
  }

  lemma {:induction false} DecimalEnds(h: nat, tens: nat, ones: nat) returns (s: string)
    requires h + tens > 0 && tens < 10 && ones < 10
    ensures Decimal(100 * h + 10 * tens + ones) == s + [DigitChar(tens), DigitChar(ones)]
  {
    DecimalStep(10 * h + tens, ones);
    if h == 0 {
      s := "";
    } else {
      s := Decimal(h);
      DecimalStep(h, tens);
    }
  }

  function TwoDigits(n: nat): string
    requires n < 100
  {
    [DigitChar(n / 10), DigitChar(n % 10)]
  }

  lemma {:induction false} TwoDigitsOf(tens: nat, ones: nat)
    requires tens < 10 && ones < 10
    ensures TwoDigits(10 * tens + ones) == [DigitChar(tens), DigitChar(ones)]
  {
  }

  lemma {:induction false} LastTwoOf(s: string, a: char, b: char)
    ensures LastTwo(s + [a, b]) == [a, b]
  {
  }

  lemma {:induction false} ReadTwo(a: char, b: char)
    requires IsDigit(a) && IsDigit(b)
    ensures ReadDecimal([a, b]) == 10 * DigitValue(a) + DigitValue(b)
  {
    assert [a, b][..1] == [a] && [a][..0] == [];
    assert ReadDecimal([a]) == DigitValue(a);
  }

  lemma {:induction false} DigitsHaveNoHyphen(s: string)
    requires AllDigits(s)
    ensures '-' !in s
  {
  }

  /** The three parts of a written number. */
  lemma {:induction false} PartsOf(prefix: string, year: nat, month: nat, sequence: nat)
    requires '-' !in prefix && year >= 10 && 1 <= month <= 12
    ensures var yymm := LastTwo(Decimal(year)) + PadStart(Decimal(month), 2, '0');
            var seq4 := PadStart(Decimal(sequence), 4, '0');
            && Split(FormatOrderNumber(prefix, year, month, sequence), '-') == [Upper(prefix), yymm, seq4]
            && |yymm| == 4 && AllDigits(yymm) && AllDigits(seq4)
            && ReadDecimal(yymm[..2]) == year % 100 && ReadDecimal(yymm[2..]) == month
            && ReadDecimal(seq4) == sequence
  {
    var yy, mm := LastTwo(Decimal(year)), PadStart(Decimal(month), 2, '0');
    var seq4 := PadStart(Decimal(sequence), 4, '0');
    LastTwoDigits(year);
    DecimalLength(month);
    ReadOfPadded(month, 2);
    ReadOfPadded(sequence, 4);
    assert (yy + mm)[..2] == yy && (yy + mm)[2..] == mm;
    DigitsHaveNoHyphen(yy + mm);
    DigitsHaveNoHyphen(seq4);
    var parts := [Upper(prefix), yy + mm, seq4];
    UpperKeepsHyphens(prefix);
    SplitJoin(parts, '-');
    JoinThree(Upper(prefix), yy + mm, seq4);
  }

  lemma {:induction false} UpperKeepsHyphens(s: string)
    requires '-' !in s
    ensures '-' !in Upper(s)
  {
    forall i | 0 <= i < |s|
      ensures Upper(s)[i] != '-'
    {
      assert s[i] in s;
    }
  }

  lemma {:induction false} JoinThree(a: string, b: string, c: string)
    ensures Join([a, b, c], '-') == a + "-" + b + "-" + c
  {
    assert [a, b, c][1..] == [b, c] && [b, c][1..] == [c];
    assert Join([b, c], '-') == b + ['-'] + Join([c], '-');
  }

  /** A written number reads back whole, also when the sequence outgrows its padding. */
  lemma {:induction false} OrderNumberReads(prefix: string, year: nat, month: nat, sequence: nat)
    requires '-' !in prefix && year >= 10 && 1 <= month <= 12
    ensures ReadOrderNumber(FormatOrderNumber(prefix, year, month, sequence))
         == Some(OrderNumber(Upper(prefix), year % 100, month, sequence))
  {
    PartsOf(prefix, year, month, sequence);
  }

  /** The layout: four digits of year and month, then at least four of sequence. */
  lemma {:induction false} OrderNumberLaidOut(prefix: string, year: nat, month: nat, sequence: nat)
    requires year >= 10 && 1 <= month <= 12
    ensures var text, n := FormatOrderNumber(prefix, year, month, sequence), |prefix|;
            && text[..n] == Upper(prefix) && |text| >= n + 10 && (sequence < 10000 ==> |text| == n + 10)
            && text[n] == '-' && AllDigits(text[n + 1..n + 5]) && text[n + 5] == '-' && AllDigits(text[n + 6..])
  {
    var yymm, seq4 := LastTwo(Decimal(year)) + PadStart(Decimal(month), 2, '0'), PadStart(Decimal(sequence), 4, '0');
    LastTwoDigits(year);
    DecimalLength(month);
    DecimalLength(sequence);
    ReadOfPadded(month, 2);
    ReadOfPadded(sequence, 4);
    LaidOut(Upper(prefix), yymm, seq4);
  }

  lemma {:induction false} LaidOut(prefix: string, yymm: string, seq4: string)
    requires |yymm| == 4
    ensures var text, n := prefix + "-" + yymm + "-" + seq4, |prefix|;
            && |text| == n + 6 + |seq4| && text[..n] == prefix && text[n] == '-' && text[n + 5] == '-'
            && text[n + 1..n + 5] == yymm && text[n + 6..] == seq4
  {
  }

  /** Two numbers are the same text exactly when prefix, year in the century, month and
      sequence agree. */
  lemma {:induction false} OrderNumbersUnique(p: string, y: nat, m: nat, s: nat, p': string, y': nat, m': nat, s': nat)
    requires '-' !in p && y >= 10 && 1 <= m <= 12
    requires '-' !in p' && y' >= 10 && 1 <= m' <= 12
    ensures FormatOrderNumber(p, y, m, s) == FormatOrderNumber(p', y', m', s')
            <==> Upper(p) == Upper(p') && y % 100 == y' % 100 && m == m' && s == s'
  {
    OrderNumberReads(p, y, m, s);
    OrderNumberReads(p', y', m', s');
    if y % 100 == y' % 100 {
      LastTwoDigits(y);
      LastTwoDigits(y');
    }
  }

  /** With the prefixes the program uses, in one century, equal texts mean equal orders. */
  lemma {:induction false} OrderNumbersOfNames(name: string, y: nat, m: nat, s: nat, name': string, y': nat, m': nat,
                                               s': nat)
    requires 1000 <= y <= 9999 && 1000 <= y' <= 9999 && y / 100 == y' / 100
    requires 1 <= m <= 12 && 1 <= m' <= 12
    requires FormatOrderNumber(OrderNumberPrefix(name), y, m, s)
          == FormatOrderNumber(OrderNumberPrefix(name'), y', m', s')
    ensures OrderNumberPrefix(name) == OrderNumberPrefix(name') && y == y' && m == m' && s == s'
  {
    UpperOfPrefix(OrderNumberPrefix(name));
    UpperOfPrefix(OrderNumberPrefix(name'));
    OrderNumbersUnique(OrderNumberPrefix(name), y, m, s, OrderNumberPrefix(name'), y', m', s');
  }

  lemma {:induction false} UpperOfPrefix(prefix: string)
    requires IsPrefix(prefix)
    ensures Upper(prefix) == prefix && '-' !in prefix
  {
  }

  // ----- The next number -----

  lemma {:induction false} LeadingDigitsOfDigits(s: string)
    requires AllDigits(s)
    ensures LeadingDigits(s) == s
  {
    if s != "" {
      LeadingDigitsOfDigits(s[1..]);
    }
  }

  lemma {:induction false} LeadingDigitsAre(digits: string, rest: string)
    requires AllDigits(digits) && (rest != "" ==> !IsDigit(rest[0]))
    ensures LeadingDigits(digits + rest) == digits
  {
    if digits == "" {
      assert digits + rest == rest;
    } else {
      assert (digits + rest)[1..] == digits[1..] + rest;
      LeadingDigitsAre(digits[1..], rest);
    }
  }

  /** White space, a plus or none, digits, and then anything that goes on with no digit. */
  lemma {:induction false} IntParsed(blanks: string, plus: bool, digits: string, rest: string)
    requires AllWhitespace(blanks) && AllDigits(digits) && (rest != "" ==> !IsDigit(rest[0]))
    requires digits == "" && !plus && rest != "" ==> !IsWhitespace(rest[0]) && rest[0] != '-' && rest[0] != '+'
    ensures ParseInt(blanks + ((if plus then "+" else "") + (digits + rest)))
         == if digits == "" then None else Some(ReadDecimal(digits))
  {
    var body := digits + rest;
    LeadingDigitsAre(digits, rest);
    if plus {
      PlusParsed(blanks, body);
    } else {
      assert "" + body == body;
      PlainParsed(blanks, body);
    }
  }

  lemma {:induction false} PlusParsed(blanks: string, body: string)
    requires AllWhitespace(blanks)
    ensures ParseInt(blanks + ("+" + body))
         == if LeadingDigits(body) == "" then None else Some(ReadDecimal(LeadingDigits(body)))
  {
    TrimStartPadded(blanks, "+" + body);
    ParsedBehindPlus(blanks + ("+" + body), body);
  }

  lemma {:induction false} ParsedBehindPlus(s: string, body: string)
    requires TrimStart(s) == "+" + body
    ensures ParseInt(s) == if LeadingDigits(body) == "" then None else Some(ReadDecimal(LeadingDigits(body)))
  {
    assert TrimStart(s)[1..] == body;
  }

  lemma {:induction false} PlainParsed(blanks: string, body: string)
    requires AllWhitespace(blanks)
    requires body != "" ==> !IsWhitespace(body[0]) && body[0] != '-' && body[0] != '+'
    ensures ParseInt(blanks + body)
         == if LeadingDigits(body) == "" then None else Some(ReadDecimal(LeadingDigits(body)))
  {
    TrimStartPadded(blanks, body);
  }

  /**
   * Of any text of three parts the number at the start of the third counts, signed with a plus
   * or not; without digits there, or with more or fewer parts, the sequence starts again at 1.
   */
  lemma {:induction false} NextReads(a: string, b: string, blanks: string, plus: bool, digits: string, rest: string)
    requires '-' !in a && '-' !in b && '-' !in rest
    requires AllWhitespace(blanks) && AllDigits(digits) && (rest != "" ==> !IsDigit(rest[0]))
    requires digits == "" && !plus && rest != "" ==> !IsWhitespace(rest[0]) && rest[0] != '+'
    ensures NextSequence(Some(a + "-" + b + "-" + (blanks + ((if plus then "+" else "") + (digits + rest)))))
         == if digits == "" then 1 else ReadDecimal(digits) + 1
  {
    var third := blanks + ((if plus then "+" else "") + (digits + rest));
    IntParsed(blanks, plus, digits, rest);
    NoHyphen(blanks, plus, digits, rest);
    ThirdPartCounts(a, b, third);
  }

  lemma {:induction false} ThirdPartCounts(a: string, b: string, third: string)
    requires '-' !in a && '-' !in b && '-' !in third
    ensures NextSequence(Some(a + "-" + b + "-" + third))
         == match ParseInt(third) case None => 1 case Some(n) => n + 1
  {
    SplitJoin([a, b, third], '-');
    JoinThree(a, b, third);
  }

  lemma {:induction false} NoHyphen(blanks: string, plus: bool, digits: string, rest: string)
    requires AllWhitespace(blanks) && AllDigits(digits) && '-' !in rest
    ensures '-' !in blanks + ((if plus then "+" else "") + (digits + rest))
  {
    assert '-' !in blanks && '-' !in digits;
  }

  lemma {:induction false} NextUnread(text: string)
    requires multiset(text)['-'] != 2
    ensures NextSequence(Some(text)) == NextSequence(None) == 1
  {
    SplitCount(text, '-');
  }

  /** The number after a generated one carries the next sequence. */
  lemma {:induction false} NextAfterGenerated(prefix: string, year: nat, month: nat, sequence: nat)
    requires '-' !in prefix && year >= 10 && 1 <= month <= 12
    ensures NextSequence(Some(FormatOrderNumber(prefix, year, month, sequence))) == sequence + 1
  {
    PartsOf(prefix, year, month, sequence);
    ParseIntOfDigits(PadStart(Decimal(sequence), 4, '0'));
  }

  lemma {:induction false} ParseIntOfDigits(s: string)
    requires s != "" && AllDigits(s)
    ensures ParseInt(s) == Some(ReadDecimal(s))
  {
    assert IsDigit(s[0]);
    assert TrimStart(s) == s;
    LeadingDigitsOfDigits(s);
  }

  /** The number drawn behind the last one, for a business of this name. */
  type Draw = (Option<string>, string) -> string

  /** What the program draws in a month. */
  function DrawInMonth(year: nat, month: nat): Draw {
    (last, name) => NumberAfter(last, name, year, month)
  }

  /** The numbers drawn one after the other under the names the business had. */
  function DrawnInTurn(draw: Draw, names: seq<string>): (numbers: seq<string>)
    ensures |numbers| == |names|
  {
    if names == [] then []
    else
      var earlier := DrawnInTurn(draw, names[..|names| - 1]);
      var last := if earlier == [] then None else Some(earlier[|earlier| - 1]);
      earlier + [draw(last, names[|names| - 1])]
  }

  function Generated(names: seq<string>, year: nat, month: nat): (numbers: seq<string>)
    ensures |numbers| == |names|
  {
    DrawnInTurn(DrawInMonth(year, month), names)
  }

  /** The number of the k-th order, under a name. */
  type Numbering = (string, nat) -> string

  function NumberingInMonth(year: nat, month: nat): Numbering {
    (name: string, k: nat) => FormatOrderNumber(OrderNumberPrefix(name), year, month, k)
  }

  /** Drawing starts at 1 and continues behind any number, whatever name that one had. */
  ghost predicate DrawsInOrder(draw: Draw, numbering: Numbering) {
    && (forall name :: draw(None, name) == numbering(name, 1))
    && (forall before, name, k: nat :: draw(Some(numbering(before, k)), name) == numbering(name, k + 1))
  }

  /** The sequence that the next order reads off a number. */
  function SequenceOf(number: string): int {
    NextSequence(Some(number)) - 1
  }

  lemma {:induction false} InTurn(draw: Draw, numbering: Numbering, names: seq<string>, k: nat)
    requires DrawsInOrder(draw, numbering) && k < |names|
    ensures DrawnInTurn(draw, names)[k] == numbering(names[k], k + 1)
    decreases |names|
  {
    var earlier := names[..|names| - 1];
    if k < |earlier| {
      InTurn(draw, numbering, earlier, k);
    } else if k > 0 {
      InTurn(draw, numbering, earlier, k - 1);
    }
  }

  lemma {:induction false} MonthDrawsInOrder(year: nat, month: nat)
    requires year >= 10 && 1 <= month <= 12
    ensures DrawsInOrder(DrawInMonth(year, month), NumberingInMonth(year, month))
  {
    var draw, numbering := DrawInMonth(year, month), NumberingInMonth(year, month);
    forall before: string, name: string, k: nat | true
      ensures draw(Some(numbering(before, k)), name) == numbering(name, k + 1)
    {
      NumberFollows(numbering(before, k), before, name, year, month, k);
    }
  }

  /** The k-th order of the month carries sequence k, past 9999 and across renamings too. */
  lemma {:induction false} GeneratedSequence(names: seq<string>, year: nat, month: nat, k: nat)
    requires year >= 10 && 1 <= month <= 12 && k < |names|
    ensures Generated(names, year, month)[k]
         == FormatOrderNumber(OrderNumberPrefix(names[k]), year, month, k + 1)
  {
    MonthDrawsInOrder(year, month);
    InTurn(DrawInMonth(year, month), NumberingInMonth(year, month), names, k);
  }

  lemma {:induction false} NumberFollows(last: string, before: string, name: string, year: nat, month: nat, k: nat)
    requires year >= 10 && 1 <= month <= 12
    requires last == FormatOrderNumber(OrderNumberPrefix(before), year, month, k)
    ensures NumberAfter(Some(last), name, year, month)
         == FormatOrderNumber(OrderNumberPrefix(name), year, month, k + 1)
  {
    NextOfName(before, year, month, k);
  }

  lemma {:induction false} NextOfName(name: string, year: nat, month: nat, sequence: nat)
    requires year >= 10 && 1 <= month <= 12
    ensures NextSequence(Some(FormatOrderNumber(OrderNumberPrefix(name), year, month, sequence))) == sequence + 1
  {
    UpperOfPrefix(OrderNumberPrefix(name));
    NextAfterGenerated(OrderNumberPrefix(name), year, month, sequence);
  }

  /** So no two orders of a month share a number. */
  lemma {:induction false} GeneratedDistinct(names: seq<string>, year: nat, month: nat, i: nat, j: nat)
    requires year >= 10 && 1 <= month <= 12 && i < j < |names|
    ensures Generated(names, year, month)[i] != Generated(names, year, month)[j]
  {
    GeneratedSequence(names, year, month, i);
    GeneratedSequence(names, year, month, j);
    SequencesDiffer(OrderNumberPrefix(names[i]), OrderNumberPrefix(names[j]), year, month, i + 1, j + 1);
  }

  lemma {:induction false} SequencesDiffer(p: string, q: string, year: nat, month: nat, a: nat, b: nat)
    requires IsPrefix(p) && IsPrefix(q) && year >= 10 && 1 <= month <= 12 && a != b
    ensures FormatOrderNumber(p, year, month, a) != FormatOrderNumber(q, year, month, b)
  {
    UpperOfPrefix(p);
    UpperOfPrefix(q);
    OrderNumbersUnique(p, year, month, a, q, year, month, b);
  }
}
