/**
 * Phone number normalisation (lib/phone.ts).  The rule table is a parameter: the results hold
 * for every table that meets `WellFormed`, and the table in use meets it.
 */
module Phone {
  import opened Text

  datatype CountryRule = CountryRule(iso2: string, callingCode: string, nationalPrefix: string, lengths: seq<nat>)

  const COUNTRY_RULES: seq<CountryRule> := [
    CountryRule("PK", "92", "0", [10]),
    CountryRule("AE", "971", "0", [9]),
    CountryRule("GB", "44", "0", [10]),
    CountryRule("US", "1", "1", [10]),
    CountryRule("IN", "91", "0", [10]),
    CountryRule("SA", "966", "0", [9])
  ]

  datatype NormalisedPhone = NormalisedPhone(e164: string, waId: string, countryIso2: Option<string>, formatted: string)

  function DigitsOnly(s: string): (d: string)
    ensures AllDigits(d) && |d| <= |s|
  {
    if s == "" then ""
    else if IsDigit(s[0]) then [s[0]] + DigitsOnly(s[1..])
    else DigitsOnly(s[1..])
  }

  /** A plus, then 7 to 15 digits of which the first is not zero. */
  predicate IsValidE164(value: string) {
    8 <= |value| <= 16 && value[0] == '+' && AllDigits(value[1..]) && value[1] != '0'
  }

  // ----- Looking rules up -----

  /** Stable insertion, longest calling code first. */
  function InsertByCodeLength(rule: CountryRule, sorted: seq<CountryRule>): seq<CountryRule> {
    if sorted == [] || |rule.callingCode| >= |sorted[0].callingCode| then [rule] + sorted
    else [sorted[0]] + InsertByCodeLength(rule, sorted[1..])
  }

  function SortByCodeLength(rules: seq<CountryRule>): seq<CountryRule> {
    if rules == [] then [] else InsertByCodeLength(rules[0], SortByCodeLength(rules[1..]))
  }

  function FindByCode(rules: seq<CountryRule>, bare: string): (r: Option<CountryRule>)
    ensures r.Some? ==> r.value.callingCode <= bare
  {
    if rules == [] then None
    else if rules[0].callingCode <= bare then Some(rules[0])
    else FindByCode(rules[1..], bare)
  }

  function FindByIso(rules: seq<CountryRule>, iso2: string): Option<CountryRule> {
    if rules == [] then None
    else if rules[0].iso2 == iso2 then Some(rules[0])
    else FindByIso(rules[1..], iso2)
  }

  // ----- Normalisation -----

  function FormatNational(callingCode: string, national: string): string {
    if |national| >= 9 then "+" + callingCode + " " + national[..3] + " " + national[3..]
    else "+" + callingCode + " " + national
  }

  function Build(rule: CountryRule, national: string): NormalisedPhone {
    NormalisedPhone("+" + (rule.callingCode + national), rule.callingCode + national, Some(rule.iso2),
                    FormatNational(rule.callingCode, national))
  }

  function UnknownCountry(bare: string): Option<NormalisedPhone> {
    if IsValidE164("+" + bare) then Some(NormalisedPhone("+" + bare, bare, None, "+" + bare)) else None
  }

  /** A trunk prefix kept behind the calling code is dropped when that makes the length right. */
  function StripTrunk(rule: CountryRule, national: string): (r: string)
    ensures |r| <= |national|
  {
    var t := rule.nationalPrefix;
    if t != "" && t <= national && |national| !in rule.lengths && |national| - |t| in rule.lengths
    then national[|t|..] else national
  }

  function BuildFromInternational(rules: seq<CountryRule>, bare: string): Option<NormalisedPhone> {
    match FindByCode(SortByCodeLength(rules), bare)
    case None => UnknownCountry(bare)
    case Some(rule) =>
      var national := StripTrunk(rule, bare[|rule.callingCode|..]);
      if |national| in rule.lengths then Some(Build(rule, national)) else UnknownCountry(bare)
  }

  /** A number without international prefix, read with the rule of the default country. */
  function FromDefaultCountry(rules: seq<CountryRule>, rule: CountryRule, bare: string): Option<NormalisedPhone> {
    var t, cc := rule.nationalPrefix, rule.callingCode;
    if t != "" && t <= bare && |bare[|t|..]| in rule.lengths then Some(Build(rule, bare[|t|..]))
    else if cc <= bare && |bare[|cc|..]| in rule.lengths then Some(Build(rule, bare[|cc|..]))
    else if |bare| in rule.lengths then Some(Build(rule, bare))
    else BuildFromInternational(rules, bare)
  }

  function NormaliseBare(rules: seq<CountryRule>, bare: string, hadPlus: bool, defaultCountry: string)
    : Option<NormalisedPhone>
  {
    if |bare| < 6 || |bare| > 15 then None
    else if hadPlus then BuildFromInternational(rules, bare)
    else
      match FindByIso(rules, defaultCountry)
      case None => BuildFromInternational(rules, bare)
      case Some(rule) => FromDefaultCountry(rules, rule, bare)
  }

  /** A leading 00 counts as the international access code. */
  predicate HadPlus(trimmed: string) {
    "+" <= trimmed || "00" <= trimmed
  }

  function BareDigits(trimmed: string): (d: string)
    ensures AllDigits(d)
  {
    DigitsOnly(if "00" <= trimmed then trimmed[2..] else trimmed)
  }

  function NormalisePhone(rules: seq<CountryRule>, input: string, defaultCountry: string): Option<NormalisedPhone> {
    var trimmed := Trim(input);
    if trimmed == "" then None
    else NormaliseBare(rules, BareDigits(trimmed), HadPlus(trimmed), defaultCountry)
  }

  // ----- What a rule table must satisfy -----

  predicate RuleWellFormed(rule: CountryRule) {
    && rule.callingCode != "" && AllDigits(rule.callingCode) && rule.callingCode[0] != '0'
    && rule.nationalPrefix != "" && AllDigits(rule.nationalPrefix)
    && |rule.nationalPrefix| <= |rule.callingCode| + 1
    && (rule.nationalPrefix == rule.callingCode || rule.nationalPrefix[0] != rule.callingCode[0])
    && forall k :: 0 <= k < |rule.lengths| ==> LengthWellFormed(rule, rule.lengths[k])
  }

  /** In range for E.164, and not confusable with a length that has a prefix in front. */
  predicate LengthWellFormed(rule: CountryRule, n: nat) {
    && 6 <= n && 7 <= |rule.callingCode| + n && |rule.callingCode| + |rule.nationalPrefix| + n <= 15
    && n - |rule.nationalPrefix| !in rule.lengths && n - |rule.callingCode| !in rule.lengths
    && n + |rule.nationalPrefix| !in rule.lengths
  }

  /** No calling code is a prefix of another, and no country has two rules. */
  predicate WellFormed(rules: seq<CountryRule>) {
    && (forall i :: 0 <= i < |rules| ==> RuleWellFormed(rules[i]))
    && (forall i, j :: 0 <= i < |rules| && 0 <= j < |rules| && i != j ==> Separate(rules[i], rules[j]))
  }

  predicate Separate(a: CountryRule, b: CountryRule) {
    !(a.callingCode <= b.callingCode) && a.iso2 != b.iso2
  }

  lemma CountryRulesWellFormed()
    ensures WellFormed(COUNTRY_RULES)
  {
    forall i | 0 <= i < |COUNTRY_RULES|
      ensures RuleWellFormed(COUNTRY_RULES[i])
    {
      CountryRuleWellFormed(i);
    }
    forall i, j | 0 <= i < |COUNTRY_RULES| && 0 <= j < |COUNTRY_RULES| && i != j
      ensures Separate(COUNTRY_RULES[i], COUNTRY_RULES[j])
    {
      CountryRulesSeparate(i, j);
    }
  }

  lemma {:induction false} CountryRuleWellFormed(i: nat)
    requires i < |COUNTRY_RULES|
    ensures RuleWellFormed(COUNTRY_RULES[i])
  {
    SingleLength(COUNTRY_RULES[i]);
  }

  /** First letters of the country codes, first and second digits of the calling codes. */
  lemma {:induction false} CountryRuleHeads(i: nat)
    requires i < |COUNTRY_RULES|
    ensures var rule := COUNTRY_RULES[i];
            && rule.iso2 != "" && rule.iso2[0] == "PAGUIS"[i]
            && rule.callingCode != "" && rule.callingCode[0] == "994199"[i]
            && (i != 3 ==> |rule.callingCode| > 1 && rule.callingCode[1] == "274-16"[i])
  {
  }

  lemma {:induction false} CountryRulesSeparate(i: nat, j: nat)
    requires i < |COUNTRY_RULES| && j < |COUNTRY_RULES| && i != j
    ensures Separate(COUNTRY_RULES[i], COUNTRY_RULES[j])
  {
    CountryRuleHeads(i);
    CountryRuleHeads(j);
    DifferAt(COUNTRY_RULES[i].iso2, COUNTRY_RULES[j].iso2, 0);
    DifferAt(COUNTRY_RULES[i].callingCode, COUNTRY_RULES[j].callingCode,
             if "994199"[i] == "994199"[j] then 1 else 0);
  }

  lemma {:induction false} DifferAt(a: string, b: string, k: nat)
    requires k < |a| && k < |b| && a[k] != b[k]
    ensures !(a <= b) && a != b
  {
  }

  lemma {:induction false} SingleLength(rule: CountryRule)
    requires |rule.lengths| == 1 && |rule.nationalPrefix| >= 1 && |rule.callingCode| >= 1
    ensures rule.lengths[0] - |rule.nationalPrefix| !in rule.lengths
    ensures rule.lengths[0] - |rule.callingCode| !in rule.lengths
    ensures rule.lengths[0] + |rule.nationalPrefix| !in rule.lengths
  {
  }

  // ----- Lookup finds the one rule -----

  lemma {:induction false} InsertKeeps(rule: CountryRule, sorted: seq<CountryRule>)
    ensures multiset(InsertByCodeLength(rule, sorted)) == multiset(sorted) + multiset{rule}
  {
    if !(sorted == [] || |rule.callingCode| >= |sorted[0].callingCode|) {
      InsertKeeps(rule, sorted[1..]);
      assert sorted == [sorted[0]] + sorted[1..];
    }
  }

  lemma {:induction false} SortKeeps(rules: seq<CountryRule>)
    ensures multiset(SortByCodeLength(rules)) == multiset(rules)
  {
    if rules != [] {
      SortKeeps(rules[1..]);
      InsertKeeps(rules[0], SortByCodeLength(rules[1..]));
      assert rules == [rules[0]] + rules[1..];
    }
  }

  predicate LongestFirst(rules: seq<CountryRule>) {
    forall i, j :: 0 <= i < j < |rules| ==> |rules[i].callingCode| >= |rules[j].callingCode|
  }

  predicate NoneLonger(rules: seq<CountryRule>, bound: nat) {
    forall i :: 0 <= i < |rules| ==> |rules[i].callingCode| <= bound
  }

  lemma {:induction false} InsertNoneLonger(rule: CountryRule, sorted: seq<CountryRule>, bound: nat)
    requires |rule.callingCode| <= bound && NoneLonger(sorted, bound)
    ensures NoneLonger(InsertByCodeLength(rule, sorted), bound)
  {
    if !(sorted == [] || |rule.callingCode| >= |sorted[0].callingCode|) {
      InsertNoneLonger(rule, sorted[1..], bound);
    }
  }

  lemma {:induction false} InFrontSorts(first: CountryRule, rest: seq<CountryRule>)
    requires LongestFirst(rest) && NoneLonger(rest, |first.callingCode|)
    ensures LongestFirst([first] + rest)
  {
  }

  lemma {:induction false} InsertSorts(rule: CountryRule, sorted: seq<CountryRule>)
    requires LongestFirst(sorted)
    ensures LongestFirst(InsertByCodeLength(rule, sorted))
  {
    if sorted == [] || |rule.callingCode| >= |sorted[0].callingCode| {
      InFrontSorts(rule, sorted);
    } else {
      InsertSorts(rule, sorted[1..]);
      InsertNoneLonger(rule, sorted[1..], |sorted[0].callingCode|);
      InFrontSorts(sorted[0], InsertByCodeLength(rule, sorted[1..]));
    }
  }

  lemma {:induction false} SortSorts(rules: seq<CountryRule>)
    ensures LongestFirst(SortByCodeLength(rules))
  {
    if rules != [] {
      SortSorts(rules[1..]);
      InsertSorts(rules[0], SortByCodeLength(rules[1..]));
    }
  }

  lemma {:induction false} FindByCodeIn(rules: seq<CountryRule>, bare: string)
    ensures match FindByCode(rules, bare)
            case None => forall r :: r in rules ==> !(r.callingCode <= bare)
            case Some(rule) => rule in rules && rule.callingCode <= bare
    ensures LongestFirst(rules) && FindByCode(rules, bare).Some? ==>
              forall r :: r in rules && r.callingCode <= bare ==>
                |r.callingCode| <= |FindByCode(rules, bare).value.callingCode|
  {
    if rules != [] && !(rules[0].callingCode <= bare) {
      FindByCodeIn(rules[1..], bare);
    }
  }

  /** In any table at all, the rule found is one with a longest matching calling code. */
  lemma {:induction false} FindsLongest(rules: seq<CountryRule>, bare: string)
    ensures match FindByCode(SortByCodeLength(rules), bare)
            case None => forall r :: r in rules ==> !(r.callingCode <= bare)
            case Some(rule) =>
              && rule in rules && rule.callingCode <= bare
              && forall r :: r in rules && r.callingCode <= bare ==> |r.callingCode| <= |rule.callingCode|
  {
    var sorted := SortByCodeLength(rules);
    SortKeeps(rules);
    SortSorts(rules);
    FindByCodeIn(sorted, bare);
    assert forall r :: r in rules <==> r in multiset(rules);
    assert forall r :: r in sorted <==> r in multiset(sorted);
  }

  lemma {:induction false} RulesSeparate(rules: seq<CountryRule>, i: nat, j: nat)
    requires WellFormed(rules) && i < |rules| && j < |rules|
    ensures i != j ==> Separate(rules[i], rules[j])
  {
  }

  /** In a well-formed table a number behind its calling code leads back to its rule. */
  lemma {:induction false} FindsOwnRule(rules: seq<CountryRule>, rule: CountryRule, national: string)
    requires WellFormed(rules) && rule in rules
    ensures FindByCode(SortByCodeLength(rules), rule.callingCode + national) == Some(rule)
  {
    var bare := rule.callingCode + national;
    FindsLongest(rules, bare);
    var found := FindByCode(SortByCodeLength(rules), bare).value;
    var i :| 0 <= i < |rules| && rules[i] == rule;
    var j :| 0 <= j < |rules| && rules[j] == found;
    assert found.callingCode == bare[..|found.callingCode|];
    assert rule.callingCode == bare[..|rule.callingCode|];
    assert rule.callingCode <= found.callingCode;
    RulesSeparate(rules, i, j);
  }

  lemma {:induction false} FindsDefaultRule(rules: seq<CountryRule>, i: nat)
    requires i < |rules|
    requires forall j :: 0 <= j < i ==> rules[j].iso2 != rules[i].iso2
    ensures FindByIso(rules, rules[i].iso2) == Some(rules[i])
  {
    if i > 0 {
      FindsDefaultRule(rules[1..], i - 1);
    }
  }

  // ----- The canonical form -----

  /** A record that is its own reading: what the international reader gives back for its digits. */
  ghost predicate IsCanonical(rules: seq<CountryRule>, r: NormalisedPhone) {
    && IsValidE164(r.e164) && r.e164 == "+" + r.waId
    && BuildFromInternational(rules, r.waId) == Some(r)
  }

  lemma {:induction false} BuildIsCanonical(rules: seq<CountryRule>, rule: CountryRule, national: string)
    requires WellFormed(rules) && rule in rules
    requires AllDigits(national) && |national| in rule.lengths
    ensures IsCanonical(rules, Build(rule, national))
  {
    var i :| 0 <= i < |rules| && rules[i] == rule;
    assert RuleWellFormed(rules[i]);
    var k :| 0 <= k < |rule.lengths| && rule.lengths[k] == |national|;
    assert LengthWellFormed(rule, rule.lengths[k]);
    FindsOwnRule(rules, rule, national);
    var bare := rule.callingCode + national;
    assert bare[|rule.callingCode|..] == national;
    assert ("+" + bare)[1..] == bare;
  }

  lemma {:induction false} InternationalIsCanonical(rules: seq<CountryRule>, bare: string)
    requires WellFormed(rules) && AllDigits(bare)
    ensures BuildFromInternational(rules, bare).Some? ==>
              IsCanonical(rules, BuildFromInternational(rules, bare).value)
              && |BuildFromInternational(rules, bare).value.waId| <= |bare|
  {
    FindsLongest(rules, bare);
    match FindByCode(SortByCodeLength(rules), bare)
    case None =>
    case Some(rule) =>
      var rest := bare[|rule.callingCode|..];
      var national := StripTrunk(rule, rest);
      assert AllDigits(rest) && AllDigits(national);
      if |national| in rule.lengths {
        BuildIsCanonical(rules, rule, national);
      }
  }

  lemma {:induction false} BareIsCanonical(rules: seq<CountryRule>, bare: string, hadPlus: bool, defaultCountry: string)
    requires WellFormed(rules) && AllDigits(bare)
    ensures NormaliseBare(rules, bare, hadPlus, defaultCountry).Some? ==>
              IsCanonical(rules, NormaliseBare(rules, bare, hadPlus, defaultCountry).value)
  {
    InternationalIsCanonical(rules, bare);
    if !hadPlus && FindByIso(rules, defaultCountry).Some? {
      FindByIsoIn(rules, defaultCountry);
      var rule := FindByIso(rules, defaultCountry).value;
      var t, cc := rule.nationalPrefix, rule.callingCode;
      if t != "" && t <= bare && |bare[|t|..]| in rule.lengths {
        BuildIsCanonical(rules, rule, bare[|t|..]);
      } else if cc <= bare && |bare[|cc|..]| in rule.lengths {
        BuildIsCanonical(rules, rule, bare[|cc|..]);
      } else if |bare| in rule.lengths {
        BuildIsCanonical(rules, rule, bare);
      }
    }
  }

  lemma {:induction false} FindByIsoIn(rules: seq<CountryRule>, iso2: string)
    ensures FindByIso(rules, iso2).Some? ==> FindByIso(rules, iso2).value in rules
  {
    if rules != [] && rules[0].iso2 != iso2 {
      FindByIsoIn(rules[1..], iso2);
    }
  }

  lemma {:induction false} DigitsOnlyOfDigits(d: string)
    requires AllDigits(d)
    ensures DigitsOnly(d) == d
  {
    if d != "" {
      DigitsOnlyOfDigits(d[1..]);
    }
  }

  lemma {:induction false} PlusText(d: string)
    requires AllDigits(d) && d != ""
    ensures Trim("+" + d) == "+" + d && HadPlus("+" + d) && BareDigits("+" + d) == d
  {
    var text := "+" + d;
    TrimmedEnds(text);
    DifferAt("00", text, 0);
    PlusDigits(text, d);
  }

  lemma {:induction false} TrimmedEnds(text: string)
    requires text != "" && (text[0] == '+' || IsDigit(text[0]))
    requires text[|text| - 1] == '+' || IsDigit(text[|text| - 1])
    ensures Trim(text) == text
  {
    TrimOfTrimmed(text);
  }

  lemma {:induction false} PlusDigits(text: string, d: string)
    requires AllDigits(d) && text == "+" + d
    ensures DigitsOnly(text) == d
  {
    assert text[0] == '+' && text[1..] == d;
    DigitsOnlyOfDigits(d);
  }

  /** Reading plus and digits ignores the default country. */
  lemma {:induction false} ReadsPlus(rules: seq<CountryRule>, d: string, defaultCountry: string)
    requires AllDigits(d) && d != ""
    ensures NormalisePhone(rules, "+" + d, defaultCountry) == NormaliseBare(rules, d, true, defaultCountry)
  {
    PlusText(d);
  }

  /**
   * Every result is a valid E.164 number, its id is that number without the plus, and
   * normalising it again, whatever the default country, gives the same record.
   */
  lemma {:induction false} NormaliseCanonical(rules: seq<CountryRule>, input: string, defaultCountry: string,
                                              otherCountry: string)
    requires WellFormed(rules)
    ensures match NormalisePhone(rules, input, defaultCountry)
            case None => true
            case Some(r) =>
              && IsValidE164(r.e164) && r.e164 == "+" + r.waId
              && NormalisePhone(rules, r.e164, otherCountry) == Some(r)
  {
    if NormalisePhone(rules, input, defaultCountry).Some? {
      BareIsCanonical(rules, BareDigits(Trim(input)), HadPlus(Trim(input)), defaultCountry);
      var r := NormalisePhone(rules, input, defaultCountry).value;
      assert r.e164[1..] == r.waId;
      ReadsPlus(rules, r.waId, otherCountry);
    }
  }

  // ----- The spellings of one number -----

  /** The digits of the text are `d`, at the positions `ps`; every other character is none. */
  ghost predicate DigitsStand(text: string, d: string, ps: seq<int>) {
    && |ps| == |d| && AllDigits(d)
    && (forall i :: 0 <= i < |ps| ==> 0 <= ps[i] < |text| && text[ps[i]] == d[i])
    && (forall i, j :: 0 <= i < j < |ps| ==> ps[i] < ps[j])
    && (forall k :: 0 <= k < |text| && IsDigit(text[k]) ==> k in ps)
  }

  /** The text is `body` with blanks around it. */
  ghost predicate Around(text: string, body: string) {
    && Trimmed(body) && body != ""
    && exists blanks, behind :: AllWhitespace(blanks) && AllWhitespace(behind) && text == blanks + body + behind
  }

  /** A text with no international prefix whose digits are `d`, separators anywhere. */
  ghost predicate SpellsPlain(text: string, d: string) {
    exists body, ps ::
      Around(text, body) && body[0] != '+' && !("00" <= body) && DigitsStand(body, d, ps)
  }

  /** A text whose digits after a leading plus or 00 are `d`, separators anywhere after it. */
  ghost predicate SpellsInternational(text: string, d: string) {
    SpellsBehindPlus(text, d) || SpellsBehindZeros(text, d)
  }

  ghost predicate SpellsBehindPlus(text: string, d: string) {
    exists body, ps :: Around(text, body) && body[0] == '+' && DigitsStand(body, d, ps)
  }

  ghost predicate SpellsBehindZeros(text: string, d: string) {
    exists body, ps :: Around(text, body) && "00" <= body && DigitsStand(body[2..], d, ps)
  }

  lemma {:induction false} Shifted(ps: seq<int>, offset: int) returns (qs: seq<int>)
    ensures |qs| == |ps| && forall i :: 0 <= i < |ps| ==> qs[i] == ps[i] - offset
  {
    qs := seq(|ps|, i requires 0 <= i < |ps| => ps[i] - offset);
  }

  /** Reading a text for its digits finds those that stand in it. */
  lemma {:induction false} StandingDigitsRead(text: string, d: string, ps: seq<int>)
    requires DigitsStand(text, d, ps)
    ensures DigitsOnly(text) == d
    decreases text
  {
    if text == "" {
      SomewhereToStand(text, d, ps);
    } else if IsDigit(text[0]) {
      FirstStandsFirst(text, d, ps);
      var qs := Shifted(ps[1..], 1);
      RestStands(text, d, ps, qs);
      StandingDigitsRead(text[1..], d[1..], qs);
    } else {
      var qs := Shifted(ps, 1);
      RestStandsBehindOther(text, d, ps, qs);
      StandingDigitsRead(text[1..], d, qs);
    }
  }

  lemma {:induction false} SomewhereToStand(text: string, d: string, ps: seq<int>)
    requires DigitsStand(text, d, ps)
    ensures d != "" ==> text != ""
  {
    if d != "" {
      assert 0 <= ps[0] < |text|;
    }
  }

  lemma {:induction false} FirstStandsFirst(text: string, d: string, ps: seq<int>)
    requires DigitsStand(text, d, ps) && text != "" && IsDigit(text[0])
    ensures |ps| > 0 && ps[0] == 0 && d[0] == text[0]
  {
    assert 0 in ps;
    var i :| 0 <= i < |ps| && ps[i] == 0;
    assert forall j :: 0 < j < |ps| ==> ps[0] < ps[j];
  }

  lemma {:induction false} RestStands(text: string, d: string, ps: seq<int>, qs: seq<int>)
    requires DigitsStand(text, d, ps) && text != "" && |ps| > 0 && ps[0] == 0
    requires |qs| == |ps| - 1 && forall i :: 0 <= i < |qs| ==> qs[i] == ps[i + 1] - 1
    ensures DigitsStand(text[1..], d[1..], qs)
  {
    forall i | 0 <= i < |qs|
      ensures 0 <= qs[i] < |text[1..]| && text[1..][qs[i]] == d[1..][i]
    {
      assert ps[0] < ps[i + 1];
    }
    forall k | 0 <= k < |text[1..]| && IsDigit(text[1..][k])
      ensures k in qs
    {
      RestFound(text, d, ps, qs, k);
    }
  }

  lemma {:induction false} RestFound(text: string, d: string, ps: seq<int>, qs: seq<int>, k: int)
    requires DigitsStand(text, d, ps) && |ps| > 0 && ps[0] == 0
    requires |qs| == |ps| - 1 && forall i :: 0 <= i < |qs| ==> qs[i] == ps[i + 1] - 1
    requires 0 <= k < |text| - 1 && IsDigit(text[k + 1])
    ensures k in qs
  {
    var i :| 0 <= i < |ps| && ps[i] == k + 1;
    assert qs[i - 1] == k;
  }

  lemma {:induction false} RestStandsBehindOther(text: string, d: string, ps: seq<int>, qs: seq<int>)
    requires DigitsStand(text, d, ps) && text != "" && !IsDigit(text[0])
    requires |qs| == |ps| && forall i :: 0 <= i < |qs| ==> qs[i] == ps[i] - 1
    ensures DigitsStand(text[1..], d, qs)
  {
    forall i | 0 <= i < |qs|
      ensures 0 <= qs[i] < |text[1..]| && text[1..][qs[i]] == d[i]
    {
      assert text[ps[i]] == d[i] && IsDigit(d[i]);
    }
    forall k | 0 <= k < |text[1..]| && IsDigit(text[1..][k])
      ensures k in qs
    {
      assert k + 1 in ps;
      var i :| 0 <= i < |ps| && ps[i] == k + 1;
      assert qs[i] == k;
    }
  }

  lemma {:induction false} AroundTrims(text: string, body: string)
    requires Around(text, body)
    ensures Trim(text) == body
  {
    var blanks, behind :| AllWhitespace(blanks) && AllWhitespace(behind) && text == blanks + body + behind;
    TrimPadded(blanks, body, behind);
  }

  lemma {:induction false} PlainRead(text: string, d: string)
    requires SpellsPlain(text, d)
    ensures Trim(text) != "" && !HadPlus(Trim(text)) && BareDigits(Trim(text)) == d
  {
    var body, ps :| Around(text, body) && body[0] != '+' && !("00" <= body) && DigitsStand(body, d, ps);
    AroundTrims(text, body);
    DifferAt("+", body, 0);
    StandingDigitsRead(body, d, ps);
  }

  lemma {:induction false} InternationalRead(text: string, d: string)
    requires SpellsInternational(text, d)
    ensures Trim(text) != "" && HadPlus(Trim(text)) && BareDigits(Trim(text)) == d
  {
    if SpellsBehindPlus(text, d) {
      var body, ps :| Around(text, body) && body[0] == '+' && DigitsStand(body, d, ps);
      AroundTrims(text, body);
      DifferAt("00", body, 0);
      StandingDigitsRead(body, d, ps);
    } else {
      var body, ps :| Around(text, body) && "00" <= body && DigitsStand(body[2..], d, ps);
      AroundTrims(text, body);
      StandingDigitsRead(body[2..], d, ps);
    }
  }

  /**
   * Separators and blanks say nothing: a text is read like its digits, behind a plus if it has
   * one or starts with 00.
   */
  lemma {:induction false} ReadByDigits(rules: seq<CountryRule>, text: string, d: string, country: string)
    requires d != ""
    ensures SpellsInternational(text, d) ==>
              NormalisePhone(rules, text, country) == NormalisePhone(rules, "+" + d, country)
    ensures SpellsPlain(text, d) && !("00" <= d) ==>
              NormalisePhone(rules, text, country) == NormalisePhone(rules, d, country)
  {
    if SpellsInternational(text, d) {
      InternationalRead(text, d);
      ReadsPlus(rules, d, country);
    }
    if SpellsPlain(text, d) && !("00" <= d) {
      PlainRead(text, d);
      DigitTextReads(rules, d, country);
    }
  }

  /** Fewer than six digits and more than fifteen are refused, whatever the table. */
  lemma {:induction false} LengthRefused(rules: seq<CountryRule>, text: string, d: string, country: string)
    requires SpellsPlain(text, d) || SpellsInternational(text, d)
    requires |d| < 6 || |d| > 15
    ensures NormalisePhone(rules, text, country) == None
  {
    if SpellsPlain(text, d) {
      PlainRead(text, d);
    } else {
      InternationalRead(text, d);
    }
  }

  ghost predicate Spells(rule: CountryRule, n: string, text: string) {
    || SpellsPlain(text, n)
    || SpellsPlain(text, rule.nationalPrefix + n)
    || SpellsPlain(text, rule.callingCode + n)
    || SpellsInternational(text, rule.callingCode + n)
    || SpellsInternational(text, rule.callingCode + (rule.nationalPrefix + n))
  }

  lemma {:induction false} RuleOf(rules: seq<CountryRule>, rule: CountryRule, n: string)
    requires WellFormed(rules) && rule in rules && |n| in rule.lengths
    ensures RuleWellFormed(rule) && LengthWellFormed(rule, |n|)
    ensures FindByIso(rules, rule.iso2) == Some(rule)
  {
    var i :| 0 <= i < |rules| && rules[i] == rule;
    assert RuleWellFormed(rules[i]);
    var k :| 0 <= k < |rule.lengths| && rule.lengths[k] == |n|;
    assert LengthWellFormed(rule, rule.lengths[k]);
    forall j | 0 <= j < i
      ensures rules[j].iso2 != rules[i].iso2
    {
      assert Separate(rules[i], rules[j]);
    }
    FindsDefaultRule(rules, i);
  }

  lemma {:induction false} PlainDigits(rules: seq<CountryRule>, rule: CountryRule, n: string, bare: string)
    requires RuleWellFormed(rule) && LengthWellFormed(rule, |n|) && |n| in rule.lengths
    requires bare == n || bare == rule.nationalPrefix + n || bare == rule.callingCode + n
    ensures FromDefaultCountry(rules, rule, bare) == Some(Build(rule, n))
  {
    var t, cc := rule.nationalPrefix, rule.callingCode;
    if bare == t + n {
      assert bare[|t|..] == n;
    } else if bare == cc + n {
      assert bare[|cc|..] == n;
      assert bare[0] == cc[0];
    }
  }

  lemma {:induction false} InternationalDigits(rules: seq<CountryRule>, rule: CountryRule, n: string, bare: string)
    requires WellFormed(rules) && rule in rules
    requires RuleWellFormed(rule) && LengthWellFormed(rule, |n|) && |n| in rule.lengths
    requires bare == rule.callingCode + n || bare == rule.callingCode + (rule.nationalPrefix + n)
    ensures BuildFromInternational(rules, bare) == Some(Build(rule, n))
  {
    if bare == rule.callingCode + n {
      BehindOwnCode(rules, rule, n, n);
    } else {
      assert (rule.nationalPrefix + n)[|rule.nationalPrefix|..] == n;
      BehindOwnCode(rules, rule, rule.nationalPrefix + n, n);
    }
  }

  lemma {:induction false} BehindOwnCode(rules: seq<CountryRule>, rule: CountryRule, rest: string, n: string)
    requires WellFormed(rules) && rule in rules && |n| in rule.lengths && StripTrunk(rule, rest) == n
    ensures BuildFromInternational(rules, rule.callingCode + rest) == Some(Build(rule, n))
  {
    FindsOwnRule(rules, rule, rest);
    assert (rule.callingCode + rest)[|rule.callingCode|..] == rest;
  }

  /** All the ways of writing a legal subscriber number come to one record. */
  lemma {:induction false} SpellingsAgree(rules: seq<CountryRule>, rule: CountryRule, n: string, text: string)
    requires WellFormed(rules) && rule in rules && |n| in rule.lengths
    requires Spells(rule, n, text)
    ensures NormalisePhone(rules, text, rule.iso2) == Some(Build(rule, n))
  {
    RuleOf(rules, rule, n);
    var t, cc := rule.nationalPrefix, rule.callingCode;
    if SpellsInternational(text, cc + n) {
      SpelledAbroad(rules, rule, n, text, cc + n);
    } else if SpellsInternational(text, cc + (t + n)) {
      SpelledAbroad(rules, rule, n, text, cc + (t + n));
    } else if SpellsPlain(text, n) {
      SpelledPlain(rules, rule, n, text, n);
    } else if SpellsPlain(text, t + n) {
      SpelledPlain(rules, rule, n, text, t + n);
    } else {
      SpelledPlain(rules, rule, n, text, cc + n);
    }
  }

  lemma {:induction false} SpelledAbroad(rules: seq<CountryRule>, rule: CountryRule, n: string, text: string, d: string)
    requires WellFormed(rules) && rule in rules && |n| in rule.lengths && SpellsInternational(text, d)
    requires d == rule.callingCode + n || d == rule.callingCode + (rule.nationalPrefix + n)
    ensures NormalisePhone(rules, text, rule.iso2) == Some(Build(rule, n))
  {
    RuleOf(rules, rule, n);
    InternationalRead(text, d);
    InternationalDigits(rules, rule, n, d);
  }

  lemma {:induction false} SpelledPlain(rules: seq<CountryRule>, rule: CountryRule, n: string, text: string, d: string)
    requires WellFormed(rules) && rule in rules && |n| in rule.lengths && SpellsPlain(text, d)
    requires d == n || d == rule.nationalPrefix + n || d == rule.callingCode + n
    ensures NormalisePhone(rules, text, rule.iso2) == Some(Build(rule, n))
  {
    RuleOf(rules, rule, n);
    ReadsPlain(rules, text, d, rule.iso2);
    PlainDigits(rules, rule, n, d);
  }

  lemma {:induction false} ReadsPlain(rules: seq<CountryRule>, text: string, d: string, country: string)
    requires SpellsPlain(text, d)
    ensures NormalisePhone(rules, text, country) == NormaliseBare(rules, d, false, country)
  {
    PlainRead(text, d);
  }

  /** Two legal numbers, of one country or two, never merge. */
  lemma {:induction false} NumbersStayApart(rules: seq<CountryRule>, a: CountryRule, n: string, b: CountryRule,
                                            m: string)
    requires WellFormed(rules) && a in rules && b in rules
    ensures Build(a, n).e164 == Build(b, m).e164 <==> a == b && n == m
  {
    if Build(a, n).e164 == Build(b, m).e164 {
      assert Build(a, n).e164[1..] == a.callingCode + n;
      assert Build(b, m).e164[1..] == b.callingCode + m;
      FindsOwnRule(rules, a, n);
      FindsOwnRule(rules, b, m);
      assert (a.callingCode + n)[|a.callingCode|..] == n;
      assert (b.callingCode + m)[|a.callingCode|..] == m;
    }
  }

  /** The six plain spellings of a number, without separators. */
  function PlainSpelling(rule: CountryRule, n: string, k: nat): string
    requires k < 6
  {
    var t, cc := rule.nationalPrefix, rule.callingCode;
    if k == 0 then n else if k == 1 then t + n else if k == 2 then cc + n
    else if k == 3 then "+" + (cc + n) else if k == 4 then "00" + (cc + n) else "+" + (cc + (t + n))
  }

  lemma {:induction false} DigitText(d: string)
    requires AllDigits(d) && d != ""
    ensures Trim(d) == d && (HadPlus(d) <==> "00" <= d)
    ensures BareDigits(d) == if "00" <= d then d[2..] else d
  {
    TrimmedEnds(d);
    DifferAt("+", d, 0);
    var bare := if "00" <= d then d[2..] else d;
    DigitsOnlyOfDigits(bare);
  }

  lemma {:induction false} DigitTextReads(rules: seq<CountryRule>, d: string, country: string)
    requires AllDigits(d) && d != ""
    ensures NormalisePhone(rules, d, country)
         == NormaliseBare(rules, if "00" <= d then d[2..] else d, "00" <= d, country)
  {
    DigitText(d);
  }

  /** A text that begins 00 is read without it and so loses digits a full number needs. */
  lemma {:induction false} ZerosLoseDigits(rules: seq<CountryRule>, rule: CountryRule, n: string, d: string)
    requires WellFormed(rules) && AllDigits(d) && "00" <= d && |d| - 2 < |rule.callingCode + n|
    ensures NormalisePhone(rules, d, rule.iso2) != Some(Build(rule, n))
  {
    DigitTextReads(rules, d, rule.iso2);
    InternationalIsCanonical(rules, d[2..]);
  }

  lemma {:induction false} PlainSpellingReads(rules: seq<CountryRule>, rule: CountryRule, n: string, d: string)
    requires WellFormed(rules) && rule in rules && AllDigits(n) && |n| in rule.lengths
    requires d == n || d == rule.nationalPrefix + n || d == rule.callingCode + n
    requires !("00" <= d)
    ensures NormalisePhone(rules, d, rule.iso2) == Some(Build(rule, n))
  {
    RuleOf(rules, rule, n);
    DigitTextReads(rules, d, rule.iso2);
    PlainDigits(rules, rule, n, d);
  }

  lemma {:induction false} PlusSpellingReads(rules: seq<CountryRule>, rule: CountryRule, n: string, d: string)
    requires WellFormed(rules) && rule in rules && AllDigits(n) && |n| in rule.lengths
    requires d == rule.callingCode + n || d == rule.callingCode + (rule.nationalPrefix + n)
    ensures NormalisePhone(rules, "+" + d, rule.iso2) == Some(Build(rule, n))
  {
    RuleOf(rules, rule, n);
    ReadsPlus(rules, d, rule.iso2);
    InternationalDigits(rules, rule, n, d);
  }

  lemma {:induction false} ZerosSpellingReads(rules: seq<CountryRule>, rule: CountryRule, n: string)
    requires WellFormed(rules) && rule in rules && AllDigits(n) && |n| in rule.lengths
    ensures NormalisePhone(rules, "00" + (rule.callingCode + n), rule.iso2) == Some(Build(rule, n))
  {
    RuleOf(rules, rule, n);
    var d := "00" + (rule.callingCode + n);
    DigitTextReads(rules, d, rule.iso2);
    assert d[2..] == rule.callingCode + n;
    InternationalDigits(rules, rule, n, d[2..]);
  }

  lemma {:induction false} PlainSpellingsRead(rules: seq<CountryRule>, rule: CountryRule, n: string, k: nat)
    requires WellFormed(rules) && rule in rules && AllDigits(n) && |n| in rule.lengths && k < 6
    requires !("00" <= n) && !("00" <= rule.nationalPrefix + n)
    ensures NormalisePhone(rules, PlainSpelling(rule, n, k), rule.iso2) == Some(Build(rule, n))
  {
    RuleOf(rules, rule, n);
    var t, cc := rule.nationalPrefix, rule.callingCode;
    if k == 0 {
      PlainSpellingReads(rules, rule, n, n);
    } else if k == 1 {
      PlainSpellingReads(rules, rule, n, t + n);
    } else if k == 2 {
      DifferAt("00", cc + n, 0);
      PlainSpellingReads(rules, rule, n, cc + n);
    } else if k == 3 {
      PlusSpellingReads(rules, rule, n, cc + n);
    } else if k == 4 {
      ZerosSpellingReads(rules, rule, n);
    } else {
      PlusSpellingReads(rules, rule, n, cc + (t + n));
    }
  }

  /**
   * The six spellings agree exactly when neither the number nor the number behind its trunk
   * prefix begins with the international access code 00.
   */
  lemma {:induction false} SpellingsAgreeExactly(rules: seq<CountryRule>, rule: CountryRule, n: string)
    requires WellFormed(rules) && rule in rules && AllDigits(n) && |n| in rule.lengths
    ensures (forall k :: 0 <= k < 6 ==>
              NormalisePhone(rules, PlainSpelling(rule, n, k), rule.iso2) == Some(Build(rule, n)))
            <==> !("00" <= n) && !("00" <= rule.nationalPrefix + n)
  {
    RuleOf(rules, rule, n);
    if "00" <= n {
      ZerosLoseDigits(rules, rule, n, PlainSpelling(rule, n, 0));
    } else if "00" <= rule.nationalPrefix + n {
      ZerosLoseDigits(rules, rule, n, PlainSpelling(rule, n, 1));
    } else {
      forall k | 0 <= k < 6
        ensures NormalisePhone(rules, PlainSpelling(rule, n, k), rule.iso2) == Some(Build(rule, n))
      {
        PlainSpellingsRead(rules, rule, n, k);
      }
    }
  }

  // ----- Numbers of no rule -----

  /** Some rule reads the digits, behind its calling code with or without a trunk prefix. */
  ghost predicate HasRule(rules: seq<CountryRule>, d: string) {
    exists rule, n :: rule in rules && IsBehindCode(rule, n, d)
  }

  predicate IsBehindCode(rule: CountryRule, n: string, d: string) {
    && |n| in rule.lengths
    && (d == rule.callingCode + n || d == rule.callingCode + (rule.nationalPrefix + n))
  }

  /** Kept as an E.164 number of no country, when it is one. */
  function Foreign(d: string): Option<NormalisedPhone> {
    if 7 <= |d| <= 15 && d[0] != '0' then Some(NormalisedPhone("+" + d, d, None, "+" + d)) else None
  }

  /** A number that no rule reads, of an unknown country or a wrong length, is kept without a
      country or, when it is no E.164 number, refused. */
  lemma {:induction false} NoRuleKept(rules: seq<CountryRule>, d: string, country: string)
    requires AllDigits(d) && d != "" && !HasRule(rules, d)
    ensures NormalisePhone(rules, "+" + d, country) == Foreign(d)
  {
    ReadsPlus(rules, d, country);
    ForeignIsUnknown(d);
    NoRuleFound(rules, d);
  }

  lemma {:induction false} ForeignIsUnknown(d: string)
    requires AllDigits(d)
    ensures UnknownCountry(d) == Foreign(d)
  {
    assert ("+" + d)[1..] == d;
  }

  lemma {:induction false} NoRuleFound(rules: seq<CountryRule>, d: string)
    requires !HasRule(rules, d)
    ensures BuildFromInternational(rules, d) == UnknownCountry(d)
  {
    FindsLongest(rules, d);
    match FindByCode(SortByCodeLength(rules), d)
    case None =>
    case Some(rule) => NotBehindCode(rules, rule, d, d[|rule.callingCode|..]);
  }

  lemma {:induction false} NotBehindCode(rules: seq<CountryRule>, rule: CountryRule, d: string, rest: string)
    requires rule in rules && d == rule.callingCode + rest && !HasRule(rules, d)
    ensures |StripTrunk(rule, rest)| !in rule.lengths
  {
    var n := StripTrunk(rule, rest);
    assert n != rest ==> rest == rule.nationalPrefix + n;
    assert |n| in rule.lengths ==> IsBehindCode(rule, n, d);
  }

  /** A number that a rule reads is that rule's, whatever the default country. */
  lemma {:induction false} RuleReads(rules: seq<CountryRule>, rule: CountryRule, n: string, d: string, country: string)
    requires WellFormed(rules) && rule in rules && AllDigits(d) && IsBehindCode(rule, n, d)
    ensures NormalisePhone(rules, "+" + d, country) == Some(Build(rule, n))
  {
    RuleOf(rules, rule, n);
    ReadsPlus(rules, d, country);
    InternationalDigits(rules, rule, n, d);
  }

  /** The digits are none of the three ways the default country's rule reads them. */
  ghost predicate NotNational(rules: seq<CountryRule>, d: string, country: string) {
    forall rule, n :: rule in rules && rule.iso2 == country && |n| in rule.lengths ==>
      !IsNational(rule, n, d)
  }

  predicate IsNational(rule: CountryRule, n: string, d: string) {
    d == n || d == rule.nationalPrefix + n || d == rule.callingCode + n
  }

  /** Such digits, or any behind 00, are read as if a plus stood before them. */
  lemma {:induction false} OtherwiseInternational(rules: seq<CountryRule>, d: string, country: string)
    requires AllDigits(d) && d != ""
    ensures NormalisePhone(rules, "00" + d, country) == NormalisePhone(rules, "+" + d, country)
    ensures !("00" <= d) && NotNational(rules, d, country) ==>
              NormalisePhone(rules, d, country) == NormalisePhone(rules, "+" + d, country)
  {
    BehindZeros(rules, d, country);
    if !("00" <= d) && NotNational(rules, d, country) {
      ReadsPlus(rules, d, country);
      DigitTextReads(rules, d, country);
      NotNationalRead(rules, d, country);
    }
  }

  lemma {:induction false} BehindZeros(rules: seq<CountryRule>, d: string, country: string)
    requires AllDigits(d) && d != ""
    ensures NormalisePhone(rules, "00" + d, country) == NormalisePhone(rules, "+" + d, country)
  {
    ReadsPlus(rules, d, country);
    ReadsZeros(rules, d, "00" + d, country);
  }

  lemma {:induction false} ReadsZeros(rules: seq<CountryRule>, d: string, text: string, country: string)
    requires AllDigits(d) && text == "00" + d
    ensures NormalisePhone(rules, text, country) == NormaliseBare(rules, d, true, country)
  {
    assert "00" <= text && text[2..] == d;
    DigitText(text);
  }

  lemma {:induction false} NotNationalRead(rules: seq<CountryRule>, d: string, country: string)
    requires NotNational(rules, d, country)
    ensures NormaliseBare(rules, d, false, country) == NormaliseBare(rules, d, true, country)
  {
    FindsIso(rules, country);
    if FindByIso(rules, country).Some? {
      NotRead(rules, FindByIso(rules, country).value, d, country);
    }
  }

  lemma {:induction false} FindsIso(rules: seq<CountryRule>, iso2: string)
    ensures FindByIso(rules, iso2).Some? ==>
              FindByIso(rules, iso2).value in rules && FindByIso(rules, iso2).value.iso2 == iso2
  {
    if rules != [] && rules[0].iso2 != iso2 {
      FindsIso(rules[1..], iso2);
    }
  }

  lemma {:induction false} NotRead(rules: seq<CountryRule>, rule: CountryRule, d: string, country: string)
    requires rule in rules && rule.iso2 == country && NotNational(rules, d, country)
    ensures FromDefaultCountry(rules, rule, d) == BuildFromInternational(rules, d)
  {
    var t, cc := rule.nationalPrefix, rule.callingCode;
    if t <= d {
      assert d == t + d[|t|..] && !(IsNational(rule, d[|t|..], d) && |d[|t|..]| in rule.lengths);
    }
    if cc <= d {
      assert d == cc + d[|cc|..] && !(IsNational(rule, d[|cc|..], d) && |d[|cc|..]| in rule.lengths);
    }
    assert !(IsNational(rule, d, d) && |d| in rule.lengths);
  }

  // ----- The record and the table in use -----

  /** The printed form is the e164 with a blank behind the calling code and, from nine digits
      on, another behind the next three. */
  lemma {:induction false} FormattedGroups(rule: CountryRule, n: string)
    ensures var r, c := Build(rule, n), |rule.callingCode| + 1;
            && r.countryIso2 == Some(rule.iso2) && |r.formatted| > c && r.formatted[c] == ' '
            && if |n| < 9 then r.formatted[..c] + r.formatted[c + 1..] == r.e164
               else
                 && |r.formatted| > c + 4 && r.formatted[c + 4] == ' '
                 && r.formatted[..c] + r.formatted[c + 1..c + 4] + r.formatted[c + 5..] == r.e164
  {
    var cc := rule.callingCode;
    if |n| >= 9 {
      assert "+" + cc + n[..3] + n[3..] == "+" + (cc + n);
    } else {
      assert "+" + cc + n == "+" + (cc + n);
    }
  }

  /** Trunk prefix, calling code and length of a country. */
  predicate Dials(country: string, trunk: string, code: string, length: nat) {
    exists rule :: rule in COUNTRY_RULES && rule == CountryRule(country, code, trunk, [length])
  }

  lemma {:induction false} CountriesDial()
    ensures Dials("PK", "0", "92", 10) && Dials("AE", "0", "971", 9) && Dials("GB", "0", "44", 10)
    ensures Dials("US", "1", "1", 10) && Dials("IN", "0", "91", 10) && Dials("SA", "0", "966", 9)
  {
    assert COUNTRY_RULES[0] in COUNTRY_RULES && COUNTRY_RULES[1] in COUNTRY_RULES && COUNTRY_RULES[2] in COUNTRY_RULES;
    assert COUNTRY_RULES[3] in COUNTRY_RULES && COUNTRY_RULES[4] in COUNTRY_RULES && COUNTRY_RULES[5] in COUNTRY_RULES;
  }

  /** In each country a number behind its trunk prefix and the one behind its calling code are
      the same number. */
  lemma {:induction false} NationalIsInternational(country: string, trunk: string, code: string, n: string)
    requires Dials(country, trunk, code, |n|) && AllDigits(n) && !("00" <= trunk + n)
    ensures NormalisePhone(COUNTRY_RULES, trunk + n, country)
         == NormalisePhone(COUNTRY_RULES, "+" + (code + n), country)
    ensures NormalisePhone(COUNTRY_RULES, trunk + n, country).Some?
    ensures NormalisePhone(COUNTRY_RULES, trunk + n, country).value.e164 == "+" + (code + n)
  {
    CountryRulesWellFormed();
    var rule :| rule in COUNTRY_RULES && rule == CountryRule(country, code, trunk, [|n|]);
    assert |n| in rule.lengths;
    RuleOf(COUNTRY_RULES, rule, n);
    PlainSpellingReads(COUNTRY_RULES, rule, n, trunk + n);
    PlusSpellingReads(COUNTRY_RULES, rule, n, code + n);
  }
}
