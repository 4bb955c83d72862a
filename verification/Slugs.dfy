/**
 * URL slugs (`slugify` in lib/ids.ts).  Unicode normalisation and lower-casing are given
 * functions that leave slug text alone.
 */
module Slugs {
  import opened Text

  const MAX_LENGTH: nat := 48

  datatype Unicode = Unicode(decompose: string -> string, lower: string -> string)

  /** Digits, and the letters that are not capitals already. */
  predicate IsSlugLetter(c: char): (r: bool)
    ensures r <==> IsDigit(c) || UpperChar(c) != c
  {
    'a' <= c <= 'z' || '0' <= c <= '9'
  }

  predicate IsSlugText(s: string) {
    forall i :: 0 <= i < |s| ==> IsSlugLetter(s[i]) || s[i] == '-'
  }

  ghost predicate LeavesSlugText(u: Unicode) {
    forall s :: IsSlugText(s) ==> u.decompose(s) == s && u.lower(s) == s
  }

  /** The combining marks U+0300 to U+036F taken out. */
  function WithoutMarks(s: string): string {
    if s == "" then ""
    else (if '\U{300}' <= s[0] <= '\U{36F}' then [] else [s[0]]) + WithoutMarks(s[1..])
  }

  /** Every run of other characters becomes one hyphen. */
  function Collapse(s: string, inRun: bool): (r: string)
    ensures IsSlugText(r) && SingleHyphens(r)
    ensures inRun && r != "" ==> r[0] != '-'
  {
    if s == "" then ""
    else if IsSlugLetter(s[0]) then [s[0]] + Collapse(s[1..], false)
    else (if inRun then "" else "-") + Collapse(s[1..], true)
  }

  predicate SingleHyphens(s: string) {
    forall i :: 0 <= i < |s| - 1 ==> !(s[i] == '-' && s[i + 1] == '-')
  }

  function TrimHyphensLeft(s: string): (r: string)
    ensures r == "" || r[0] != '-'
    ensures |r| <= |s| && r == s[|s| - |r|..]
  {
    if s != "" && s[0] == '-' then TrimHyphensLeft(s[1..]) else s
  }

  function TrimHyphensRight(s: string): (r: string)
    ensures r == "" || r[|r| - 1] != '-'
    ensures r <= s
  {
    if s != "" && s[|s| - 1] == '-' then TrimHyphensRight(s[..|s| - 1]) else s
  }

  /** What the character classes are applied to. */
  function Folded(u: Unicode, input: string): string {
    u.lower(WithoutMarks(u.decompose(input)))
  }

  function Strip(s: string): string {
    TrimHyphensRight(TrimHyphensLeft(s))
  }

  /** The slug before the cut at 48 characters. */
  function Uncut(u: Unicode, input: string): string {
    Strip(Collapse(Folded(u, input), false))
  }

  function Cut(s: string): string {
    if |s| <= MAX_LENGTH then s else s[..MAX_LENGTH]
  }

  function Slugify(u: Unicode, input: string): string {
    Cut(Uncut(u, input))
  }

  // ----- Shape -----

  predicate EndsInHyphen(s: string) {
    s != "" && s[|s| - 1] == '-'
  }

  /** Slug letters and hyphens, none of them leading or doubled. */
  predicate IsSlugShaped(s: string) {
    IsSlugText(s) && SingleHyphens(s) && (s == "" || s[0] != '-')
  }

  lemma {:induction false} LeftShape(c: string)
    requires IsSlugText(c) && SingleHyphens(c)
    ensures IsSlugShaped(TrimHyphensLeft(c))
  {
    if c != "" && c[0] == '-' {
      assert IsSlugText(c[1..]);
      assert SingleHyphens(c[1..]) by { TailSingle(c); }
      LeftShape(c[1..]);
    }
  }

  lemma {:induction false} TailSingle(s: string)
    requires s != "" && SingleHyphens(s)
    ensures SingleHyphens(s[1..])
  {
    forall i | 0 <= i < |s[1..]| - 1
      ensures !(s[1..][i] == '-' && s[1..][i + 1] == '-')
    {
      var k := i + 1;
      assert s[1..][i] == s[k] && s[1..][i + 1] == s[k + 1];
    }
  }

  lemma {:induction false} StripShape(c: string)
    requires IsSlugText(c) && SingleHyphens(c)
    ensures IsSlugShaped(Strip(c)) && !EndsInHyphen(Strip(c))
  {
    LeftShape(c);
    RightShape(TrimHyphensLeft(c));
  }

  lemma {:induction false} RightShape(s: string)
    requires IsSlugShaped(s)
    ensures IsSlugShaped(TrimHyphensRight(s)) && !EndsInHyphen(TrimHyphensRight(s))
  {
    var r := TrimHyphensRight(s);
    assert forall i :: 0 <= i < |r| ==> r[i] == s[i];
  }

  lemma {:induction false} CutShape(s: string)
    requires IsSlugShaped(s) && !EndsInHyphen(s)
    ensures IsSlugShaped(Cut(s)) && |Cut(s)| <= MAX_LENGTH
    ensures EndsInHyphen(Cut(s)) <==> |s| > MAX_LENGTH && s[MAX_LENGTH - 1] == '-'
  {
  }

  /**
   * Every slug is shaped and at most 48 long, and ends in a hyphen exactly when the cut fell
   * right behind one.
   */
  lemma {:induction false} SlugShape(u: Unicode, input: string)
    ensures IsSlugShaped(Slugify(u, input)) && |Slugify(u, input)| <= 48
    ensures EndsInHyphen(Slugify(u, input)) <==> |Uncut(u, input)| > 48 && Uncut(u, input)[47] == '-'
  {
    StripShape(Collapse(Folded(u, input), false));
    CutShape(Uncut(u, input));
  }

  // ----- What a slug says -----

  /** A combining mark adds nothing, and text without any is left as it is. */
  lemma {:induction false} MarkIgnored(a: string, mark: char, b: string)
    requires '\U{300}' <= mark <= '\U{36F}'
    ensures WithoutMarks(a + [mark] + b) == WithoutMarks(a + b)
  {
    var s := a + [mark] + b;
    if a == "" {
      assert s[1..] == b && a + b == b;
    } else {
      assert s[1..] == a[1..] + [mark] + b && (a + b)[1..] == a[1..] + b;
      MarkIgnored(a[1..], mark, b);
    }
  }

  lemma {:induction false} UnmarkedKept(s: string)
    requires forall i :: 0 <= i < |s| ==> !('\U{300}' <= s[i] <= '\U{36F}')
    ensures WithoutMarks(s) == s
  {
    if s != "" {
      UnmarkedKept(s[1..]);
    }
  }

  predicate IsSlugWord(w: string) {
    w != "" && forall i :: 0 <= i < |w| ==> IsSlugLetter(w[i])
  }

  predicate IsGap(gap: string) {
    forall i :: 0 <= i < |gap| ==> !IsSlugLetter(gap[i])
  }

  /** Words of slug letters, with other characters in front, between any two and behind. */
  datatype Spaced = Spaced(front: string, words: seq<string>, gaps: seq<string>)

  /** `gaps[i]` stands behind `words[i]`; only the last may be empty. */
  predicate IsSpaced(p: Spaced) {
    && IsGap(p.front) && |p.gaps| == |p.words|
    && (forall i :: 0 <= i < |p.words| ==> IsSlugWord(p.words[i]) && IsGap(p.gaps[i]))
    && (forall i :: 0 <= i < |p.words| - 1 ==> p.gaps[i] != "")
  }

  function Behind(words: seq<string>, gaps: seq<string>): string
    requires |gaps| == |words|
  {
    if words == [] then "" else words[0] + gaps[0] + Behind(words[1..], gaps[1..])
  }

  function TextOf(p: Spaced): string
    requires |p.gaps| == |p.words|
  {
    p.front + Behind(p.words, p.gaps)
  }

  lemma {:induction false} TailSpaced(front: string, words: seq<string>, gaps: seq<string>)
    requires IsSpaced(Spaced(front, words, gaps)) && words != []
    ensures IsSpaced(Spaced(gaps[0], words[1..], gaps[1..]))
  {
    var w, g := words[1..], gaps[1..];
    forall i | 0 <= i < |w|
      ensures IsSlugWord(w[i]) && IsGap(g[i]) && (i < |w| - 1 ==> g[i] != "")
    {
      assert w[i] == words[i + 1] && g[i] == gaps[i + 1];
    }
  }

  /** Every text is words and gaps in just one such way; here is one. */
  lemma {:induction false} Space(s: string) returns (p: Spaced)
    ensures IsSpaced(p) && TextOf(p) == s
  {
    if s == "" {
      p := Spaced("", [], []);
    } else {
      var rest := Space(s[1..]);
      assert s == [s[0]] + s[1..];
      if !IsSlugLetter(s[0]) {
        p := Spaced([s[0]] + rest.front, rest.words, rest.gaps);
        assert TextOf(p) == [s[0]] + TextOf(rest);
      } else if rest.front == "" && rest.words != [] {
        p := LongerWord(s[0], rest);
      } else {
        p := Spaced("", [[s[0]]] + rest.words, [rest.front] + rest.gaps);
        assert p.words[1..] == rest.words && p.gaps[1..] == rest.gaps;
        assert Behind(p.words, p.gaps) == [s[0]] + rest.front + Behind(rest.words, rest.gaps);
      }
    }
  }

  lemma {:induction false} LongerWord(c: char, rest: Spaced) returns (p: Spaced)
    requires IsSpaced(rest) && rest.front == "" && rest.words != [] && IsSlugLetter(c)
    ensures IsSpaced(p) && TextOf(p) == [c] + TextOf(rest)
  {
    p := rest.(words := [[c] + rest.words[0]] + rest.words[1..]);
    assert p.words[1..] == rest.words[1..];
    assert Behind(p.words, p.gaps) == [c] + Behind(rest.words, rest.gaps);
  }

  /** Slug letters in front are taken over as they are. */
  lemma {:induction false} CollapseWord(w: string, rest: string, inRun: bool)
    requires IsSlugWord(w)
    ensures Collapse(w + rest, inRun) == w + Collapse(rest, false)
  {
    var s := w + rest;
    assert s[1..] == w[1..] + rest;
    if |w| > 1 {
      CollapseWord(w[1..], rest, false);
      assert w == [w[0]] + w[1..];
    } else {
      assert s[1..] == rest;
    }
  }

  /** Other characters in front become one hyphen, or none behind an earlier one. */
  lemma {:induction false} CollapseGap(gap: string, rest: string, inRun: bool)
    requires IsGap(gap) && gap != ""
    ensures Collapse(gap + rest, inRun) == (if inRun then "" else "-") + Collapse(rest, true)
  {
    var s := gap + rest;
    assert s[1..] == gap[1..] + rest;
    if |gap| > 1 {
      CollapseGap(gap[1..], rest, true);
    } else {
      assert s[1..] == rest;
    }
  }

  /** What stands behind the last word: a hyphen for a gap that is not empty. */
  function TailHyphen(gaps: seq<string>): string {
    if gaps != [] && gaps[|gaps| - 1] != "" then "-" else ""
  }

  lemma {:induction false} CollapseBehind(words: seq<string>, gaps: seq<string>, inRun: bool)
    requires IsSpaced(Spaced("", words, gaps)) && words != []
    ensures Collapse(Behind(words, gaps), inRun) == Join(words, '-') + TailHyphen(gaps)
    decreases words
  {
    if |words| == 1 {
      LastWord(words, gaps, inRun);
    } else {
      BehindAgain(words, gaps);
      CollapseBehind(words[1..], gaps[1..], true);
      WordAndGap(words[0], gaps[0], Behind(words[1..], gaps[1..]), inRun);
      assert Join(words, '-') == words[0] + ['-'] + Join(words[1..], '-');
    }
  }

  lemma {:induction false} WordAndGap(w: string, gap: string, rest: string, inRun: bool)
    requires IsSlugWord(w) && IsGap(gap) && gap != ""
    ensures Collapse(w + gap + rest, inRun) == w + "-" + Collapse(rest, true)
  {
    assert w + gap + rest == w + (gap + rest);
    CollapseWord(w, gap + rest, inRun);
    CollapseGap(gap, rest, false);
  }

  lemma {:induction false} LastWord(words: seq<string>, gaps: seq<string>, inRun: bool)
    requires IsSpaced(Spaced("", words, gaps)) && |words| == 1
    ensures Collapse(Behind(words, gaps), inRun) == Join(words, '-') + TailHyphen(gaps)
  {
    assert Behind(words, gaps) == words[0] + (gaps[0] + "");
    CollapseWord(words[0], gaps[0] + "", inRun);
    if gaps[0] != "" {
      CollapseGap(gaps[0], "", false);
    }
  }

  lemma {:induction false} BehindAgain(words: seq<string>, gaps: seq<string>)
    requires IsSpaced(Spaced("", words, gaps)) && |words| > 1
    ensures IsSpaced(Spaced("", words[1..], gaps[1..])) && TailHyphen(gaps[1..]) == TailHyphen(gaps)
  {
    TailSpaced("", words, gaps);
  }

  lemma {:induction false} JoinEnds(words: seq<string>)
    requires words != [] && forall i :: 0 <= i < |words| ==> IsSlugWord(words[i])
    ensures Join(words, '-') != "" && Join(words, '-')[0] != '-'
    ensures Join(words, '-')[|Join(words, '-')| - 1] != '-'
  {
    if |words| > 1 {
      JoinEnds(words[1..]);
    }
  }

  lemma {:induction false} StripAround(hyphens: string, middle: string, tail: string)
    requires hyphens == "" || hyphens == "-"
    requires tail == "" || tail == "-"
    requires middle != "" && middle[0] != '-' && middle[|middle| - 1] != '-'
    ensures Strip(hyphens + (middle + tail)) == middle
  {
    LeftAround(hyphens, middle + tail);
    RightAround(middle, tail);
  }

  lemma {:induction false} LeftAround(hyphens: string, s: string)
    requires (hyphens == "" || hyphens == "-") && s != "" && s[0] != '-'
    ensures TrimHyphensLeft(hyphens + s) == s
  {
    if hyphens == "" {
      assert hyphens + s == s;
    } else {
      assert (hyphens + s)[1..] == s;
    }
  }

  lemma {:induction false} RightAround(middle: string, tail: string)
    requires (tail == "" || tail == "-") && middle != "" && middle[|middle| - 1] != '-'
    ensures TrimHyphensRight(middle + tail) == middle
  {
    var s := middle + tail;
    if tail == "" {
      assert s == middle;
    } else {
      assert s[..|s| - 1] == middle;
    }
  }

  /**
   * However the folded text is words of slug letters with other characters around them, its
   * slug before the cut is those words with one hyphen between neighbours.
   */
  lemma {:induction false} SlugOfWords(p: Spaced)
    requires IsSpaced(p)
    ensures Strip(Collapse(TextOf(p), false)) == Join(p.words, '-')
  {
    if p.words == [] {
      assert TextOf(p) == p.front + "";
      if p.front != "" {
        CollapseGap(p.front, "", false);
        assert TrimHyphensLeft("-") == "";
      }
    } else {
      var behind := Behind(p.words, p.gaps);
      CollapseBehind(p.words, p.gaps, p.front != "");
      JoinEnds(p.words);
      if p.front != "" {
        CollapseGap(p.front, behind, false);
      } else {
        assert TextOf(p) == behind;
      }
      var front := if p.front != "" then "-" else "";
      StripAround(front, Join(p.words, '-'), TailHyphen(p.gaps));
      assert front == "" ==> front + (Join(p.words, '-') + TailHyphen(p.gaps)) == Collapse(TextOf(p), false);
    }
  }

  /** So a slug is the words of the folded text, hyphenated, up to 48 characters. */
  lemma {:induction false} SlugSays(u: Unicode, input: string, p: Spaced)
    requires IsSpaced(p) && TextOf(p) == u.lower(WithoutMarks(u.decompose(input)))
    ensures Slugify(u, input) == Join(p.words, '-')[..if |Join(p.words, '-')| <= 48 then |Join(p.words, '-')| else 48]
  {
    SlugOfWords(p);
  }

  // ----- Fixed points -----

  lemma {:induction false} CollapseShaped(s: string, inRun: bool)
    requires IsSlugText(s) && SingleHyphens(s) && (inRun && s != "" ==> s[0] != '-')
    ensures Collapse(s, inRun) == s
  {
    if s != "" {
      TailSingle(s);
      assert s[0] == '-' && |s| > 1 ==> s[0 + 1] != '-';
      CollapseShaped(s[1..], !IsSlugLetter(s[0]));
    }
  }

  lemma {:induction false} WithoutMarksOfSlug(s: string)
    requires IsSlugText(s)
    ensures WithoutMarks(s) == s
  {
    if s != "" {
      WithoutMarksOfSlug(s[1..]);
    }
  }

  /** The text without a trailing hyphen. */
  function Clipped(s: string): string {
    if EndsInHyphen(s) then s[..|s| - 1] else s
  }

  lemma {:induction false} ClippedShape(s: string)
    requires IsSlugShaped(s)
    ensures IsSlugShaped(Clipped(s)) && !EndsInHyphen(Clipped(s)) && TrimHyphensRight(s) == Clipped(s)
  {
    if EndsInHyphen(s) && |s| > 1 {
      var k := |s| - 2;
      assert s[k + 1] == '-';
    }
  }

  /** Before the cut, shaped text only loses a trailing hyphen. */
  lemma {:induction false} UncutOfShaped(u: Unicode, s: string)
    requires LeavesSlugText(u) && IsSlugShaped(s)
    ensures Uncut(u, s) == Clipped(s)
  {
    WithoutMarksOfSlug(s);
    CollapseShaped(s, false);
    ClippedShape(s);
    assert TrimHyphensLeft(s) == s;
  }

  /** A slug is a fixed point exactly when it does not end in a hyphen. */
  lemma {:induction false} SlugFixedPoint(u: Unicode, input: string)
    requires LeavesSlugText(u)
    ensures Slugify(u, Slugify(u, input)) == Slugify(u, input) <==> !EndsInHyphen(Slugify(u, input))
  {
    SlugShape(u, input);
    UncutOfShaped(u, Slugify(u, input));
  }

  /** The second application always reaches the fixed point. */
  lemma {:induction false} SlugifyTwice(u: Unicode, input: string)
    requires LeavesSlugText(u)
    ensures var twice := Slugify(u, Slugify(u, input));
            Slugify(u, twice) == twice && !EndsInHyphen(twice)
  {
    var once := Slugify(u, input);
    SlugShape(u, input);
    UncutOfShaped(u, once);
    ClippedShape(once);
    UncutOfShaped(u, Clipped(once));
  }

  /** Forty-seven letters, a hyphen and one more letter: the slug ends in the hyphen, and the
      slug of the slug is another one. */
  lemma {:induction false} HyphenCanStay(u: Unicode, letters: string, c: char)
    requires LeavesSlugText(u)
    requires |letters| == MAX_LENGTH - 1 && (forall i :: 0 <= i < |letters| ==> IsSlugLetter(letters[i]))
    requires IsSlugLetter(c)
    ensures Slugify(u, letters + ['-', c]) == letters + ['-']
    ensures Slugify(u, letters + ['-']) == letters
  {
    var s, cut := letters + ['-', c], letters + ['-'];
    assert IsSlugShaped(s) && IsSlugShaped(cut);
    UncutOfShaped(u, s);
    UncutOfShaped(u, cut);
    assert s[..MAX_LENGTH] == cut && cut[..|cut| - 1] == letters;
  }
}
