/**
 * The .env reader of the readiness audit (`loadDotEnv` in tools/production-readiness.ts).
 */
module DotEnv {
  import opened Text

  type Env = map<string, string>

  // ----- The reader -----

  function IndexOf(s: string, c: char): (i: int)
    ensures -1 <= i < |s|
  {
    if s == "" then -1
    else if s[0] == c then 0
    else
      var rest := IndexOf(s[1..], c);
      if rest == -1 then -1 else rest + 1
  }

  lemma {:induction false} IndexOfIsFirst(s: string, c: char)
    requires IndexOf(s, c) >= 0
    ensures s[IndexOf(s, c)] == c && c !in s[..IndexOf(s, c)]
  {
    if s[0] != c {
      IndexOfIsFirst(s[1..], c);
      var rest := IndexOf(s[1..], c);
      assert s[..rest + 1] == [s[0]] + s[1..][..rest];
    }
  }

  predicate IsQuoted(v: string, quote: char) {
    v != "" && v[0] == quote && v[|v| - 1] == quote
  }

  /** `slice(1, -1)`. */
  function Inner(v: string): string {
    if |v| <= 2 then "" else v[1..|v| - 1]
  }

  predicate IsQuotedValue(v: string) {
    IsQuoted(v, '"') || IsQuoted(v, '\'')
  }

  function Unquote(v: string): string {
    if IsQuotedValue(v) then Inner(v) else v
  }

  datatype Entry = Entry(key: string, value: string)

  /** The entry of a trimmed line that is neither empty nor a comment. */
  function ReadSetting(trimmed: string): Option<Entry> {
    var eq := IndexOf(trimmed, '=');
    if eq > 0 then Some(Entry(Trim(trimmed[..eq]), Unquote(Trim(trimmed[eq + 1..])))) else None
  }

  predicate IsSkipped(trimmed: string) {
    trimmed == "" || trimmed[0] == '#'
  }

  function ReadLine(line: string): Option<Entry> {
    if IsSkipped(Trim(line)) then None else ReadSetting(Trim(line))
  }

  /** `result[key] = val`: on a plain object, text assigned to `__proto__` is ignored. */
  function Assign(env: Env, read: Option<Entry>): Env {
    if read == None || IsPrototype(read.value.key) then env else env[read.value.key := read.value.value]
  }

  predicate IsPrototype(key: string) {
    key == "__proto__"
  }

  function Entries(lines: seq<string>): (entries: seq<Option<Entry>>)
    ensures |entries| == |lines|
    ensures forall i :: 0 <= i < |lines| ==> entries[i] == ReadLine(lines[i])
  {
    seq(|lines|, i requires 0 <= i < |lines| => ReadLine(lines[i]))
  }

  function AssignAll(env: Env, entries: seq<Option<Entry>>): Env
    decreases entries
  {
    if entries == [] then env else AssignAll(Assign(env, entries[0]), entries[1..])
  }

  /** What the file says; no file says nothing. */
  function EnvOf(content: Option<string>): Env {
    match content case None => map[] case Some(text) => AssignAll(map[], Entries(Split(text, '\n')))
  }

  /** The settings after each line. */
  lemma {:induction false} Stages(env: Env, entries: seq<Option<Entry>>) returns (stages: seq<Env>)
    ensures |stages| == |entries| + 1
    ensures stages[0] == env && stages[|entries|] == AssignAll(env, entries)
    ensures forall i :: 0 <= i < |entries| ==> stages[i + 1] == Assign(stages[i], entries[i])
    decreases entries
  {
    if entries == [] {
      stages := [env];
    } else {
      var rest := Stages(Assign(env, entries[0]), entries[1..]);
      stages := [env] + rest;
      forall i | 0 < i < |entries|
        ensures stages[i + 1] == Assign(stages[i], entries[i])
      {
        assert rest[i - 1 + 1] == Assign(rest[i - 1], entries[1..][i - 1]);
      }
    }
  }

  lemma {:induction false} AssignIgnores(env: Env, key: string, val: string)
    ensures IsPrototype(key) ==> Assign(env, Some(Entry(key, val))) == env
    ensures !IsPrototype(key) ==> Assign(env, Some(Entry(key, val))) == env[key := val]
  {
  }

  lemma {:induction false} ReadUnquoted(trimmed: string, eq: nat, raw: string, val: string)
    requires IndexOf(trimmed, '=') == eq > 0 && raw == Trim(trimmed[eq + 1..])
    requires val == if IsQuotedValue(raw) then Inner(raw) else raw
    ensures ReadSetting(trimmed) == Some(Entry(Trim(trimmed[..eq]), val))
  {
  }

  method LoadDotEnv(content: Option<string>) returns (result: Env)
    ensures result == EnvOf(content)
  {
    result := map[];
    if content == None {
      return;
    }
    var lines := Split(content.value, '\n');
    ghost var entries := Entries(lines);
    ghost var stages := Stages(map[], entries);
    for i := 0 to |lines|
      invariant result == stages[i]
    {
      assert stages[i + 1] == Assign(result, entries[i]);
      var trimmed := Trim(lines[i]);
      if IsSkipped(trimmed) {
        continue;
      }
      ghost var read := ReadSetting(trimmed);
      assert entries[i] == read;
      var eqIdx := IndexOf(trimmed, '=');
      if eqIdx > 0 {
        var key := Trim(trimmed[..eqIdx]);
        var val := Trim(trimmed[eqIdx + 1..]);
        ghost var raw := val;
        if IsQuotedValue(val) {
          val := Inner(val);
        }
        ReadUnquoted(trimmed, eqIdx, raw, val);
        AssignIgnores(result, key, val);
        if !IsPrototype(key) {
          result := result[key := val];
        }
      }
    }
  }

  // ----- What can be read at all -----

  predicate IsReadableKey(key: string) {
    && key != "" && Trimmed(key) && '=' !in key && '\n' !in key
    && key[0] != '#' && key != "__proto__"
  }

  /** What a line can yield; `__proto__` is read and then ignored. */
  predicate IsReadableRead(read: Option<Entry>) {
    read.Some? ==>
      (IsReadableKey(read.value.key) || read.value.key == "__proto__") && '\n' !in read.value.value
  }

  predicate IsReadable(env: Env) {
    forall k :: k in env ==> IsReadableKey(k) && '\n' !in env[k]
  }

  lemma {:induction false} TrimKeepsFirst(s: string)
    requires s != "" && !IsWhitespace(s[0])
    ensures Trim(s) != "" && Trim(s)[0] == s[0]
  {
    assert TrimStart(s) == s;
  }

  lemma {:induction false} Subtext(s: string, i: nat, j: nat, c: char)
    requires i <= j <= |s| && c !in s
    ensures c !in s[i..j]
  {
  }

  /** A line without line feed yields only readable keys and values without line feed. */
  lemma {:induction false} ReadLineReadable(line: string)
    requires '\n' !in line
    ensures IsReadableRead(ReadLine(line))
  {
    TrimSubset(line);
    if !IsSkipped(Trim(line)) {
      ReadSettingReadable(Trim(line));
    }
  }

  lemma {:induction false} ReadSettingReadable(trimmed: string)
    requires '\n' !in trimmed && !IsSkipped(trimmed) && Trimmed(trimmed)
    ensures IsReadableRead(ReadSetting(trimmed))
  {
    var eq := IndexOf(trimmed, '=');
    if eq > 0 {
      IndexOfIsFirst(trimmed, '=');
      KeyReadable(trimmed, eq);
      TrimSubset(trimmed[eq + 1..]);
      Subtext(trimmed, eq + 1, |trimmed|, '\n');
      UnquoteSubtext(Trim(trimmed[eq + 1..]), '\n');
    }
  }

  lemma {:induction false} KeyReadable(trimmed: string, eq: nat)
    requires '\n' !in trimmed && !IsSkipped(trimmed) && Trimmed(trimmed)
    requires 0 < eq < |trimmed| && '=' !in trimmed[..eq]
    ensures IsReadableKey(Trim(trimmed[..eq])) || Trim(trimmed[..eq]) == "__proto__"
  {
    var key := trimmed[..eq];
    TrimKeepsFirst(key);
    TrimSubset(key);
    Subtext(trimmed, 0, eq, '\n');
  }

  lemma {:induction false} UnquoteSubtext(v: string, c: char)
    requires c !in v
    ensures c !in Unquote(v)
  {
    if |v| > 2 {
      Subtext(v, 1, |v| - 1, c);
    }
  }

  lemma {:induction false} AssignReadable(env: Env, read: Option<Entry>)
    requires IsReadable(env)
    requires IsReadableRead(read)
    ensures IsReadable(Assign(env, read))
  {
  }

  lemma {:induction false} AssignAllReadable(env: Env, entries: seq<Option<Entry>>)
    requires IsReadable(env) && forall i :: 0 <= i < |entries| ==> IsReadableRead(entries[i])
    ensures IsReadable(AssignAll(env, entries))
    decreases entries
  {
    if entries != [] {
      assert IsReadableRead(entries[0]);
      AssignReadable(env, entries[0]);
      AssignAllReadable(Assign(env, entries[0]), entries[1..]);
    }
  }

  lemma {:induction false} FilesAreReadable(content: Option<string>)
    ensures IsReadable(EnvOf(content))
  {
    if content.Some? {
      var lines := Split(content.value, '\n');
      forall i | 0 <= i < |lines|
        ensures IsReadableRead(Entries(lines)[i])
      {
        ReadLineReadable(lines[i]);
      }
      AssignAllReadable(map[], Entries(lines));
    }
  }

  // ----- A printer -----

  datatype Quotes = Bare | Single | Double

  /** White space in front of the key, before and behind the equals sign and at the end. */
  datatype Dress = Dress(indent: string, before: string, behind: string, quotes: Quotes, end: string)

  const PLAIN := Dress("", "", "", Double, "")

  datatype Item =
    | Setting(entry: Entry, dress: Dress)
    | Blank(blank: string)
    | Comment(indent: string, text: string)
    | Stray(indent: string, text: string)

  /** One printed line; `crlf` says whether a carriage return stands before the line feed. */
  datatype Line = Line(item: Item, crlf: bool)

  predicate IsPrintable(item: Item) {
    match item
    case Setting(e, d) => IsReadableKey(e.key) && '\n' !in e.value && IsDress(d) && Suits(d.quotes, e.value)
    case Blank(blank) => AllWhitespace(blank) && '\n' !in blank
    case Comment(indent, text) => AllWhitespace(indent) && '\n' !in indent && '\n' !in text
    case Stray(indent, text) => AllWhitespace(indent) && '\n' !in indent && '\n' !in text && SetsNothing(text)
  }

  predicate IsDress(d: Dress) {
    && AllWhitespace(d.indent) && AllWhitespace(d.before) && AllWhitespace(d.behind) && AllWhitespace(d.end)
    && '\n' !in d.indent && '\n' !in d.before && '\n' !in d.behind && '\n' !in d.end
  }

  /** Without quotes a value must be trimmed and not look quoted. */
  predicate Suits(quotes: Quotes, value: string) {
    quotes == Bare ==> Trimmed(value) && (value != "" ==> value[0] !in ['"', '\''] || value[|value| - 1] != value[0])
  }

  /** No comment, and without an equals sign or with one in front. */
  predicate SetsNothing(text: string) {
    text != "" && !IsWhitespace(text[0]) && text[0] != '#' && ('=' !in text || text[0] == '=')
  }

  function InQuotes(quotes: Quotes, value: string): string {
    match quotes
    case Bare => value
    case Single => "'" + value + "'"
    case Double => "\"" + value + "\""
  }

  function PrintItem(item: Item): string {
    match item
    case Setting(e, d) =>
      d.indent + ((e.key + d.before) + ("=" + (d.behind + InQuotes(d.quotes, e.value) + d.end)))
    case Blank(blank) => blank
    case Comment(indent, text) => indent + "#" + text
    case Stray(indent, text) => indent + text
  }

  function PrintLine(line: Line): string {
    PrintItem(line.item) + if line.crlf then "\r" else ""
  }

  function PrintedLines(lines: seq<Line>): (r: seq<string>)
    ensures |r| == |lines|
    ensures forall i :: 0 <= i < |r| ==> r[i] == PrintLine(lines[i])
  {
    seq(|lines|, i requires 0 <= i < |lines| => PrintLine(lines[i]))
  }

  function Print(lines: seq<Line>): string {
    Join(PrintedLines(lines), '\n')
  }

  function EntryOf(item: Item): Option<Entry> {
    match item
    case Setting(e, _) => Some(e)
    case Blank(_) => None
    case Comment(_, _) => None
    case Stray(_, _) => None
  }

  /** What a line adds to the settings before it. */
  function Effect(env: Env, item: Item): Env {
    match EntryOf(item)
    case None => env
    case Some(e) => env[e.key := e.value]
  }

  /** The map the printed settings mean: for each key its last value. */
  function LastWins(env: Env, lines: seq<Line>): Env
    decreases lines
  {
    if lines == [] then env else LastWins(Effect(env, lines[0].item), lines[1..])
  }

  lemma {:induction false} NoBreak(s: string, t: string)
    requires '\n' !in s && '\n' !in t
    ensures '\n' !in s + t
  {
  }

  lemma {:induction false} SettingHasNoBreak(e: Entry, d: Dress)
    requires IsPrintable(Setting(e, d))
    ensures '\n' !in PrintItem(Setting(e, d))
  {
    var value := InQuotes(d.quotes, e.value);
    assert '\n' !in value;
    NoBreak(d.behind, value);
    NoBreak(d.behind + value, d.end);
    NoBreak("=", d.behind + value + d.end);
    NoBreak(e.key, d.before);
    NoBreak(e.key + d.before, "=" + (d.behind + value + d.end));
    NoBreak(d.indent, (e.key + d.before) + ("=" + (d.behind + value + d.end)));
  }

  lemma {:induction false} PrintLineHasNoBreak(line: Line)
    requires IsPrintable(line.item)
    ensures '\n' !in PrintLine(line)
  {
    if line.item.Setting? {
      SettingHasNoBreak(line.item.entry, line.item.dress);
    }
    NoBreak(PrintItem(line.item), if line.crlf then "\r" else "");
  }

  lemma {:induction false} SettingReads(e: Entry, d: Dress, after: string)
    requires IsPrintable(Setting(e, d)) && AllWhitespace(after)
    ensures ReadLine(PrintItem(Setting(e, d)) + after) == Some(e)
  {
    var left, value := e.key + d.before, InQuotes(d.quotes, e.value);
    var right := d.behind + value + (d.end + after);
    PrintedSetting(e, d, after, left, right);
    KeyTrims(e.key, d.before);
    ValueTrims(d.behind, value, d.end + after, d.quotes, e.value);
    QuotedReads(d.quotes, e.value);
    PartsRead(d.indent, left, right, e.key, e.value);
  }

  lemma {:induction false} PrintedSetting(e: Entry, d: Dress, after: string, left: string, right: string)
    requires left == e.key + d.before && right == d.behind + InQuotes(d.quotes, e.value) + (d.end + after)
    ensures PrintItem(Setting(e, d)) + after == d.indent + (left + ("=" + right))
  {
    var value := d.behind + InQuotes(d.quotes, e.value);
    assert value + d.end + after == right;
    AppendBehind(d.indent, left, value + d.end, after);
  }

  lemma {:induction false} AppendBehind(indent: string, left: string, right: string, after: string)
    ensures indent + (left + ("=" + right)) + after == indent + (left + ("=" + (right + after)))
  {
  }

  lemma {:induction false} PartsRead(indent: string, left: string, right: string, key: string, value: string)
    requires AllWhitespace(indent) && left != "" && !IsWhitespace(left[0]) && left[0] != '#' && '=' !in left
    requires Trim(left) == key && Unquote(Trim(TrimEnd(right))) == value
    ensures ReadLine(indent + (left + ("=" + right))) == Some(Entry(key, value))
  {
    EqualsStays(left, right);
    BodyRead(indent, left + ("=" + right), left + ("=" + TrimEnd(right)));
    SettingSplits(left, TrimEnd(right));
    SettingRead(left + ("=" + TrimEnd(right)), left, TrimEnd(right));
  }

  lemma {:induction false} BodyRead(indent: string, body: string, trimmed: string)
    requires AllWhitespace(indent) && body != "" && !IsWhitespace(body[0]) && body[0] != '#'
    requires trimmed == TrimEnd(body) && trimmed != ""
    ensures ReadLine(indent + body) == ReadSetting(trimmed)
  {
    TrimStartPadded(indent, body);
  }

  lemma {:induction false} EqualsStays(left: string, right: string)
    ensures TrimEnd(left + ("=" + right)) == left + ("=" + TrimEnd(right))
  {
    TrimEndBehind(left + "=", right);
    Regrouped(left, right);
    Regrouped(left, TrimEnd(right));
  }

  lemma {:induction false} Regrouped(left: string, right: string)
    ensures left + ("=" + right) == (left + "=") + right
  {
  }

  lemma {:induction false} SettingRead(body: string, left: string, right: string)
    requires IndexOf(body, '=') == |left| > 0 && body[..|left|] == left && body[|left| + 1..] == right
    ensures ReadSetting(body) == Some(Entry(Trim(left), Unquote(Trim(right))))
  {
  }

  lemma {:induction false} SettingSplits(left: string, right: string)
    requires '=' !in left
    ensures var body, k := left + ("=" + right), |left|;
            IndexOf(body, '=') == k && body[..k] == left && body[k + 1..] == right
  {
    FirstIndex(left, '=', right);
  }

  lemma {:induction false} KeyTrims(key: string, before: string)
    requires IsReadableKey(key) && AllWhitespace(before)
    ensures Trim(key + before) == key && '=' !in key + before
  {
    assert "" + key + before == key + before;
    TrimPadded("", key, before);
    NoEquals(before);
  }

  lemma {:induction false} NoEquals(blanks: string)
    requires AllWhitespace(blanks)
    ensures '=' !in blanks
  {
  }

  /** Trimming the end before both ends makes no difference. */
  lemma {:induction false} ValueTrims(behind: string, text: string, end: string, quotes: Quotes, value: string)
    requires AllWhitespace(behind) && AllWhitespace(end) && text == InQuotes(quotes, value) && Suits(quotes, value)
    ensures Trim(TrimEnd(behind + text + end)) == text
  {
    if text == "" {
      assert behind + text + end == "" + (behind + end);
      TrimEndPadded("", behind + end);
    } else {
      TrimEndPadded(behind + text, end);
      assert behind + text + "" == behind + text;
      TrimPadded(behind, text, "");
    }
  }

  lemma {:induction false} QuotedReads(quotes: Quotes, value: string)
    requires Suits(quotes, value)
    ensures Unquote(InQuotes(quotes, value)) == value
  {
    var quoted := InQuotes(quotes, value);
    if quotes != Bare {
      assert quoted[1..|value| + 1] == value;
    }
  }

  lemma {:induction false} FirstIndex(before: string, c: char, after: string)
    requires c !in before
    ensures IndexOf(before + ([c] + after), c) == |before|
  {
    var s := before + ([c] + after);
    if before == "" {
      assert s == [c] + after;
    } else {
      assert s[1..] == before[1..] + ([c] + after);
      FirstIndex(before[1..], c, after);
    }
  }

  lemma {:induction false} BlankReads(blank: string, after: string)
    requires AllWhitespace(blank) && AllWhitespace(after)
    ensures ReadLine(blank + after) == None
  {
    assert blank + "" + after == blank + after;
    TrimPadded(blank, "", after);
  }

  lemma {:induction false} CommentReads(indent: string, text: string, after: string)
    requires AllWhitespace(indent) && AllWhitespace(after)
    ensures ReadLine(indent + "#" + text + after) == None
  {
    var rest := "#" + text + after;
    assert indent + "#" + text + after == indent + rest;
    TrimStartPadded(indent, rest);
    assert TrimStart(rest) == rest;
    TrimKeepsFirst(rest);
  }

  lemma {:induction false} StrayReads(indent: string, text: string, after: string)
    requires AllWhitespace(indent) && AllWhitespace(after) && SetsNothing(text)
    ensures ReadLine(indent + text + after) == None
  {
    var rest := text + after;
    assert indent + text + after == indent + rest;
    TrimKeepsFirst(rest);
    BodyRead(indent, rest, TrimEnd(rest));
    if text[0] != '=' {
      NoIndex(TrimEnd(rest), '=');
    }
  }

  lemma {:induction false} NoIndex(s: string, c: char)
    requires c !in s
    ensures IndexOf(s, c) == -1
  {
    if s != "" {
      NoIndex(s[1..], c);
    }
  }

  lemma {:induction false} ItemReads(item: Item, after: string)
    requires IsPrintable(item) && AllWhitespace(after)
    ensures ReadLine(PrintItem(item) + after) == EntryOf(item)
  {
    match item
    case Setting(e, d) => SettingReads(e, d, after);
    case Blank(blank) => BlankReads(blank, after);
    case Comment(indent, text) => CommentReads(indent, text, after);
    case Stray(indent, text) => StrayReads(indent, text, after);
  }

  lemma {:induction false} LineReads(env: Env, line: Line)
    requires IsPrintable(line.item)
    ensures Assign(env, ReadLine(PrintLine(line))) == Effect(env, line.item)
  {
    ItemReads(line.item, if line.crlf then "\r" else "");
    EffectAssigns(env, line.item);
  }

  lemma {:induction false} EffectAssigns(env: Env, item: Item)
    requires IsPrintable(item)
    ensures Assign(env, EntryOf(item)) == Effect(env, item)
  {
  }

  lemma {:induction false} LinesRead(env: Env, lines: seq<Line>)
    requires AllPrintable(lines)
    ensures AssignAll(env, Entries(PrintedLines(lines))) == LastWins(env, lines)
    decreases lines
  {
    if lines != [] {
      LineReads(env, lines[0]);
      LinesRead(Effect(env, lines[0].item), lines[1..]);
      PrintedTail(lines);
    }
  }

  lemma {:induction false} PrintedTail(lines: seq<Line>)
    requires lines != []
    ensures Entries(PrintedLines(lines))[0] == ReadLine(PrintLine(lines[0]))
    ensures Entries(PrintedLines(lines))[1..] == Entries(PrintedLines(lines[1..]))
  {
    assert PrintedLines(lines)[1..] == PrintedLines(lines[1..]);
    EntriesTail(PrintedLines(lines));
  }

  lemma {:induction false} EntriesTail(texts: seq<string>)
    requires texts != []
    ensures Entries(texts)[1..] == Entries(texts[1..])
  {
    forall i | 0 <= i < |texts| - 1
      ensures Entries(texts)[1..][i] == Entries(texts[1..])[i]
    {
      assert Entries(texts)[i + 1] == ReadLine(texts[i + 1]);
    }
  }

  /** Printed settings, with blank and comment lines between and either line ending, read
      back as the last-wins map. */
  lemma {:induction false} PrintThenRead(lines: seq<Line>)
    requires lines != [] && AllPrintable(lines)
    ensures EnvOf(Some(Print(lines))) == LastWins(map[], lines)
  {
    forall i | 0 <= i < |lines|
      ensures '\n' !in PrintedLines(lines)[i]
    {
      PrintLineHasNoBreak(lines[i]);
    }
    SplitJoin(PrintedLines(lines), '\n');
    LinesRead(map[], lines);
  }

  lemma {:induction false} SettingComesBack(e: Entry, d: Dress, crlf: bool)
    requires IsPrintable(Setting(e, d))
    ensures EnvOf(Some(PrintLine(Line(Setting(e, d), crlf)))) == map[e.key := e.value]
  {
    var lines := [Line(Setting(e, d), crlf)];
    PrintThenRead(lines);
    assert Print(lines) == PrintLine(lines[0]);
    assert lines[1..] == [] && LastWins(map[], lines) == Effect(map[], lines[0].item);
  }

  /** One setting, however dressed, survives the round trip exactly when its key is readable
      and its value has no line feed. */
  lemma {:induction false} SettingRoundTrip(e: Entry, d: Dress, crlf: bool)
    requires IsDress(d) && Suits(d.quotes, e.value)
    ensures EnvOf(Some(PrintLine(Line(Setting(e, d), crlf)))) == map[e.key := e.value]
            <==> IsReadableKey(e.key) && '\n' !in e.value
  {
    var text := PrintLine(Line(Setting(e, d), crlf));
    if IsReadableKey(e.key) && '\n' !in e.value {
      SettingComesBack(e, d, crlf);
    }
    OnlyReadable(text, e);
  }

  lemma {:induction false} OnlyReadable(text: string, e: Entry)
    ensures EnvOf(Some(text)) == map[e.key := e.value] ==> IsReadableKey(e.key) && '\n' !in e.value
  {
    FilesAreReadable(Some(text));
    assert e.key in map[e.key := e.value];
  }

  predicate AllPrintable(lines: seq<Line>) {
    forall i :: 0 <= i < |lines| ==> IsPrintable(lines[i].item)
  }

  lemma {:induction false} SettingInFront(start: Env, e: Entry, rest: seq<Line>)
    requires AllPrintable(rest) && IsPrintable(Setting(e, PLAIN))
    ensures AllPrintable([Line(Setting(e, PLAIN), false)] + rest)
    ensures LastWins(start, [Line(Setting(e, PLAIN), false)] + rest) == LastWins(start[e.key := e.value], rest)
  {
    assert ([Line(Setting(e, PLAIN), false)] + rest)[1..] == rest;
  }

  lemma {:induction false} MoveEntry(start: Env, env: Env, k: string)
    requires k in env && IsReadable(env)
    ensures start[k := env[k]] + (env - {k}) == start + env
    ensures |env - {k}| < |env| && IsReadable(env - {k})
  {
    assert (env - {k}).Keys == env.Keys - {k};
  }

  /** Lines that print a given readable map behind what was said before. */
  lemma {:induction false} LinesFor(start: Env, env: Env) returns (lines: seq<Line>)
    requires IsReadable(env)
    ensures lines != [] && AllPrintable(lines)
    ensures LastWins(start, lines) == start + env
    decreases |env|
  {
    if env == map[] {
      lines := [Line(Blank(""), false)];
      assert lines[1..] == [];
    } else {
      var k :| k in env;
      MoveEntry(start, env, k);
      var rest := LinesFor(start[k := env[k]], env - {k});
      SettingInFront(start, Entry(k, env[k]), rest);
      lines := [Line(Setting(Entry(k, env[k]), PLAIN), false)] + rest;
    }
  }

  lemma {:induction false} NothingPlus(env: Env)
    ensures map[] + env == env
  {
  }

  lemma {:induction false} FileFor(env: Env) returns (content: Option<string>)
    requires IsReadable(env)
    ensures EnvOf(content) == env
  {
    var lines := LinesFor(map[], env);
    PrintThenRead(lines);
    content := Some(Print(lines));
    NothingPlus(env);
  }

  /** The maps some file can say are exactly those with readable keys and one-line values. */
  lemma {:induction false} ReadableExactly(env: Env)
    ensures (exists content :: EnvOf(content) == env) <==> IsReadable(env)
  {
    if IsReadable(env) {
      var content := FileFor(env);
    }
    forall content | EnvOf(content) == env
      ensures IsReadable(env)
    {
      FilesAreReadable(content);
    }
  }
}
