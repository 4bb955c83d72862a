/**
 * The CSV writer of lib/csv.ts, read back by the grammar of section 2 of RFC 4180 as a
 * character state machine.  CRLF separates records; a lone CR or LF, or a stray quote,
 * outside a quoted field is an error.
 */
module Csv {
  import opened Text

  // ----- The writer -----

  datatype Field = Null | Undefined | Words(text: string) | Number(rendered: string) | Boolean(value: bool)

  type Row = seq<Field>

  /** `String(field)`, with null and undefined as nothing. */
  function FieldText(field: Field): string {
    match field
    case Null => ""
    case Undefined => ""
    case Words(text) => text
    case Number(rendered) => rendered
    case Boolean(value) => if value then "true" else "false"
  }

  predicate NeedsQuotes(s: string) {
    ',' in s || '"' in s || '\n' in s || '\r' in s
  }

  /** Every quote doubled. */
  function Doubled(s: string): string {
    if s == "" then "" else (if s[0] == '"' then "\"\"" else [s[0]]) + Doubled(s[1..])
  }

  function SerializeText(s: string): string {
    if NeedsQuotes(s) then "\"" + Doubled(s) + "\"" else s
  }

  function SerializeField(field: Field): string {
    if field.Null? || field.Undefined? then "" else SerializeText(FieldText(field))
  }

  function SerializeRow(fields: Row): string {
    Join(seq(|fields|, i requires 0 <= i < |fields| => SerializeField(fields[i])), ',')
  }

  function JoinLines(lines: seq<string>): string
    requires lines != []
  {
    if |lines| == 1 then lines[0] else lines[0] + "\r\n" + JoinLines(lines[1..])
  }

  function SerializeCsv(headers: seq<string>, rows: seq<Row>): string {
    JoinLines([SerializeRow(HeaderRow(headers))]
              + seq(|rows|, i requires 0 <= i < |rows| => SerializeRow(rows[i])))
  }

  function HeaderRow(headers: seq<string>): (row: Row)
    ensures |row| == |headers|
  {
    seq(|headers|, i requires 0 <= i < |headers| => Words(headers[i]))
  }

  /** Texts without comma, quote or line break are only put between commas. */
  lemma {:induction false} PlainRowJoined(texts: seq<string>)
    requires forall i :: 0 <= i < |texts| ==>
               ',' !in texts[i] && '"' !in texts[i] && '\n' !in texts[i] && '\r' !in texts[i]
    ensures SerializeRow(HeaderRow(texts)) == Join(texts, ',')
  {
    var fields := HeaderRow(texts);
    assert seq(|fields|, i requires 0 <= i < |fields| => SerializeField(fields[i])) == texts;
  }

  // ----- The reader -----

  datatype Mode = FieldStart | Plain | Quoted | QuoteSeen | CrSeen | Error

  /** Finished records, the fields of the current one, and the text of the current field. */
  datatype Reader = Reader(rows: seq<seq<string>>, row: seq<string>, field: string, mode: Mode)

  function EndField(r: Reader): Reader {
    Reader(r.rows, r.row + [r.field], "", FieldStart)
  }

  function EndRow(r: Reader): Reader {
    Reader(r.rows + [r.row + [r.field]], [], "", FieldStart)
  }

  function Append(r: Reader, c: char, mode: Mode): Reader {
    r.(field := r.field + [c], mode := mode)
  }

  function Step(r: Reader, c: char): Reader {
    match r.mode
    case FieldStart =>
      if c == ',' then EndField(r)
      else if c == '"' then r.(mode := Quoted)
      else if c == '\r' then r.(mode := CrSeen)
      else if c == '\n' then r.(mode := Error)
      else Append(r, c, Plain)
    case Plain =>
      if c == ',' then EndField(r)
      else if c == '\r' then r.(mode := CrSeen)
      else if c == '"' || c == '\n' then r.(mode := Error)
      else Append(r, c, Plain)
    case Quoted =>
      if c == '"' then r.(mode := QuoteSeen) else Append(r, c, Quoted)
    case QuoteSeen =>
      if c == '"' then Append(r, c, Quoted)
      else if c == ',' then EndField(r)
      else if c == '\r' then r.(mode := CrSeen)
      else r.(mode := Error)
    case CrSeen =>
      if c == '\n' then EndRow(r) else r.(mode := Error)
    case Error => r
  }

  function Run(r: Reader, text: string): Reader
    decreases text
  {
    if text == "" then r else Run(Step(r, text[0]), text[1..])
  }

  /** A field may end here. */
  predicate AtFieldEnd(mode: Mode) {
    mode == FieldStart || mode == Plain || mode == QuoteSeen
  }

  function ReadCsv(text: string): Option<seq<seq<string>>> {
    var r := Run(Reader([], [], "", FieldStart), text);
    if AtFieldEnd(r.mode) then Some(r.rows + [r.row + [r.field]]) else None
  }

  // ----- Reading what was written -----

  lemma {:induction false} RunAppend(r: Reader, a: string, b: string)
    ensures Run(r, a + b) == Run(Run(r, a), b)
    decreases a
  {
    if a == "" {
      assert a + b == b;
    } else {
      assert (a + b)[1..] == a[1..] + b;
      RunAppend(Step(r, a[0]), a[1..], b);
    }
  }

  lemma {:induction false} RunOne(r: Reader, c: char)
    ensures Run(r, [c]) == Step(r, c)
  {
    assert Run(Step(r, c), [c][1..]) == Step(r, c);
  }

  /** Unquoted text collects into the field. */
  lemma {:induction false} RunPlain(r: Reader, s: string)
    requires (r.mode == FieldStart || r.mode == Plain) && !NeedsQuotes(s)
    ensures Run(r, s) == Reader(r.rows, r.row, r.field + s, if s == "" then r.mode else Plain)
    decreases s
  {
    if s == "" {
      assert r.field + s == r.field;
    } else {
      assert s[0] in s;
      assert !NeedsQuotes(s[1..]);
      RunPlain(Step(r, s[0]), s[1..]);
      assert (r.field + [s[0]]) + s[1..] == r.field + s;
    }
  }

  /** Inside quotes, doubled quotes collect as the text they stand for. */
  lemma {:induction false} RunDoubled(r: Reader, s: string)
    requires r.mode == Quoted
    ensures Run(r, Doubled(s)) == r.(field := r.field + s)
    decreases s
  {
    if s == "" {
      assert r.field + s == r.field;
    } else {
      var first := if s[0] == '"' then "\"\"" else [s[0]];
      RunAppend(r, first, Doubled(s[1..]));
      if s[0] == '"' {
        RunAppend(r, "\"", "\"");
        assert "\"" + "\"" == first;
        RunOne(r, '"');
        RunOne(r.(mode := QuoteSeen), '"');
      } else {
        RunOne(r, s[0]);
      }
      RunDoubled(Append(r, s[0], Quoted), s[1..]);
      assert (r.field + [s[0]]) + s[1..] == r.field + s;
    }
  }

  /** One serialized field leaves its text in the field, ready to end. */
  lemma {:induction false} FieldReads(rows: seq<seq<string>>, row: seq<string>, field: Field)
    ensures var r := Run(Reader(rows, row, "", FieldStart), SerializeField(field));
            r == Reader(rows, row, FieldText(field), r.mode) && AtFieldEnd(r.mode)
  {
    var s := FieldText(field);
    var r := Reader(rows, row, "", FieldStart);
    assert "" + s == s;
    if NeedsQuotes(s) {
      RunAppend(r, "\"" + Doubled(s), "\"");
      RunAppend(r, "\"", Doubled(s));
      RunOne(r, '"');
      RunDoubled(r.(mode := Quoted), s);
      RunOne(Reader(rows, row, s, Quoted), '"');
    } else {
      RunPlain(r, s);
    }
  }

  /** The texts a row reads as; a row without fields reads as one empty field. */
  function RowTexts(fields: Row): (texts: seq<string>)
    ensures |texts| == if fields == [] then 1 else |fields|
  {
    if fields == [] then [""]
    else seq(|fields|, i requires 0 <= i < |fields| => FieldText(fields[i]))
  }

  function SerializedFields(fields: Row): seq<string> {
    seq(|fields|, i requires 0 <= i < |fields| => SerializeField(fields[i]))
  }

  lemma {:induction false} FieldThenComma(rows: seq<seq<string>>, row: seq<string>, field: Field)
    ensures Run(Reader(rows, row, "", FieldStart), SerializeField(field) + ",")
         == Reader(rows, row + [FieldText(field)], "", FieldStart)
  {
    FieldReads(rows, row, field);
    var start := Reader(rows, row, "", FieldStart);
    RunAppend(start, SerializeField(field), ",");
    RunOne(Run(start, SerializeField(field)), ',');
  }

  lemma {:induction false} RowSplits(fields: Row)
    requires |fields| > 1
    ensures SerializeRow(fields) == (SerializeField(fields[0]) + ",") + SerializeRow(fields[1..])
  {
    assert SerializeRow(fields) == Join(SerializedFields(fields), ',');
    assert SerializedFields(fields)[1..] == SerializedFields(fields[1..]);
  }

  lemma {:induction false} RowReads(rows: seq<seq<string>>, row: seq<string>, fields: Row)
    ensures var r := Run(Reader(rows, row, "", FieldStart), SerializeRow(fields));
            r.rows == rows && AtFieldEnd(r.mode) && r.row + [r.field] == row + RowTexts(fields)
    decreases fields
  {
    if |fields| == 1 {
      FieldReads(rows, row, fields[0]);
      assert SerializedFields(fields) == [SerializeField(fields[0])];
    } else if |fields| > 1 {
      FieldThenComma(rows, row, fields[0]);
      RowSplits(fields);
      RunAppend(Reader(rows, row, "", FieldStart), SerializeField(fields[0]) + ",", SerializeRow(fields[1..]));
      RowReads(rows, row + [FieldText(fields[0])], fields[1..]);
      assert row + RowTexts(fields) == (row + [FieldText(fields[0])]) + RowTexts(fields[1..]);
    }
  }

  lemma {:induction false} RowThenBreak(rows: seq<seq<string>>, fields: Row)
    ensures Run(Reader(rows, [], "", FieldStart), SerializeRow(fields) + "\r\n")
         == Reader(rows + [RowTexts(fields)], [], "", FieldStart)
  {
    var start := Reader(rows, [], "", FieldStart);
    RowReads(rows, [], fields);
    var r := Run(start, SerializeRow(fields));
    assert [] + RowTexts(fields) == RowTexts(fields);
    RunAppend(start, SerializeRow(fields), "\r\n");
    RunAppend(r, "\r", "\n");
    assert "\r" + "\n" == "\r\n";
    RunOne(r, '\r');
    RunOne(r.(mode := CrSeen), '\n');
  }

  function TableTexts(table: seq<Row>): (texts: seq<seq<string>>)
    ensures |texts| == |table|
    ensures forall i :: 0 <= i < |table| ==> texts[i] == RowTexts(table[i])
  {
    seq(|table|, i requires 0 <= i < |table| => RowTexts(table[i]))
  }

  function SerializedRows(table: seq<Row>): seq<string> {
    seq(|table|, i requires 0 <= i < |table| => SerializeRow(table[i]))
  }

  lemma {:induction false} LinesSplit(table: seq<Row>)
    requires |table| > 1
    ensures JoinLines(SerializedRows(table))
         == (SerializeRow(table[0]) + "\r\n") + JoinLines(SerializedRows(table[1..]))
  {
    assert SerializedRows(table)[1..] == SerializedRows(table[1..]);
  }

  lemma {:induction false} TableReads(rows: seq<seq<string>>, table: seq<Row>)
    requires table != []
    ensures var r := Run(Reader(rows, [], "", FieldStart), JoinLines(SerializedRows(table)));
            AtFieldEnd(r.mode) && r.rows + [r.row + [r.field]] == rows + TableTexts(table)
    decreases table
  {
    if |table| == 1 {
      RowReads(rows, [], table[0]);
      assert [] + RowTexts(table[0]) == RowTexts(table[0]);
    } else {
      var rest := JoinLines(SerializedRows(table[1..]));
      LinesSplit(table);
      RowThenBreak(rows, table[0]);
      RunAppend(Reader(rows, [], "", FieldStart), SerializeRow(table[0]) + "\r\n", rest);
      TableReads(rows + [RowTexts(table[0])], table[1..]);
      TableTextsSplit(rows, table);
    }
  }

  lemma {:induction false} TableTextsSplit(rows: seq<seq<string>>, table: seq<Row>)
    requires table != []
    ensures rows + TableTexts(table) == (rows + [RowTexts(table[0])]) + TableTexts(table[1..])
  {
  }

  /** The cells of a row as texts, exactly as given. */
  function Cells(fields: Row): (texts: seq<string>)
    ensures |texts| == |fields|
  {
    seq(|fields|, i requires 0 <= i < |fields| => FieldText(fields[i]))
  }

  function Rendered(table: seq<Row>): (texts: seq<seq<string>>)
    ensures |texts| == |table|
    ensures forall i :: 0 <= i < |table| ==> texts[i] == Cells(table[i])
  {
    seq(|table|, i requires 0 <= i < |table| => Cells(table[i]))
  }

  /** Every table reads back, row by row, whatever text its cells hold. */
  lemma {:induction false} CsvReads(headers: seq<string>, rows: seq<Row>)
    ensures ReadCsv(SerializeCsv(headers, rows)) == Some(TableTexts([HeaderRow(headers)] + rows))
  {
    var table := [HeaderRow(headers)] + rows;
    assert SerializedRows(table)
        == [SerializeRow(HeaderRow(headers))] + seq(|rows|, i requires 0 <= i < |rows| => SerializeRow(rows[i]));
    TableReads([], table);
    assert [] + TableTexts(table) == TableTexts(table);
  }

  lemma {:induction false} CellReads(table: seq<Row>, i: nat, j: nat)
    requires i < |table| && j < |table[i]|
    ensures |TableTexts(table)[i]| == |table[i]|
    ensures TableTexts(table)[i][j] == FieldText(table[i][j])
  {
    assert TableTexts(table)[i] == RowTexts(table[i]);
  }

  /** Each cell comes back at its place: a text or number as it is, a boolean as true or false,
      null and undefined as nothing; and the headers above. */
  lemma {:induction false} CellsRead(headers: seq<string>, rows: seq<Row>, i: nat, j: nat)
    requires i < |rows| && j < |rows[i]|
    ensures var read := ReadCsv(SerializeCsv(headers, rows));
            && read.Some? && |read.value| == |rows| + 1 && |read.value[i + 1]| == |rows[i]|
            && read.value[i + 1][j] == match rows[i][j]
                                       case Null => ""
                                       case Undefined => ""
                                       case Words(text) => text
                                       case Number(rendered) => rendered
                                       case Boolean(value) => if value then "true" else "false"
    ensures headers != [] ==> ReadCsv(SerializeCsv(headers, rows)).value[0] == headers
  {
    var table := [HeaderRow(headers)] + rows;
    CsvReads(headers, rows);
    CellReads(table, i + 1, j);
    assert table[0] == HeaderRow(headers) && TableTexts(table)[0] == RowTexts(table[0]);
  }

  lemma {:induction false} RowExact(fields: Row)
    ensures RowTexts(fields) == Cells(fields) <==> fields != []
  {
  }

  /** The round trip is exact precisely when no row, header row included, is without fields. */
  lemma {:induction false} CsvRoundTrip(headers: seq<string>, rows: seq<Row>)
    ensures var table := [HeaderRow(headers)] + rows;
            ReadCsv(SerializeCsv(headers, rows)) == Some(Rendered(table))
            <==> headers != [] && forall i :: 0 <= i < |rows| ==> rows[i] != []
  {
    CsvReads(headers, rows);
    var table := [HeaderRow(headers)] + rows;
    forall i | 0 <= i < |table|
      ensures TableTexts(table)[i] == Rendered(table)[i] <==> table[i] != []
    {
      RowExact(table[i]);
    }
    assert table[0] == HeaderRow(headers);
    assert forall i :: 0 <= i < |rows| ==> table[i + 1] == rows[i];
    assert (forall i :: 0 <= i < |table| ==> table[i] != []) ==> TableTexts(table) == Rendered(table);
    if TableTexts(table) == Rendered(table) {
      forall i | 0 <= i < |rows|
        ensures rows[i] != []
      {
        assert table[i + 1] != [];
      }
    }
  }

  /** So two tables whose rows have fields are written alike only when their cells agree. */
  lemma {:induction false} CsvInjective(headers: seq<string>, rows: seq<Row>, headers': seq<string>, rows': seq<Row>)
    requires headers != [] && forall i :: 0 <= i < |rows| ==> rows[i] != []
    requires headers' != [] && forall i :: 0 <= i < |rows'| ==> rows'[i] != []
    requires SerializeCsv(headers, rows) == SerializeCsv(headers', rows')
    ensures Rendered([HeaderRow(headers)] + rows) == Rendered([HeaderRow(headers')] + rows')
  {
    CsvRoundTrip(headers, rows);
    CsvRoundTrip(headers', rows');
  }
}
