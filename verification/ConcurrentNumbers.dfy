/**
 * Numbering orders in concurrent transactions (`generateOrderNumber` of
 * server/repositories/order.repository.ts, called inside `createOrder`): reading the last
 * number and inserting the order are separate steps that interleave, and the unique index on
 * workspace and order number (prisma/schema.prisma) refuses a number already stored.
 */
module ConcurrentNumbers {
  import opened Text
  import opened OrderNumbers

  datatype Row = Row(createdAt: int, number: string)

  /** One workspace and month: the orders in the sequence they were inserted, and the number
      each open transaction has drawn. */
  datatype State = State(rows: seq<Row>, drafts: map<nat, string>)

  datatype Event = Read(tx: nat, name: string) | Insert(tx: nat, createdAt: int)

  const NOTHING := State([], map[])

  /** The row `orderBy: { createdAt: 'desc' }` finds first. */
  function Newest(rows: seq<Row>): (r: Row)
    requires rows != []
    ensures r in rows
  {
    var last := rows[|rows| - 1];
    if |rows| == 1 || Newest(rows[..|rows| - 1]).createdAt <= last.createdAt then last
    else Newest(rows[..|rows| - 1])
  }

  function LastNumber(rows: seq<Row>): Option<string> {
    if rows == [] then None else Some(Newest(rows).number)
  }

  predicate IsStored(rows: seq<Row>, number: string) {
    exists i :: 0 <= i < |rows| && rows[i].number == number
  }

  function Step(draw: Draw, s: State, e: Event): State {
    match e
    case Read(tx, name) => s.(drafts := s.drafts[tx := draw(LastNumber(s.rows), name)])
    case Insert(tx, createdAt) =>
      if tx !in s.drafts then s
      else if IsStored(s.rows, s.drafts[tx]) then s.(drafts := s.drafts - {tx})
      else State(s.rows + [Row(createdAt, s.drafts[tx])], s.drafts - {tx})
  }

  function Run(draw: Draw, s: State, events: seq<Event>): State
    decreases events
  {
    if events == [] then s else Run(draw, Step(draw, s, events[0]), events[1..])
  }

  // ----- What the index guarantees -----

  predicate NumbersDistinct(rows: seq<Row>) {
    forall i, j :: 0 <= i < j < |rows| ==> rows[i].number != rows[j].number
  }

  /** In every interleaving, however numbers are drawn, the stored ones are distinct. */
  lemma {:induction false} StoredDistinct(draw: Draw, s: State, events: seq<Event>)
    requires NumbersDistinct(s.rows)
    ensures NumbersDistinct(Run(draw, s, events).rows)
    decreases events
  {
    if events != [] {
      StoredDistinct(draw, Step(draw, s, events[0]), events[1..]);
    }
  }

  /** Of two transactions that drew the same number, once one has tried to insert it the other
      is refused. */
  lemma {:induction false} SameDraftRefused(draw: Draw, s: State, a: nat, b: nat, createdAt: int, createdAt': int)
    requires a != b && a in s.drafts && b in s.drafts && s.drafts[a] == s.drafts[b]
    ensures var first := Step(draw, s, Insert(a, createdAt));
            Step(draw, first, Insert(b, createdAt')).rows == first.rows
  {
    var first := Step(draw, s, Insert(a, createdAt));
    if !IsStored(s.rows, s.drafts[a]) {
      assert first.rows[|s.rows|].number == s.drafts[b];
    }
    assert IsStored(first.rows, s.drafts[b]);
  }

  // ----- Any names, any dates: every number continues a stored one -----

  /** Drawing counts up from the last number, and the sequence can be read off a number. */
  ghost predicate Counts(draw: Draw, numbering: Numbering, sequence: string -> int) {
    && DrawsInOrder(draw, numbering)
    && forall name, k: nat :: sequence(numbering(name, k)) == k
  }

  predicate Carries(sequence: string -> int, rows: seq<Row>, k: int) {
    exists i :: 0 <= i < |rows| && sequence(rows[i].number) == k
  }

  /** The number has a sequence from 1 on, and some stored row carries the one before it. */
  ghost predicate Continues(numbering: Numbering, sequence: string -> int, rows: seq<Row>, number: string) {
    exists name, k: nat ::
      k >= 1 && number == numbering(name, k) && (k == 1 || Carries(sequence, rows, k - 1))
  }

  ghost predicate AllContinue(numbering: Numbering, sequence: string -> int, s: State) {
    && (forall i :: 0 <= i < |s.rows| ==> Continues(numbering, sequence, s.rows, s.rows[i].number))
    && (forall tx :: tx in s.drafts ==> Continues(numbering, sequence, s.rows, s.drafts[tx]))
  }

  function NewestSequence(sequence: string -> int, rows: seq<Row>): int {
    if rows == [] then 0 else sequence(Newest(rows).number)
  }

  lemma {:induction false} ContinuesStays(numbering: Numbering, sequence: string -> int, rows: seq<Row>, row: Row,
                                          number: string)
    requires Continues(numbering, sequence, rows, number)
    ensures Continues(numbering, sequence, rows + [row], number)
  {
    var name, k: nat :|
      k >= 1 && number == numbering(name, k) && (k == 1 || Carries(sequence, rows, k - 1));
    if k > 1 {
      var i :| 0 <= i < |rows| && sequence(rows[i].number) == k - 1;
      assert sequence((rows + [row])[i].number) == k - 1;
    }
  }

  /** A reader draws the number behind the newest row's sequence. */
  lemma {:induction false} DrawsBehindNewest(draw: Draw, numbering: Numbering, sequence: string -> int, s: State,
                                             name: string)
    requires Counts(draw, numbering, sequence) && AllContinue(numbering, sequence, s)
    ensures NewestSequence(sequence, s.rows) >= 0
    ensures draw(LastNumber(s.rows), name) == numbering(name, NewestSequence(sequence, s.rows) + 1)
    ensures Continues(numbering, sequence, s.rows, draw(LastNumber(s.rows), name))
  {
    if s.rows == [] {
      FirstNumberContinues(draw, numbering, sequence, name);
    } else {
      var i, before, k := NewestContinues(numbering, sequence, s);
      BehindRow(draw, numbering, sequence, s.rows, name, i, before, k);
    }
  }

  lemma {:induction false} FirstNumberContinues(draw: Draw, numbering: Numbering, sequence: string -> int, name: string)
    requires Counts(draw, numbering, sequence)
    ensures draw(LastNumber([]), name) == numbering(name, 1)
    ensures Continues(numbering, sequence, [], draw(LastNumber([]), name))
  {
    assert draw(None, name) == numbering(name, 1);
  }

  lemma {:induction false} NewestContinues(numbering: Numbering, sequence: string -> int, s: State)
    returns (i: nat, before: string, k: nat)
    requires s.rows != [] && AllContinue(numbering, sequence, s)
    ensures i < |s.rows| && s.rows[i] == Newest(s.rows) && k >= 1 && s.rows[i].number == numbering(before, k)
  {
    var newest := Newest(s.rows);
    i :| 0 <= i < |s.rows| && s.rows[i] == newest;
    var number := s.rows[i].number;
    assert Continues(numbering, sequence, s.rows, number);
    before, k :| k >= 1 && number == numbering(before, k) && (k == 1 || Carries(sequence, s.rows, k - 1));
  }

  lemma {:induction false} BehindRow(draw: Draw, numbering: Numbering, sequence: string -> int, rows: seq<Row>,
                                     name: string, i: nat, before: string, k: nat)
    requires Counts(draw, numbering, sequence) && i < |rows| && rows[i] == Newest(rows)
    requires k >= 1 && rows[i].number == numbering(before, k)
    ensures NewestSequence(sequence, rows) == k
    ensures draw(LastNumber(rows), name) == numbering(name, k + 1)
    ensures Continues(numbering, sequence, rows, draw(LastNumber(rows), name))
  {
    assert sequence(rows[i].number) == k;
    assert Carries(sequence, rows, k + 1 - 1);
    assert draw(Some(numbering(before, k)), name) == numbering(name, k + 1);
  }

  lemma {:induction false} StepContinues(draw: Draw, numbering: Numbering, sequence: string -> int, s: State, e: Event)
    requires Counts(draw, numbering, sequence) && AllContinue(numbering, sequence, s)
    ensures AllContinue(numbering, sequence, Step(draw, s, e))
  {
    match e
    case Read(tx, name) => DrawsBehindNewest(draw, numbering, sequence, s, name);
    case Insert(tx, createdAt) =>
      if tx in s.drafts && !IsStored(s.rows, s.drafts[tx]) {
        var row := Row(createdAt, s.drafts[tx]);
        InsertContinues(numbering, sequence, s, State(s.rows + [row], s.drafts - {tx}), tx, row);
      }
  }

  lemma {:induction false} InsertContinues(numbering: Numbering, sequence: string -> int, s: State, t: State, tx: nat,
                                           row: Row)
    requires AllContinue(numbering, sequence, s) && tx in s.drafts && row.number == s.drafts[tx]
    requires t == State(s.rows + [row], s.drafts - {tx})
    ensures AllContinue(numbering, sequence, t)
  {
    forall i | 0 <= i < |t.rows|
      ensures Continues(numbering, sequence, t.rows, t.rows[i].number)
    {
      ContinuesStays(numbering, sequence, s.rows, row, t.rows[i].number);
    }
    forall other | other in t.drafts
      ensures Continues(numbering, sequence, t.rows, t.drafts[other])
    {
      ContinuesStays(numbering, sequence, s.rows, row, t.drafts[other]);
    }
  }

  lemma {:induction false} RunContinues(draw: Draw, numbering: Numbering, sequence: string -> int, s: State,
                                        events: seq<Event>)
    requires Counts(draw, numbering, sequence) && AllContinue(numbering, sequence, s)
    ensures AllContinue(numbering, sequence, Run(draw, s, events))
    decreases events
  {
    if events != [] {
      StepContinues(draw, numbering, sequence, s, events[0]);
      RunContinues(draw, numbering, sequence, Step(draw, s, events[0]), events[1..]);
    }
  }

  /** Below a stored sequence every sequence is stored. */
  lemma {:induction false} NoGaps(draw: Draw, numbering: Numbering, sequence: string -> int, s: State, high: nat,
                                  k: nat)
    requires Counts(draw, numbering, sequence) && AllContinue(numbering, sequence, s)
    requires Carries(sequence, s.rows, high) && 1 <= k <= high
    ensures Carries(sequence, s.rows, k)
    decreases high
  {
    if k < high {
      var i :| 0 <= i < |s.rows| && sequence(s.rows[i].number) == high;
      assert Continues(numbering, sequence, s.rows, s.rows[i].number);
      NoGaps(draw, numbering, sequence, s, high - 1, k);
    }
  }

  /** No stored row carries a higher sequence than the newest one. */
  predicate NewestIsHighest(sequence: string -> int, rows: seq<Row>) {
    forall i :: 0 <= i < |rows| ==> sequence(rows[i].number) <= NewestSequence(sequence, rows)
  }

  /** Every reader, under whatever name, draws a number nobody has stored. */
  ghost predicate EveryReaderFresh(draw: Draw, rows: seq<Row>) {
    forall name :: !IsStored(rows, draw(LastNumber(rows), name))
  }

  lemma {:induction false} FreshWhenHighest(draw: Draw, numbering: Numbering, sequence: string -> int, s: State,
                                            name: string)
    requires Counts(draw, numbering, sequence) && AllContinue(numbering, sequence, s)
    requires NewestIsHighest(sequence, s.rows)
    ensures !IsStored(s.rows, draw(LastNumber(s.rows), name))
  {
    DrawsBehindNewest(draw, numbering, sequence, s, name);
    var next: nat := NewestSequence(sequence, s.rows) + 1;
    assert sequence(numbering(name, next)) == next;
  }

  /** Otherwise the row that carries the next sequence was numbered under a name whose reader
      draws that very number. */
  lemma {:induction false} StaleOtherwise(draw: Draw, numbering: Numbering, sequence: string -> int, s: State, i: nat)
    returns (name: string)
    requires Counts(draw, numbering, sequence) && AllContinue(numbering, sequence, s)
    requires i < |s.rows| && sequence(s.rows[i].number) > NewestSequence(sequence, s.rows)
    ensures IsStored(s.rows, draw(LastNumber(s.rows), name))
  {
    DrawsBehindNewest(draw, numbering, sequence, s, "");
    var next: nat := NewestSequence(sequence, s.rows) + 1;
    NoGaps(draw, numbering, sequence, s, sequence(s.rows[i].number), next);
    var j :| 0 <= j < |s.rows| && sequence(s.rows[j].number) == next;
    assert Continues(numbering, sequence, s.rows, s.rows[j].number);
    var found, k: nat :| k >= 1 && s.rows[j].number == numbering(found, k)
                         && (k == 1 || Carries(sequence, s.rows, k - 1));
    name := found;
    DrawsBehindNewest(draw, numbering, sequence, s, name);
  }

  lemma {:induction false} FreshExactly(draw: Draw, numbering: Numbering, sequence: string -> int, s: State)
    requires Counts(draw, numbering, sequence) && AllContinue(numbering, sequence, s)
    ensures EveryReaderFresh(draw, s.rows) <==> NewestIsHighest(sequence, s.rows)
  {
    if NewestIsHighest(sequence, s.rows) {
      forall name
        ensures !IsStored(s.rows, draw(LastNumber(s.rows), name))
      {
        FreshWhenHighest(draw, numbering, sequence, s, name);
      }
    } else {
      var i: nat :| i < |s.rows| && sequence(s.rows[i].number) > NewestSequence(sequence, s.rows);
      var name := StaleOtherwise(draw, numbering, sequence, s, i);
    }
  }

  // ----- In a month -----

  datatype Month = Month(year: nat, month: nat)

  predicate IsMonth(m: Month) {
    m.year >= 10 && 1 <= m.month <= 12
  }

  /** What the program draws in a month. */
  function DrawIn(m: Month): Draw {
    DrawInMonth(m.year, m.month)
  }

  function NumberingIn(m: Month): Numbering {
    NumberingInMonth(m.year, m.month)
  }

  lemma {:induction false} MonthCounts(m: Month)
    requires IsMonth(m)
    ensures Counts(DrawIn(m), NumberingIn(m), SequenceOf)
  {
    MonthDrawsInOrder(m.year, m.month);
    forall name: string, k: nat | true
      ensures SequenceOf(NumberingIn(m)(name, k)) == k
    {
      NextOfName(name, m.year, m.month, k);
    }
  }

  lemma {:induction false} MonthRunContinues(m: Month, events: seq<Event>)
    requires IsMonth(m)
    ensures Counts(DrawIn(m), NumberingIn(m), SequenceOf)
    ensures AllContinue(NumberingIn(m), SequenceOf, Run(DrawIn(m), NOTHING, events))
  {
    MonthCounts(m);
    RunContinues(DrawIn(m), NumberingIn(m), SequenceOf, NOTHING, events);
  }

  /**
   * After every interleaving, with any names and any dates, all readers draw numbers that
   * nobody has stored exactly when no stored row carries a higher sequence than the newest.
   */
  lemma {:induction false} ReadersFreshExactly(m: Month, events: seq<Event>)
    requires IsMonth(m)
    ensures var rows := Run(DrawIn(m), NOTHING, events).rows;
            EveryReaderFresh(DrawIn(m), rows) <==> NewestIsHighest(SequenceOf, rows)
  {
    MonthRunContinues(m, events);
    FreshExactly(DrawIn(m), NumberingIn(m), SequenceOf, Run(DrawIn(m), NOTHING, events));
  }

  lemma {:induction false} NumbersAgree(m: Month, name: string, name': string, a: nat, b: nat)
    requires IsMonth(m)
    ensures NumberingIn(m)(name, a) == NumberingIn(m)(name', b)
            <==> OrderNumberPrefix(name) == OrderNumberPrefix(name') && a == b
  {
    var p, q := OrderNumberPrefix(name), OrderNumberPrefix(name');
    UpperOfPrefix(p);
    UpperOfPrefix(q);
    OrderNumbersUnique(p, m.year, m.month, a, q, m.year, m.month, b);
  }

  /** No event of the transaction. */
  predicate Leaves(events: seq<Event>, tx: nat) {
    forall i :: 0 <= i < |events| ==> events[i].tx != tx
  }

  lemma {:induction false} DraftStays(draw: Draw, s: State, events: seq<Event>, tx: nat)
    requires tx in s.drafts && Leaves(events, tx)
    ensures tx in Run(draw, s, events).drafts && Run(draw, s, events).drafts[tx] == s.drafts[tx]
    decreases events
  {
    if events != [] {
      DraftStays(draw, Step(draw, s, events[0]), events[1..], tx);
    }
  }

  lemma {:induction false} RunAppend(draw: Draw, s: State, first: seq<Event>, second: seq<Event>)
    ensures Run(draw, s, first + second) == Run(draw, Run(draw, s, first), second)
    decreases first
  {
    if first == [] {
      assert first + second == second;
    } else {
      assert (first + second)[1..] == first[1..] + second;
      RunAppend(draw, Step(draw, s, first[0]), first[1..], second);
    }
  }

  /**
   * Whatever happens before and between two reads, the two transactions draw the same number
   * exactly when their prefixes agree and the newest sequence is the same at both reads; and
   * then the one that inserts second is refused.
   */
  lemma {:induction false} ReadersDrawAlike(m: Month, before: seq<Event>, between: seq<Event>, a: nat, b: nat,
                                            name: string, name': string, createdAt: int, createdAt': int)
    requires IsMonth(m) && a != b && Leaves(between, a)
    ensures var draw := DrawIn(m);
            var s := Run(draw, NOTHING, before);
            var t := Run(draw, Step(draw, s, Read(a, name)), between);
            var u := Step(draw, t, Read(b, name'));
            && a in u.drafts && b in u.drafts
            && (u.drafts[a] == u.drafts[b] <==>
                OrderNumberPrefix(name) == OrderNumberPrefix(name')
                && NewestSequence(SequenceOf, s.rows) == NewestSequence(SequenceOf, t.rows))
            && (u.drafts[a] == u.drafts[b] ==>
                  var first := Step(draw, u, Insert(a, createdAt));
                  Step(draw, first, Insert(b, createdAt')).rows == first.rows)
  {
    var draw := DrawIn(m);
    var s := Run(draw, NOTHING, before);
    var drawn := Step(draw, s, Read(a, name));
    var t := Run(draw, drawn, between);
    var u := Step(draw, t, Read(b, name'));
    DraftStays(draw, drawn, between, a);
    DrawnAlike(m, before, between, a, name, name');
    if u.drafts[a] == u.drafts[b] {
      SameDraftRefused(draw, u, a, b, createdAt, createdAt');
    }
  }

  lemma {:induction false} DrawnAlike(m: Month, before: seq<Event>, between: seq<Event>, a: nat, name: string,
                                      name': string)
    requires IsMonth(m)
    ensures var draw := DrawIn(m);
            var s := Run(draw, NOTHING, before);
            var t := Run(draw, Step(draw, s, Read(a, name)), between);
            draw(LastNumber(s.rows), name) == draw(LastNumber(t.rows), name') <==>
            OrderNumberPrefix(name) == OrderNumberPrefix(name')
            && NewestSequence(SequenceOf, s.rows) == NewestSequence(SequenceOf, t.rows)
  {
    var draw := DrawIn(m);
    var s := Run(draw, NOTHING, before);
    var t := Run(draw, Step(draw, s, Read(a, name)), between);
    MonthRunContinues(m, before);
    StepContinues(draw, NumberingIn(m), SequenceOf, s, Read(a, name));
    RunContinues(draw, NumberingIn(m), SequenceOf, Step(draw, s, Read(a, name)), between);
    DrawsCompared(m, s, t, name, name');
  }

  lemma {:induction false} DrawsCompared(m: Month, s: State, t: State, name: string, name': string)
    requires IsMonth(m) && Counts(DrawIn(m), NumberingIn(m), SequenceOf)
    requires AllContinue(NumberingIn(m), SequenceOf, s) && AllContinue(NumberingIn(m), SequenceOf, t)
    ensures DrawIn(m)(LastNumber(s.rows), name) == DrawIn(m)(LastNumber(t.rows), name') <==>
            OrderNumberPrefix(name) == OrderNumberPrefix(name')
            && NewestSequence(SequenceOf, s.rows) == NewestSequence(SequenceOf, t.rows)
  {
    var j := DrawnSequence(DrawIn(m), NumberingIn(m), SequenceOf, s, name);
    var k := DrawnSequence(DrawIn(m), NumberingIn(m), SequenceOf, t, name');
    NumbersAgree(m, name, name', j, k);
  }

  lemma {:induction false} DrawnSequence(draw: Draw, numbering: Numbering, sequence: string -> int, s: State,
                                         name: string) returns (k: nat)
    requires Counts(draw, numbering, sequence) && AllContinue(numbering, sequence, s)
    ensures k == NewestSequence(sequence, s.rows) + 1 && draw(LastNumber(s.rows), name) == numbering(name, k)
  {
    DrawsBehindNewest(draw, numbering, sequence, s, name);
    k := NewestSequence(sequence, s.rows) + 1;
  }

  // ----- One prefix, any dates: like a serial run until a date is out of order -----

  predicate DateOrder(rows: seq<Row>) {
    forall i, j :: 0 <= i < j < |rows| ==> rows[i].createdAt <= rows[j].createdAt
  }

  /** Under this name numbers are drawn in the one series. */
  ghost predicate DrawsSeries(draw: Draw, series: nat -> string, name: string) {
    draw(None, name) == series(1) && forall k: nat :: draw(Some(series(k)), name) == series(k + 1)
  }

  ghost predicate AllInSeries(draw: Draw, series: nat -> string, events: seq<Event>) {
    forall i :: 0 <= i < |events| && events[i].Read? ==> DrawsSeries(draw, series, events[i].name)
  }

  ghost predicate Injective(series: nat -> string) {
    forall j: nat, k: nat :: series(j) == series(k) ==> j == k
  }

  /** The highest sequence a reader can draw. */
  function Limit(rows: seq<Row>): nat {
    if DateOrder(rows) then |rows| + 1 else |rows|
  }

  predicate IsUpTo(series: nat -> string, number: string, limit: nat) {
    exists k :: 1 <= k <= limit && number == series(k)
  }

  /** Rows are numbered as inserted; all but the last are in date order; drafts are within the
      limit. */
  ghost predicate SeriesInvariant(series: nat -> string, s: State) {
    && (forall i :: 0 <= i < |s.rows| ==> s.rows[i].number == series(i + 1))
    && (s.rows != [] ==> DateOrder(s.rows[..|s.rows| - 1]))
    && (forall tx :: tx in s.drafts ==> IsUpTo(series, s.drafts[tx], Limit(s.rows)))
  }

  lemma {:induction false} NewestInOrder(rows: seq<Row>)
    requires rows != [] && DateOrder(rows)
    ensures Newest(rows) == rows[|rows| - 1]
  {
  }

  lemma {:induction false} OrderAtLast(rows: seq<Row>)
    requires |rows| >= 2 && DateOrder(rows[..|rows| - 1])
    ensures DateOrder(rows) <==> rows[|rows| - 2].createdAt <= rows[|rows| - 1].createdAt
  {
    var earlier := rows[..|rows| - 1];
    if rows[|rows| - 2].createdAt <= rows[|rows| - 1].createdAt {
      forall i, j | 0 <= i < j < |rows|
        ensures rows[i].createdAt <= rows[j].createdAt
      {
        assert i < |rows| - 2 ==> earlier[i].createdAt <= earlier[|rows| - 2].createdAt;
        assert j < |rows| - 1 ==> earlier[i].createdAt <= earlier[j].createdAt;
      }
    }
  }

  lemma {:induction false} NewestBeforeLast(rows: seq<Row>)
    requires rows != [] && DateOrder(rows[..|rows| - 1]) && !DateOrder(rows)
    ensures |rows| >= 2 && Newest(rows) == rows[|rows| - 2]
  {
    if |rows| >= 2 {
      OrderAtLast(rows);
      NewestInOrder(rows[..|rows| - 1]);
    }
  }

  lemma {:induction false} DrawsLimit(draw: Draw, series: nat -> string, s: State, name: string)
    requires SeriesInvariant(series, s) && DrawsSeries(draw, series, name)
    ensures draw(LastNumber(s.rows), name) == series(Limit(s.rows))
  {
    if s.rows != [] {
      if DateOrder(s.rows) {
        NewestInOrder(s.rows);
        assert draw(Some(series(|s.rows|)), name) == series(|s.rows| + 1);
      } else {
        NewestBeforeLast(s.rows);
        assert draw(Some(series(|s.rows| - 1)), name) == series(|s.rows|);
      }
    }
  }

  /** A number of the series is stored exactly up to the number of rows. */
  lemma {:induction false} StoredUpTo(series: nat -> string, s: State, k: nat)
    requires SeriesInvariant(series, s) && Injective(series) && k >= 1
    ensures IsStored(s.rows, series(k)) <==> k <= |s.rows|
  {
    if k <= |s.rows| {
      assert s.rows[k - 1].number == series(k);
    }
  }

  lemma {:induction false} ReadKeepsSeries(draw: Draw, series: nat -> string, s: State, tx: nat, name: string)
    requires SeriesInvariant(series, s) && DrawsSeries(draw, series, name)
    ensures SeriesInvariant(series, Step(draw, s, Read(tx, name)))
  {
    DrawsLimit(draw, series, s, name);
    assert Limit(s.rows) >= 1 by {
      if s.rows == [] {
        assert DateOrder(s.rows);
      }
    }
    assert IsUpTo(series, draw(LastNumber(s.rows), name), Limit(s.rows));
  }

  lemma {:induction false} InsertKeepsSeries(draw: Draw, series: nat -> string, s: State, tx: nat, createdAt: int)
    requires SeriesInvariant(series, s) && Injective(series)
    ensures SeriesInvariant(series, Step(draw, s, Insert(tx, createdAt)))
    ensures !DateOrder(s.rows) ==> Step(draw, s, Insert(tx, createdAt)).rows == s.rows
  {
    if tx in s.drafts {
      var k :| 1 <= k <= Limit(s.rows) && s.drafts[tx] == series(k);
      StoredUpTo(series, s, k);
      if k > |s.rows| {
        NextRowKeeps(series, s, tx, Row(createdAt, s.drafts[tx]));
      }
    }
  }

  lemma {:induction false} NextRowKeeps(series: nat -> string, s: State, tx: nat, row: Row)
    requires SeriesInvariant(series, s) && DateOrder(s.rows) && row.number == series(|s.rows| + 1)
    ensures SeriesInvariant(series, State(s.rows + [row], s.drafts - {tx}))
  {
    var t := State(s.rows + [row], s.drafts - {tx});
    assert t.rows[..|t.rows| - 1] == s.rows;
    forall other | other in t.drafts
      ensures IsUpTo(series, t.drafts[other], Limit(t.rows))
    {
      assert IsUpTo(series, s.drafts[other], Limit(s.rows));
    }
  }

  lemma {:induction false} RunKeepsSeries(draw: Draw, series: nat -> string, s: State, events: seq<Event>)
    requires SeriesInvariant(series, s) && Injective(series) && AllInSeries(draw, series, events)
    ensures SeriesInvariant(series, Run(draw, s, events))
    ensures !DateOrder(s.rows) ==> Run(draw, s, events).rows == s.rows
    decreases events
  {
    if events != [] {
      match events[0] {
        case Read(tx, name) => ReadKeepsSeries(draw, series, s, tx, name);
        case Insert(tx, createdAt) => InsertKeepsSeries(draw, series, s, tx, createdAt);
      }
      RunKeepsSeries(draw, series, Step(draw, s, events[0]), events[1..]);
    }
  }

  /** Every name read under has the prefix. */
  predicate OnePrefix(prefix: string, events: seq<Event>) {
    forall i :: 0 <= i < |events| && events[i].Read? ==> OrderNumberPrefix(events[i].name) == prefix
  }

  function SeriesOf(m: Month, name: string): nat -> string {
    (k: nat) => NumberingIn(m)(name, k)
  }

  lemma {:induction false} PrefixIsSeries(m: Month, name: string, events: seq<Event>)
    requires IsMonth(m) && OnePrefix(OrderNumberPrefix(name), events)
    ensures Injective(SeriesOf(m, name)) && AllInSeries(DrawIn(m), SeriesOf(m, name), events)
    ensures DrawsSeries(DrawIn(m), SeriesOf(m, name), name)
  {
    MonthCounts(m);
    forall j: nat, k: nat | SeriesOf(m, name)(j) == SeriesOf(m, name)(k)
      ensures j == k
    {
      NumbersAgree(m, name, name, j, k);
    }
    forall other | OrderNumberPrefix(other) == OrderNumberPrefix(name)
      ensures DrawsSeries(DrawIn(m), SeriesOf(m, name), other)
    {
      SameSeries(m, name, other);
    }
  }

  lemma {:induction false} SameSeries(m: Month, name: string, other: string)
    requires IsMonth(m) && OrderNumberPrefix(other) == OrderNumberPrefix(name)
    ensures DrawsSeries(DrawIn(m), SeriesOf(m, name), other)
  {
    MonthCounts(m);
    NumbersAgree(m, other, name, 1, 1);
    forall k: nat | true
      ensures DrawIn(m)(Some(SeriesOf(m, name)(k)), other) == SeriesOf(m, name)(k + 1)
    {
      assert DrawIn(m)(Some(NumberingIn(m)(name, k)), other) == NumberingIn(m)(other, k + 1);
      NumbersAgree(m, other, name, k + 1, k + 1);
    }
  }

  lemma {:induction false} PrefixRunKeeps(m: Month, name: string, events: seq<Event>)
    requires IsMonth(m) && OnePrefix(OrderNumberPrefix(name), events)
    ensures SeriesInvariant(SeriesOf(m, name), Run(DrawIn(m), NOTHING, events))
  {
    PrefixIsSeries(m, name, events);
    RunKeepsSeries(DrawIn(m), SeriesOf(m, name), NOTHING, events);
  }

  /**
   * After every interleaving under one prefix, whatever the dates, the stored numbers are
   * those of a serial run, without a gap; and the next reader draws a number nobody has stored
   * exactly when the orders are dated in the sequence they were inserted.
   */
  lemma {:induction false} InterleavedLikeSerial(m: Month, name: string, events: seq<Event>)
    requires IsMonth(m) && OnePrefix(OrderNumberPrefix(name), events)
    ensures var rows := Run(DrawIn(m), NOTHING, events).rows;
            && (forall k :: 0 <= k < |rows| ==>
                  rows[k].number == Generated(seq(|rows|, _ => name), m.year, m.month)[k])
            && (!IsStored(rows, DrawIn(m)(LastNumber(rows), name)) <==> DateOrder(rows))
  {
    var s, series := Run(DrawIn(m), NOTHING, events), SeriesOf(m, name);
    PrefixRunKeeps(m, name, events);
    PrefixIsSeries(m, name, events);
    DrawsLimit(DrawIn(m), series, s, name);
    if s.rows == [] {
      assert DateOrder(s.rows);
    }
    StoredUpTo(series, s, Limit(s.rows));
    forall k | 0 <= k < |s.rows|
      ensures s.rows[k].number == Generated(seq(|s.rows|, _ => name), m.year, m.month)[k]
    {
      SerialNumber(m, name, |s.rows|, k);
    }
  }

  lemma {:induction false} SerialNumber(m: Month, name: string, n: nat, k: nat)
    requires IsMonth(m) && k < n
    ensures SeriesOf(m, name)(k + 1) == Generated(seq(n, _ => name), m.year, m.month)[k]
  {
    MonthDrawsInOrder(m.year, m.month);
    InTurn(DrawIn(m), NumberingIn(m), seq(n, _ => name), k);
  }

  /**
   * Under one prefix a further order of the month can be stored exactly while the stored ones
   * are in date order; once they are not, none ever is.
   */
  lemma {:induction false} FurtherOrdersExactly(m: Month, name: string, events: seq<Event>)
    requires IsMonth(m) && OnePrefix(OrderNumberPrefix(name), events)
    ensures var s := Run(DrawIn(m), NOTHING, events);
            (exists more :: OnePrefix(OrderNumberPrefix(name), more) && Run(DrawIn(m), s, more).rows != s.rows)
            <==> DateOrder(s.rows)
  {
    var s, draw := Run(DrawIn(m), NOTHING, events), DrawIn(m);
    forall more | OnePrefix(OrderNumberPrefix(name), more) && !DateOrder(s.rows)
      ensures Run(draw, s, more).rows == s.rows
    {
      BlockedForGood(m, name, events, more);
    }
    InterleavedLikeSerial(m, name, events);
    if DateOrder(s.rows) {
      var more := OneMore(draw, s, name);
    }
  }

  lemma {:induction false} OneMore(draw: Draw, s: State, name: string) returns (more: seq<Event>)
    requires !IsStored(s.rows, draw(LastNumber(s.rows), name))
    ensures OnePrefix(OrderNumberPrefix(name), more) && Run(draw, s, more).rows != s.rows
  {
    more := Pair(0, name, 0);
    NextInserts(draw, s, 0, name, Row(0, draw(LastNumber(s.rows), name)));
  }

  lemma {:induction false} BlockedForGood(m: Month, name: string, events: seq<Event>, more: seq<Event>)
    requires IsMonth(m) && OnePrefix(OrderNumberPrefix(name), events) && OnePrefix(OrderNumberPrefix(name), more)
    requires !DateOrder(Run(DrawIn(m), NOTHING, events).rows)
    ensures var s := Run(DrawIn(m), NOTHING, events);
            Run(DrawIn(m), s, more).rows == s.rows
  {
    PrefixRunKeeps(m, name, events);
    PrefixIsSeries(m, name, more);
    RunKeepsSeries(DrawIn(m), SeriesOf(m, name), Run(DrawIn(m), NOTHING, events), more);
  }

  lemma {:induction false} NextInserts(draw: Draw, s: State, tx: nat, name: string, row: Row)
    requires row.number == draw(LastNumber(s.rows), name) && !IsStored(s.rows, row.number)
    ensures Run(draw, s, Pair(tx, name, row.createdAt)).rows == s.rows + [row]
  {
    var events := Pair(tx, name, row.createdAt);
    var t := Step(draw, s, Read(tx, name));
    assert events[1..] == [Insert(tx, row.createdAt)] && events[1..][1..] == [];
    assert Run(draw, s, events) == Run(draw, t, events[1..]);
    assert Run(draw, t, events[1..]) == Step(draw, t, Insert(tx, row.createdAt));
  }

  // ----- Witnesses of the failing side -----

  /** A transaction that reads and inserts. */
  function Pair(tx: nat, name: string, createdAt: int): seq<Event> {
    [Read(tx, name), Insert(tx, createdAt)]
  }

  /** Two orders, the second dated before the first. */
  function LateRun(name: string): seq<Event> {
    Pair(1, name, 5) + Pair(2, name, 3)
  }

  lemma {:induction false} LateRows(draw: Draw, name: string, one: Row, two: Row)
    requires one.number == draw(None, name) && two.number == draw(Some(one.number), name) && one.number != two.number
    requires one.createdAt == 5 && two.createdAt == 3
    ensures Run(draw, NOTHING, LateRun(name)).rows == [one, two] && !DateOrder([one, two])
  {
    RunAppend(draw, NOTHING, Pair(1, name, 5), Pair(2, name, 3));
    NextInserts(draw, NOTHING, 1, name, one);
    assert [] + [one] == [one] && [one] + [two] == [one, two] && Newest([one]) == one;
    NextInserts(draw, Run(draw, NOTHING, Pair(1, name, 5)), 2, name, two);
    assert [one, two][0].createdAt > [one, two][1].createdAt;
  }

  lemma {:induction false} FirstTwo(m: Month, name: string) returns (one: string, two: string)
    requires IsMonth(m)
    ensures one == DrawIn(m)(None, name) && two == DrawIn(m)(Some(one), name) && one != two
  {
    MonthCounts(m);
    one, two := NumberingIn(m)(name, 1), NumberingIn(m)(name, 2);
    assert DrawIn(m)(Some(NumberingIn(m)(name, 1)), name) == NumberingIn(m)(name, 2);
    NumbersAgree(m, name, name, 1, 2);
  }

  /** A run under one prefix that leaves the dates out of order, so that none is stored again. */
  lemma {:induction false} LateDateBlocks(m: Month, name: string)
    requires IsMonth(m)
    ensures OnePrefix(OrderNumberPrefix(name), LateRun(name))
    ensures !DateOrder(Run(DrawIn(m), NOTHING, LateRun(name)).rows)
  {
    LateRunUnordered(m, name);
    NamedAlike(name, LateRun(name));
  }

  lemma {:induction false} NamedAlike(name: string, events: seq<Event>)
    requires forall i :: 0 <= i < |events| && events[i].Read? ==> events[i].name == name
    ensures OnePrefix(OrderNumberPrefix(name), events)
  {
  }

  lemma {:induction false} LateRunUnordered(m: Month, name: string)
    requires IsMonth(m)
    ensures !DateOrder(Run(DrawIn(m), NOTHING, LateRun(name)).rows)
  {
    var one, two := FirstTwo(m, name);
    LateRows(DrawIn(m), name, Row(5, one), Row(3, two));
  }

  /** A business is renamed, and named back, while a transaction is open. */
  function RenamedRun(former: string, renamed: string): seq<Event> {
    [Read(1, former)] + (Pair(2, renamed, 0) + (Pair(3, former, 1) + [Insert(1, 2)]))
  }

  lemma {:induction false} RenamedRows(draw: Draw, former: string, renamed: string, a: Row, b: Row, c: Row)
    requires a.number == draw(None, renamed) && b.number == draw(Some(a.number), former)
    requires c.number == draw(None, former)
    requires a.number != b.number && a.number != c.number && b.number != c.number
    requires a.createdAt == 0 && b.createdAt == 1 && c.createdAt == 2
    ensures Run(draw, NOTHING, RenamedRun(former, renamed)).rows == [a, b, c]
  {
    var s := State([], map[1 := c.number]);
    var t := Run(draw, s, Pair(2, renamed, 0));
    var u := Run(draw, t, Pair(3, former, 1));
    RenamedStages(draw, former, renamed, s);
    BesideOpen(draw, s, 2, renamed, a, 1);
    assert [] + [a] == [a] && Newest([a]) == a;
    BesideOpen(draw, t, 3, former, b, 1);
    assert [a] + [b] == [a, b];
    LastInserts(draw, u, 1, c);
    assert [a, b] + [c] == [a, b, c];
  }

  lemma {:induction false} RenamedStages(draw: Draw, former: string, renamed: string, s: State)
    requires s == State([], map[1 := draw(None, former)])
    ensures Run(draw, NOTHING, RenamedRun(former, renamed))
         == Run(draw, Run(draw, Run(draw, s, Pair(2, renamed, 0)), Pair(3, former, 1)), [Insert(1, 2)])
  {
    var second, third, last := Pair(2, renamed, 0), Pair(3, former, 1), [Insert(1, 2)];
    RunAppend(draw, NOTHING, [Read(1, former)], second + (third + last));
    assert Run(draw, NOTHING, [Read(1, former)]) == s by {
      assert [Read(1, former)][1..] == [];
      assert Step(draw, NOTHING, Read(1, former)) == s;
    }
    RunAppend(draw, s, second, third + last);
    RunAppend(draw, Run(draw, s, second), third, last);
  }

  /** One transaction reads and inserts while another stays open. */
  lemma {:induction false} BesideOpen(draw: Draw, s: State, tx: nat, name: string, row: Row, open: nat)
    requires open in s.drafts && open != tx
    requires row.number == draw(LastNumber(s.rows), name) && !IsStored(s.rows, row.number)
    ensures var t := Run(draw, s, Pair(tx, name, row.createdAt));
            t.rows == s.rows + [row] && open in t.drafts && t.drafts[open] == s.drafts[open]
  {
    NextInserts(draw, s, tx, name, row);
    DraftStays(draw, s, Pair(tx, name, row.createdAt), open);
  }

  lemma {:induction false} LastInserts(draw: Draw, s: State, tx: nat, row: Row)
    requires tx in s.drafts && s.drafts[tx] == row.number && !IsStored(s.rows, row.number)
    ensures Run(draw, s, [Insert(tx, row.createdAt)]).rows == s.rows + [row]
  {
    var events := [Insert(tx, row.createdAt)];
    assert events[1..] == [] && Run(draw, s, events) == Run(draw, Step(draw, s, events[0]), events[1..]);
  }

  /** A run with every order dated as it was inserted, after which the reader of one name draws
      a number that is stored. */
  lemma {:induction false} RenamingBlocks(m: Month, former: string, renamed: string)
    requires IsMonth(m) && OrderNumberPrefix(former) != OrderNumberPrefix(renamed)
    ensures var rows := Run(DrawIn(m), NOTHING, RenamedRun(former, renamed)).rows;
            DateOrder(rows) && !NewestIsHighest(SequenceOf, rows) && !EveryReaderFresh(DrawIn(m), rows)
  {
    var draw, numbering := DrawIn(m), NumberingIn(m);
    MonthCounts(m);
    var a, b, c := Row(0, numbering(renamed, 1)), Row(1, numbering(former, 2)), Row(2, numbering(former, 1));
    assert draw(Some(numbering(renamed, 1)), former) == numbering(former, 2);
    NumbersAgree(m, renamed, former, 1, 2);
    NumbersAgree(m, renamed, former, 1, 1);
    NumbersAgree(m, former, former, 2, 1);
    RenamedRows(draw, former, renamed, a, b, c);
    RenamedNotHighest(SequenceOf, a, b, c);
    ReadersFreshExactly(m, RenamedRun(former, renamed));
  }

  lemma {:induction false} RenamedNotHighest(sequence: string -> int, a: Row, b: Row, c: Row)
    requires a.createdAt == 0 && b.createdAt == 1 && c.createdAt == 2
    requires sequence(b.number) == 2 && sequence(c.number) == 1
    ensures DateOrder([a, b, c]) && !NewestIsHighest(sequence, [a, b, c])
  {
    NewestInOrder([a, b, c]);
    assert sequence([a, b, c][1].number) == 2;
  }
}
