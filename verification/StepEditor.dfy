/**
 * The step list of the automation builder (components/automation/automation-form.tsx): add,
 * move, remove, patch and replace, one event at a time.
 */
module StepEditor {
  import opened Text
  import opened Sequences

  datatype Json = JText(text: string) | JNumber(n: int) | JBool(b: bool) | JNull | JList(items: seq<Json>)

  type Config = map<string, Json>

  datatype StepItem = StepItem(id: string, kind: string, config: Config)

  datatype Offset = Up | Down

  datatype Event =
    | Add(kind: string)
    | Move(index: int, offset: Offset)
    | Remove(index: int)
    | Patch(index: int, patch: Config)
    | Replace(index: int, config: Config)

  /** The state `actions` and the counter `newStepCount`. */
  datatype Editor = Editor(steps: seq<StepItem>, added: nat)

  function DefaultConfig(kind: string): Config {
    if kind == "SEND_MESSAGE" then map["body" := JText("")]
    else if kind == "SEND_TEMPLATE" then map["templateName" := JText("")]
    else if kind == "WAIT" then map["durationMinutes" := JNumber(10)]
    else if kind == "ADD_TAG" || kind == "REMOVE_TAG" then map["tags" := JList([])]
    else if kind == "SET_CONVERSATION_STATUS" then map["status" := JText("OPEN")]
    else if kind == "SET_PRIORITY" then map["priority" := JText("HIGH")]
    else if kind == "SET_LEAD_STAGE" then map["stage" := JText("QUALIFIED")]
    else if kind == "PAUSE_AI" then map["reason" := JText("MANUAL_TAKEOVER")]
    else if kind == "NOTIFY_TEAM" then map["title" := JText(""), "body" := JText(""), "level" := JText("INFO")]
    else if kind == "CREATE_NOTE" then map["content" := JText("")]
    else map[]
  }

  function NewId(k: nat): string {
    "new-step-" + Decimal(k)
  }

  function Target(index: int, offset: Offset): int {
    if offset == Up then index - 1 else index + 1
  }

  predicate Exists<T>(s: seq<T>, index: int) {
    0 <= index < |s|
  }

  function Moved<T>(s: seq<T>, index: int, offset: Offset): (r: seq<T>)
    ensures |r| == |s|
  {
    var target := Target(index, offset);
    if Exists(s, index) && Exists(s, target) then s[index := s[target]][target := s[index]] else s
  }

  function Removed<T>(s: seq<T>, index: int): seq<T> {
    if Exists(s, index) then RemoveAt(s, index) else s
  }

  function WithConfig(s: seq<StepItem>, index: int, config: Config): (r: seq<StepItem>)
    ensures |r| == |s|
  {
    if Exists(s, index) then s[index := s[index].(config := config)] else s
  }

  function Apply(e: Editor, event: Event): Editor {
    match event
    case Add(kind) => Editor(e.steps + [StepItem(NewId(e.added + 1), kind, DefaultConfig(kind))], e.added + 1)
    case Move(index, offset) => e.(steps := Moved(e.steps, index, offset))
    case Remove(index) => e.(steps := Removed(e.steps, index))
    case Patch(index, patch) =>
      if Exists(e.steps, index) then e.(steps := WithConfig(e.steps, index, e.steps[index].config + patch)) else e
    case Replace(index, config) => e.(steps := WithConfig(e.steps, index, config))
  }

  function Run(e: Editor, events: seq<Event>): Editor
    decreases events
  {
    if events == [] then e else Run(Apply(e, events[0]), events[1..])
  }

  // ----- What each event does, step by step -----

  /** Apart from the step at `index`, nothing has changed. */
  predicate OthersSame(before: Editor, after: Editor, index: int) {
    && after.added == before.added && |after.steps| == |before.steps|
    && forall i :: 0 <= i < |before.steps| && i != index ==> after.steps[i] == before.steps[i]
  }

  predicate SameIdAndKind(a: StepItem, b: StepItem) {
    a.id == b.id && a.kind == b.kind
  }

  /** The new step comes last, under the next counter's id; the others stay. */
  lemma {:induction false} AddAppends(e: Editor, kind: string)
    ensures var t, n := Apply(e, Add(kind)), |e.steps|;
            && t.added == e.added + 1 && |t.steps| == n + 1
            && (forall i :: 0 <= i < n ==> t.steps[i] == e.steps[i])
            && t.steps[n].kind == kind && t.steps[n].id == "new-step-" + Decimal(t.added)
            && t.steps[n].config == DefaultConfig(kind)
  {
  }

  /** What a new step of each kind starts with. */
  lemma {:induction false} NewStepStartsWith()
    ensures DefaultConfig("SEND_MESSAGE") == map["body" := JText("")]
    ensures DefaultConfig("SEND_TEMPLATE") == map["templateName" := JText("")]
    ensures DefaultConfig("WAIT") == map["durationMinutes" := JNumber(10)]
    ensures DefaultConfig("ADD_TAG") == DefaultConfig("REMOVE_TAG") == map["tags" := JList([])]
    ensures DefaultConfig("SET_CONVERSATION_STATUS") == map["status" := JText("OPEN")]
    ensures DefaultConfig("SET_PRIORITY") == map["priority" := JText("HIGH")]
    ensures DefaultConfig("SET_LEAD_STAGE") == map["stage" := JText("QUALIFIED")]
    ensures DefaultConfig("PAUSE_AI") == map["reason" := JText("MANUAL_TAKEOVER")]
    ensures DefaultConfig("NOTIFY_TEAM") == map["title" := JText(""), "body" := JText(""), "level" := JText("INFO")]
    ensures DefaultConfig("CREATE_NOTE") == map["content" := JText("")]
    ensures DefaultConfig("ASSIGN_CONVERSATION") == map[]
  {
  }

  /** The two neighbours have changed places; at an end nothing happens. */
  lemma {:induction false} MoveExchanges(e: Editor, index: int, offset: Offset)
    ensures var t, target := Apply(e, Move(index, offset)), if offset == Up then index - 1 else index + 1;
            if Exists(e.steps, index) && Exists(e.steps, target) then
              && t.added == e.added && |t.steps| == |e.steps|
              && t.steps[index] == e.steps[target] && t.steps[target] == e.steps[index]
              && forall i :: 0 <= i < |e.steps| && i != index && i != target ==> t.steps[i] == e.steps[i]
            else t == e
  {
  }

  /** The step at the index is gone and those behind it have moved up. */
  lemma {:induction false} RemoveDrops(e: Editor, index: int)
    ensures var t := Apply(e, Remove(index));
            && t.added == e.added
            && if Exists(e.steps, index) then
                 && |t.steps| == |e.steps| - 1
                 && (forall i :: 0 <= i < index ==> t.steps[i] == e.steps[i])
                 && (forall i :: index <= i < |t.steps| ==> t.steps[i] == e.steps[i + 1])
               else t == e
  {
  }

  /** At the step patched a key of the patch has the patch's value, any other key its old one. */
  lemma {:induction false} PatchMerges(e: Editor, index: int, patch: Config)
    ensures var t := Apply(e, Patch(index, patch));
            && OthersSame(e, t, index)
            && (Exists(e.steps, index) ==>
                  var was, now := e.steps[index], t.steps[index];
                  && SameIdAndKind(was, now)
                  && (forall k :: k in now.config <==> k in patch || k in was.config)
                  && (forall k :: k in patch ==> now.config[k] == patch[k])
                  && (forall k :: k in was.config && k !in patch ==> now.config[k] == was.config[k]))
  {
  }

  /** At the step replaced the config is the new one. */
  lemma {:induction false} ReplaceSets(e: Editor, index: int, config: Config)
    ensures var t := Apply(e, Replace(index, config));
            && OthersSame(e, t, index)
            && (Exists(e.steps, index) ==>
                  SameIdAndKind(e.steps[index], t.steps[index]) && t.steps[index].config == config)
  {
  }

  // ----- Ids -----

  predicate DistinctIds(steps: seq<StepItem>) {
    forall i, j :: 0 <= i < j < |steps| ==> steps[i].id != steps[j].id
  }

  /** An id the editor itself may hand out. */
  ghost predicate IsNewId(id: string) {
    exists k: nat :: k >= 1 && id == NewId(k)
  }

  ghost predicate NoNewIds(steps: seq<StepItem>) {
    forall i :: 0 <= i < |steps| ==> !IsNewId(steps[i].id)
  }

  lemma {:induction false} NewIdInjective(j: nat, k: nat)
    requires NewId(j) == NewId(k)
    ensures j == k
  {
    assert NewId(j)[9..] == Decimal(j) && NewId(k)[9..] == Decimal(k);
    DecimalInjective(j, k);
  }

  /** Every id came with the rule or was handed out, no later than the counter says. */
  ghost predicate IdsAccounted(e: Editor) {
    forall i :: 0 <= i < |e.steps| ==> IsNewId(e.steps[i].id) ==>
      exists k: nat :: 1 <= k <= e.added && e.steps[i].id == NewId(k)
  }

  lemma {:induction false} AddKeepsIds(e: Editor, kind: string)
    requires DistinctIds(e.steps) && IdsAccounted(e)
    ensures DistinctIds(Apply(e, Add(kind)).steps) && IdsAccounted(Apply(e, Add(kind)))
  {
    var next := Apply(e, Add(kind));
    var n := |e.steps|;
    assert next.steps[n].id == NewId(e.added + 1);
    forall i | 0 <= i < n
      ensures next.steps[i].id != next.steps[n].id
    {
      if e.steps[i].id == NewId(e.added + 1) {
        assert IsNewId(e.steps[i].id);
        var k: nat :| 1 <= k <= e.added && e.steps[i].id == NewId(k);
        NewIdInjective(k, e.added + 1);
      }
    }
    forall i | 0 <= i < |next.steps| && IsNewId(next.steps[i].id)
      ensures exists k: nat :: 1 <= k <= next.added && next.steps[i].id == NewId(k)
    {
      if i < n {
        assert next.steps[i] == e.steps[i];
        var k: nat :| 1 <= k <= e.added && e.steps[i].id == NewId(k);
        assert 1 <= k <= next.added;
      }
    }
  }

  /** The steps of `t` stand, with their ids, among those of `s`. */
  predicate IdsFrom(s: seq<StepItem>, t: seq<StepItem>, source: seq<nat>) {
    && |source| == |t|
    && (forall i :: 0 <= i < |t| ==> source[i] < |s| && t[i].id == s[source[i]].id)
    && (forall i, j :: 0 <= i < j < |t| ==> source[i] != source[j])
  }

  lemma {:induction false} RearrangedIds(e: Editor, next: Editor, source: seq<nat>)
    requires DistinctIds(e.steps) && IdsAccounted(e)
    requires next.added == e.added && IdsFrom(e.steps, next.steps, source)
    ensures DistinctIds(next.steps) && IdsAccounted(next)
  {
    forall i, j | 0 <= i < j < |next.steps|
      ensures next.steps[i].id != next.steps[j].id
    {
      assert source[i] != source[j];
    }
    forall i | 0 <= i < |next.steps| && IsNewId(next.steps[i].id)
      ensures exists k: nat :: 1 <= k <= next.added && next.steps[i].id == NewId(k)
    {
      assert IsNewId(e.steps[source[i]].id);
    }
  }

  function Places(n: nat): (r: seq<nat>)
    ensures |r| == n && forall i :: 0 <= i < n ==> r[i] == i
  {
    seq(n, i => i)
  }

  lemma {:induction false} MoveKeepsIds(e: Editor, index: int, offset: Offset)
    requires DistinctIds(e.steps) && IdsAccounted(e)
    ensures DistinctIds(Apply(e, Move(index, offset)).steps) && IdsAccounted(Apply(e, Move(index, offset)))
  {
    RearrangedIds(e, Apply(e, Move(index, offset)), Moved(Places(|e.steps|), index, offset));
  }

  lemma {:induction false} RemoveKeepsIds(e: Editor, index: int)
    requires DistinctIds(e.steps) && IdsAccounted(e)
    ensures DistinctIds(Apply(e, Remove(index)).steps) && IdsAccounted(Apply(e, Remove(index)))
  {
    RearrangedIds(e, Apply(e, Remove(index)), Removed(Places(|e.steps|), index));
  }

  lemma {:induction false} ConfigKeepsIds(e: Editor, index: int, config: Config)
    requires DistinctIds(e.steps) && IdsAccounted(e)
    ensures DistinctIds(WithConfig(e.steps, index, config))
    ensures IdsAccounted(e.(steps := WithConfig(e.steps, index, config)))
  {
    RearrangedIds(e, e.(steps := WithConfig(e.steps, index, config)), Places(|e.steps|));
  }

  lemma {:induction false} ApplyKeepsIds(e: Editor, event: Event)
    requires DistinctIds(e.steps) && IdsAccounted(e)
    ensures DistinctIds(Apply(e, event).steps) && IdsAccounted(Apply(e, event))
  {
    match event
    case Add(kind) => AddKeepsIds(e, kind);
    case Move(index, offset) => MoveKeepsIds(e, index, offset);
    case Remove(index) => RemoveKeepsIds(e, index);
    case Patch(index, patch) =>
      if Exists(e.steps, index) {
        ConfigKeepsIds(e, index, e.steps[index].config + patch);
      }
    case Replace(index, config) => ConfigKeepsIds(e, index, config);
  }

  lemma {:induction false} RunKeepsIds(e: Editor, events: seq<Event>)
    requires DistinctIds(e.steps) && IdsAccounted(e)
    ensures DistinctIds(Run(e, events).steps) && IdsAccounted(Run(e, events))
    decreases events
  {
    if events != [] {
      ApplyKeepsIds(e, events[0]);
      RunKeepsIds(Apply(e, events[0]), events[1..]);
    }
  }

  function Adds(n: nat, kind: string): seq<Event> {
    seq(n, i => Add(kind))
  }

  /** Adding n steps keeps what is there and ends with the n-th new id. */
  lemma {:induction false} RunAdds(e: Editor, n: nat, kind: string)
    ensures var r := Run(e, Adds(n, kind));
            && r.added == e.added + n && |r.steps| == |e.steps| + n && e.steps <= r.steps
            && (n > 0 ==> r.steps[|r.steps| - 1].id == NewId(e.added + n))
    decreases n
  {
    if n > 0 {
      var next := Apply(e, Add(kind));
      assert Adds(n, kind)[0] == Add(kind) && Adds(n, kind)[1..] == Adds(n - 1, kind);
      RunAdds(next, n - 1, kind);
      if n == 1 {
        assert Adds(0, kind) == [];
      }
    }
  }

  ghost predicate AlwaysDistinct(steps: seq<StepItem>) {
    forall events :: DistinctIds(Run(Editor(steps, 0), events).steps)
  }

  /** Ids stay distinct over every run exactly when the rule starts with distinct ids none of
      which the editor could hand out itself. */
  lemma {:induction false} IdsStayDistinct(steps: seq<StepItem>)
    ensures AlwaysDistinct(steps) <==> DistinctIds(steps) && NoNewIds(steps)
  {
    var start := Editor(steps, 0);
    if DistinctIds(steps) && NoNewIds(steps) {
      forall events
        ensures DistinctIds(Run(start, events).steps)
      {
        RunKeepsIds(start, events);
      }
    }
    if AlwaysDistinct(steps) {
      assert Run(start, []) == start;
      assert DistinctIds(Run(start, []).steps);
      forall i | 0 <= i < |steps|
        ensures !IsNewId(steps[i].id)
      {
        forall k: nat | k >= 1
          ensures steps[i].id != NewId(k)
        {
          NoClash(steps, i, k);
        }
      }
    }
  }

  lemma {:induction false} NoClash(steps: seq<StepItem>, i: nat, k: nat)
    requires AlwaysDistinct(steps) && i < |steps| && k >= 1
    ensures steps[i].id != NewId(k)
  {
    var events := Adds(k, "WAIT");
    RunAdds(Editor(steps, 0), k, "WAIT");
    var r := Run(Editor(steps, 0), events);
    assert DistinctIds(r.steps);
    assert r.steps[i] == steps[i];
  }

  // ----- Moves -----

  function Opposite(offset: Offset): Offset {
    if offset == Up then Down else Up
  }

  /** A move keeps the steps, and the opposite move from where the step went undoes it. */
  lemma {:induction false} MoveUndone<T>(s: seq<T>, index: int, offset: Offset)
    ensures multiset(Moved(s, index, offset)) == multiset(s)
    ensures Moved(Moved(s, index, offset), Target(index, offset), Opposite(offset)) == s
  {
  }

  datatype MoveStep = MoveStep(index: int, offset: Offset)

  function RunMoves<T>(s: seq<T>, moves: seq<MoveStep>): (r: seq<T>)
    ensures |r| == |s|
    decreases moves
  {
    if moves == [] then s else RunMoves(Moved(s, moves[0].index, moves[0].offset), moves[1..])
  }

  lemma {:induction false} RunMovesAppend<T>(s: seq<T>, a: seq<MoveStep>, b: seq<MoveStep>)
    ensures RunMoves(s, a + b) == RunMoves(RunMoves(s, a), b)
    decreases a
  {
    if a == [] {
      assert a + b == b;
    } else {
      assert (a + b)[1..] == a[1..] + b;
      RunMovesAppend(Moved(s, a[0].index, a[0].offset), a[1..], b);
    }
  }

  /** Moves that really exchange two neighbours in a list of n steps. */
  predicate Effective(moves: seq<MoveStep>, n: nat) {
    forall i :: 0 <= i < |moves| ==>
      0 <= moves[i].index < n && 0 <= Target(moves[i].index, moves[i].offset) < n
  }

  /** k moves up bring the step at k to the front and leave the others in order. */
  lemma {:induction false} BringToFront<T>(s: seq<T>, k: nat) returns (moves: seq<MoveStep>)
    requires k < |s|
    ensures Effective(moves, |s|)
    ensures RunMoves(s, moves) == [s[k]] + RemoveAt(s, k)
    decreases k
  {
    if k == 0 {
      moves := [];
    } else {
      var next := Moved(s, k, Up);
      var rest := BringToFront(next, k - 1);
      moves := [MoveStep(k, Up)] + rest;
      assert moves[1..] == rest;
      assert RemoveAt(next, k - 1) == RemoveAt(s, k);
    }
  }

  function Shifted(moves: seq<MoveStep>): (r: seq<MoveStep>)
    ensures |r| == |moves|
    ensures forall i :: 0 <= i < |moves| ==> r[i] == MoveStep(moves[i].index + 1, moves[i].offset)
  {
    seq(|moves|, i requires 0 <= i < |moves| => MoveStep(moves[i].index + 1, moves[i].offset))
  }

  /** Effective moves behind a first step leave it where it is. */
  lemma {:induction false} MovesBehind<T>(first: T, s: seq<T>, moves: seq<MoveStep>)
    requires Effective(moves, |s|)
    ensures Effective(Shifted(moves), |s| + 1)
    ensures RunMoves([first] + s, Shifted(moves)) == [first] + RunMoves(s, moves)
    decreases moves
  {
    if moves != [] {
      var m := moves[0];
      assert Moved([first] + s, m.index + 1, m.offset) == [first] + Moved(s, m.index, m.offset);
      assert Shifted(moves)[1..] == Shifted(moves[1..]);
      MovesBehind(first, Moved(s, m.index, m.offset), moves[1..]);
    }
  }

  lemma {:induction false} EffectiveAppend(a: seq<MoveStep>, b: seq<MoveStep>, n: nat)
    requires Effective(a, n) && Effective(b, n)
    ensures Effective(a + b, n)
  {
  }

  /** Every order of the same steps is reached by moves alone. */
  lemma {:induction false} EveryOrderReachable<T>(s: seq<T>, t: seq<T>) returns (moves: seq<MoveStep>)
    requires multiset(s) == multiset(t)
    ensures Effective(moves, |s|)
    ensures RunMoves(s, moves) == t
    decreases |t|
  {
    if t == [] {
      assert |multiset(s)| == 0;
      moves := [];
    } else {
      var k := HeadOccurs(t, s);
      var front := BringToFront(s, k);
      var rest := EveryOrderReachable(RemoveAt(s, k), t[1..]);
      MovesBehind(s[k], RemoveAt(s, k), rest);
      RunMovesAppend(s, front, Shifted(rest));
      EffectiveAppend(front, Shifted(rest), |s|);
      moves := front + Shifted(rest);
      assert t == [t[0]] + t[1..];
    }
  }

  /** And by nothing else: moves only reorder. */
  lemma {:induction false} MovesReorder<T>(s: seq<T>, moves: seq<MoveStep>)
    ensures multiset(RunMoves(s, moves)) == multiset(s)
    decreases moves
  {
    if moves != [] {
      MoveUndone(s, moves[0].index, moves[0].offset);
      MovesReorder(Moved(s, moves[0].index, moves[0].offset), moves[1..]);
    }
  }

  // ----- The payload -----

  datatype PayloadItem = PayloadItem(position: nat, kind: string, config: Config)

  function Payload(steps: seq<StepItem>): (items: seq<PayloadItem>)
    ensures |items| == |steps|
    ensures forall i :: 0 <= i < |items| ==> items[i] == PayloadItem(i, steps[i].kind, steps[i].config)
  {
    seq(|steps|, i requires 0 <= i < |steps| => PayloadItem(i, steps[i].kind, steps[i].config))
  }

  predicate StandsAt(items: seq<PayloadItem>, step: StepItem, i: nat) {
    PayloadItem(i, step.kind, step.config) in items
  }

  /** The steps that a receiver sorting by position would rebuild, ids apart. */
  predicate Describes(items: seq<PayloadItem>, steps: seq<StepItem>) {
    |items| == |steps| && forall i :: 0 <= i < |steps| ==> StandsAt(items, steps[i], i)
  }

  /** However the payload's entries are shuffled on the way, its positions put them back. */
  lemma {:induction false} PayloadDescribes(steps: seq<StepItem>, arrived: seq<PayloadItem>)
    requires multiset(arrived) == multiset(Payload(steps))
    ensures Describes(arrived, steps)
    ensures forall i, j :: 0 <= i < j < |arrived| ==> arrived[i].position != arrived[j].position
  {
    var items := Payload(steps);
    assert |arrived| == |multiset(arrived)| == |items|;
    forall i | 0 <= i < |steps|
      ensures StandsAt(arrived, steps[i], i)
    {
      assert items[i] in multiset(arrived);
    }
    PositionsDistinct(items, arrived);
  }

  lemma {:induction false} PositionsDistinct(items: seq<PayloadItem>, arrived: seq<PayloadItem>)
    requires multiset(arrived) == multiset(items)
    requires forall i :: 0 <= i < |items| ==> items[i].position == i
    ensures forall i, j :: 0 <= i < j < |arrived| ==> arrived[i].position != arrived[j].position
  {
    forall i, j | 0 <= i < j < |arrived|
      ensures arrived[i].position != arrived[j].position
    {
      assert arrived[i] in multiset(items) && arrived[j] in multiset(items);
      if arrived[i].position == arrived[j].position {
        assert arrived[i] == arrived[j];
        TwiceInMultiset(arrived, i, j);
        var p := arrived[i].position;
        OnceInMultiset(items, p);
      }
    }
  }

  lemma {:induction false} TwiceInMultiset<T>(s: seq<T>, i: nat, j: nat)
    requires i < j < |s| && s[i] == s[j]
    ensures multiset(s)[s[i]] >= 2
  {
    assert s == s[..i] + [s[i]] + s[i + 1..j] + [s[j]] + s[j + 1..];
  }

  lemma {:induction false} OnceInMultiset(items: seq<PayloadItem>, p: nat)
    requires p < |items| && forall i :: 0 <= i < |items| ==> items[i].position == i
    ensures multiset(items)[items[p]] == 1
  {
    assert items == items[..p] + [items[p]] + items[p + 1..];
    assert items[p] !in items[..p] && items[p] !in items[p + 1..];
  }

  // ----- The component's state and handlers -----

  lemma {:induction false} KeepsIds(e: Editor, event: Event)
    ensures DistinctIds(e.steps) && IdsAccounted(e) ==>
              DistinctIds(Apply(e, event).steps) && IdsAccounted(Apply(e, event))
  {
    if DistinctIds(e.steps) && IdsAccounted(e) {
      ApplyKeepsIds(e, event);
    }
  }

  class StepForm {
    var actions: seq<StepItem>
    var newStepCount: nat

    function View(): Editor
      reads this
    {
      Editor(actions, newStepCount)
    }

    /** Ids are distinct, and the counter is past every id it could hand out.  Whatever rule
        the form starts from, a handler never breaks this. */
    ghost predicate Valid()
      reads this
    {
      DistinctIds(actions) && IdsAccounted(View())
    }

    constructor (initial: seq<StepItem>)
      ensures View() == Editor(initial, 0)
      ensures Valid() <==> DistinctIds(initial) && NoNewIds(initial)
    {
      actions, newStepCount := initial, 0;
    }

    method AddStep(kind: string)
      modifies this
      ensures View() == Apply(old(View()), Add(kind))
      ensures old(Valid()) ==> Valid()
    {
      KeepsIds(View(), Add(kind));
      newStepCount := newStepCount + 1;
      actions := actions + [StepItem(NewId(newStepCount), kind, DefaultConfig(kind))];
    }

    method MoveStep(index: int, offset: Offset)
      modifies this
      ensures View() == Apply(old(View()), Move(index, offset))
      ensures old(Valid()) ==> Valid()
      ensures multiset(actions) == old(multiset(actions))
    {
      var target := Target(index, offset);
      ghost var before := View();
      KeepsIds(before, Move(index, offset));
      MoveUndone(actions, index, offset);
      if !Exists(actions, index) || !Exists(actions, target) {
        return;
      }
      var moving := actions[index];
      var displaced := actions[target];
      var next := new StepItem[|actions|](i requires 0 <= i < |actions| reads this => actions[i]);
      assert next[..] == before.steps;
      next[index] := displaced;
      next[target] := moving;
      assert next[..] == Moved(before.steps, index, offset);
      actions := next[..];
      assert View() == Apply(before, Move(index, offset));
    }

    method RemoveStep(index: int)
      modifies this
      ensures View() == Apply(old(View()), Remove(index))
      ensures old(Valid()) ==> Valid()
    {
      KeepsIds(View(), Remove(index));
      if Exists(actions, index) {
        actions := actions[..index] + actions[index + 1..];
      }
    }

    method PatchStepConfig(index: int, patch: Config)
      modifies this
      ensures View() == Apply(old(View()), Patch(index, patch))
      ensures old(Valid()) ==> Valid()
    {
      KeepsIds(View(), Patch(index, patch));
      if Exists(actions, index) {
        actions := actions[index := actions[index].(config := actions[index].config + patch)];
      }
    }

    method ReplaceStepConfig(index: int, config: Config)
      modifies this
      ensures View() == Apply(old(View()), Replace(index, config))
      ensures old(Valid()) ==> Valid()
    {
      KeepsIds(View(), Replace(index, config));
      if Exists(actions, index) {
        actions := actions[index := actions[index].(config := config)];
      }
    }
  }
}
