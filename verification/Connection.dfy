/**
 * The database warm-up latch (db/connection.ts) as a small concurrent protocol.  Callers, the
 * two awaited operations of a handshake, its completion and its failure handler are separate
 * steps and interleave freely.  Logging is assumed not to throw.
 */
module Connection {
  import opened Text

  /** Where one handshake stands.  `Rejected` is the time between a failed await and the run of
      the `catch` handler. */
  datatype Phase = Connecting | Querying | Rejected | Failed | Ready(finishedAt: int)

  datatype Attempt = Attempt(startedAt: int, phase: Phase)

  /** The module's `state` record, and the handshakes started so far, in order.  `inFlight`
      names the handshake whose promise is stored. */
  datatype State = State(
    warm: bool,
    bootstrapConnectMs: Option<int>,
    inFlight: Option<nat>,
    attempts: seq<Attempt>)

  datatype Event =
    | WarmUp(now: int)
    | Connected(attempt: nat)
    | Queried(attempt: nat, now: int)
    | Throws(attempt: nat)
    | Catches(attempt: nat)
    | MarkWarm

  const INITIAL := State(false, None, None, [])

  predicate In(s: State, attempt: nat, phase: Phase) {
    attempt < |s.attempts| && s.attempts[attempt].phase == phase
  }

  function WithPhase(s: State, attempt: nat, phase: Phase): State
    requires attempt < |s.attempts|
  {
    s.(attempts := s.attempts[attempt := s.attempts[attempt].(phase := phase)])
  }

  /** One step; an event that cannot happen in this state changes nothing. */
  function Step(isTest: bool, s: State, e: Event): State {
    match e
    case WarmUp(now) =>
      if isTest || s.inFlight.Some? then s
      else s.(inFlight := Some(|s.attempts|), attempts := s.attempts + [Attempt(now, Connecting)])
    case Connected(i) =>
      if In(s, i, Connecting) then WithPhase(s, i, Querying) else s
    case Queried(i, now) =>
      if In(s, i, Querying) then
        WithPhase(s, i, Ready(now)).(warm := true, bootstrapConnectMs := Some(now - s.attempts[i].startedAt))
      else s
    case Throws(i) =>
      if In(s, i, Connecting) || In(s, i, Querying) then WithPhase(s, i, Rejected) else s
    case Catches(i) =>
      if In(s, i, Rejected) then WithPhase(s, i, Failed).(inFlight := None) else s
    case MarkWarm => s.(warm := true)
  }

  function Run(isTest: bool, s: State, events: seq<Event>): State
    decreases events
  {
    if events == [] then s else Run(isTest, Step(isTest, s, events[0]), events[1..])
  }

  // ----- What every reachable state satisfies -----

  function Count(attempts: seq<Attempt>, counted: Phase -> bool): nat {
    if attempts == [] then 0
    else Count(attempts[..|attempts| - 1], counted) + if counted(attempts[|attempts| - 1].phase) then 1 else 0
  }

  predicate IsRunning(phase: Phase) {
    phase.Connecting? || phase.Querying? || phase.Rejected?
  }

  predicate IsFailed(phase: Phase) {
    phase.Failed?
  }

  predicate Succeeded(s: State) {
    s.attempts != [] && s.attempts[|s.attempts| - 1].phase.Ready?
  }

  /** All but the newest handshake have failed, and the stored promise, if any, is the newest
      one's; the time on record is the successful one's own. */
  predicate Invariant(s: State) {
    && (forall i :: 0 <= i < |s.attempts| - 1 ==> s.attempts[i].phase == Failed)
    && (s.inFlight == None ==> s.attempts == [] || s.attempts[|s.attempts| - 1].phase == Failed)
    && (s.inFlight.Some? ==> s.inFlight.value + 1 == |s.attempts|
                             && s.attempts[s.inFlight.value].phase != Failed)
    && s.bootstrapConnectMs.Some? == Succeeded(s)
    && (Succeeded(s) ==>
          var a := s.attempts[|s.attempts| - 1];
          s.warm && s.bootstrapConnectMs == Some(a.phase.finishedAt - a.startedAt))
  }

  lemma {:induction false} StepInvariant(isTest: bool, s: State, e: Event)
    requires Invariant(s)
    ensures Invariant(Step(isTest, s, e))
  {
  }

  lemma {:induction false} RunInvariant(isTest: bool, s: State, events: seq<Event>)
    requires Invariant(s)
    ensures Invariant(Run(isTest, s, events))
    decreases events
  {
    if events != [] {
      StepInvariant(isTest, s, events[0]);
      RunInvariant(isTest, Step(isTest, s, events[0]), events[1..]);
    }
  }

  lemma {:induction false} CountAll(attempts: seq<Attempt>, counted: Phase -> bool)
    ensures (forall i :: 0 <= i < |attempts| ==> counted(attempts[i].phase)) ==>
              Count(attempts, counted) == |attempts|
    ensures (forall i :: 0 <= i < |attempts| ==> !counted(attempts[i].phase)) ==>
              Count(attempts, counted) == 0
  {
    if attempts != [] {
      CountAll(attempts[..|attempts| - 1], counted);
    }
  }

  /**
   * In every interleaving at most one handshake runs, and the handshakes started are the failed
   * ones plus one more exactly when a promise is stored.
   */
  lemma {:induction false} HandshakesCounted(isTest: bool, events: seq<Event>)
    ensures var s := Run(isTest, INITIAL, events);
            && Count(s.attempts, IsRunning) <= 1
            && |s.attempts| == Count(s.attempts, IsFailed) + (if s.inFlight.Some? then 1 else 0)
            && (Count(s.attempts, IsRunning) == 1 ==> s.inFlight.Some?)
            && (s.bootstrapConnectMs.Some? ==> s.warm)
  {
    RunInvariant(isTest, INITIAL, events);
    InvariantCounts(Run(isTest, INITIAL, events));
  }

  lemma {:induction false} InvariantCounts(s: State)
    requires Invariant(s)
    ensures Count(s.attempts, IsRunning) <= 1
    ensures |s.attempts| == Count(s.attempts, IsFailed) + (if s.inFlight.Some? then 1 else 0)
    ensures Count(s.attempts, IsRunning) == 1 ==> s.inFlight.Some?
  {
    if s.attempts != [] {
      var earlier := s.attempts[..|s.attempts| - 1];
      assert forall i :: 0 <= i < |earlier| ==> earlier[i].phase == Failed;
      CountAll(earlier, IsRunning);
      CountAll(earlier, IsFailed);
    }
  }

  lemma {:induction false} RunAppend(isTest: bool, s: State, a: seq<Event>, b: seq<Event>)
    ensures Run(isTest, s, a + b) == Run(isTest, Run(isTest, s, a), b)
    decreases a
  {
    if a == [] {
      assert a + b == b;
    } else {
      assert (a + b)[1..] == a[1..] + b;
      RunAppend(isTest, Step(isTest, s, a[0]), a[1..], b);
    }
  }

  lemma {:induction false} StepWarm(isTest: bool, s: State, e: Event)
    requires Invariant(s)
    ensures Step(isTest, s, e).warm <==> s.warm || e == MarkWarm || Succeeded(Step(isTest, s, e))
  {
  }

  /** The pool is warm exactly if it was, a query marked it, or a handshake has succeeded. */
  lemma {:induction false} WarmExactly(isTest: bool, s: State, events: seq<Event>)
    requires Invariant(s)
    ensures Run(isTest, s, events).warm <==> s.warm || MarkWarm in events || Succeeded(Run(isTest, s, events))
    decreases events
  {
    RunInvariant(isTest, s, events);
    if events != [] {
      StepWarm(isTest, s, events[0]);
      StepInvariant(isTest, s, events[0]);
      WarmExactly(isTest, Step(isTest, s, events[0]), events[1..]);
      RunKeeps(isTest, Step(isTest, s, events[0]), events[1..]);
      assert events == [events[0]] + events[1..];
    }
  }

  /** Under test no handshake ever starts. */
  lemma {:induction false} TestsConnectNothing(s: State, events: seq<Event>)
    requires s.attempts == []
    ensures Run(true, s, events).attempts == []
    decreases events
  {
    if events != [] {
      TestsConnectNothing(Step(true, s, events[0]), events[1..]);
    }
  }

  /** What no later step takes back. */
  predicate Keeps(s: State, t: State) {
    && (s.warm ==> t.warm)
    && (s.bootstrapConnectMs.Some? ==> t.bootstrapConnectMs == s.bootstrapConnectMs)
    && |s.attempts| <= |t.attempts|
    && (forall i :: 0 <= i < |s.attempts| ==> t.attempts[i].startedAt == s.attempts[i].startedAt)
    && (Succeeded(s) ==> t.attempts == s.attempts && t.inFlight == s.inFlight)
  }

  lemma {:induction false} RunKeeps(isTest: bool, s: State, events: seq<Event>)
    requires Invariant(s)
    ensures Keeps(s, Run(isTest, s, events))
    decreases events
  {
    if events != [] {
      var next := Step(isTest, s, events[0]);
      StepInvariant(isTest, s, events[0]);
      RunKeeps(isTest, next, events[1..]);
      StepKeeps(isTest, s, events[0]);
    }
  }

  lemma {:induction false} StepKeeps(isTest: bool, s: State, e: Event)
    requires Invariant(s)
    ensures Keeps(s, Step(isTest, s, e))
  {
  }

  /** Over any run, warmth and the recorded time are never taken back, and once a handshake has
      succeeded no further one starts. */
  lemma {:induction false} SuccessIsFinal(isTest: bool, before: seq<Event>, after: seq<Event>)
    ensures var s := Run(isTest, INITIAL, before);
            var t := Run(isTest, INITIAL, before + after);
            Keeps(s, t)
  {
    RunInvariant(isTest, INITIAL, before);
    RunAppend(isTest, INITIAL, before, after);
    RunKeeps(isTest, Run(isTest, INITIAL, before), after);
  }

  /** The promise a caller gets; `None` is the resolved promise of a test run. */
  function PromiseFor(isTest: bool, s: State, now: int): Option<nat> {
    Step(isTest, s, WarmUp(now)).inFlight
  }

  /**
   * Callers share the stored handshake while there is one; a caller who gets another promise
   * than an earlier caller starts a fresh handshake, and the earlier one has failed.
   */
  lemma {:induction false} CallersShare(isTest: bool, before: seq<Event>, between: seq<Event>, now: int, later: int)
    requires !isTest
    ensures var s := Run(isTest, INITIAL, before);
            var t := Run(isTest, INITIAL, before + [WarmUp(now)] + between);
            var first, second := PromiseFor(isTest, s, now), PromiseFor(isTest, t, later);
            && first.Some? && second.Some?
            && (first == second || (first.value < |t.attempts| && t.attempts[first.value].phase == Failed
                                    && (t.inFlight == None ==> second == Some(|t.attempts|))))
            && (t.inFlight.Some? ==> Step(isTest, t, WarmUp(later)) == t)
  {
    var s := Run(isTest, INITIAL, before);
    var called := Step(isTest, s, WarmUp(now));
    RunInvariant(isTest, INITIAL, before);
    StepInvariant(isTest, s, WarmUp(now));
    RunAppend(isTest, INITIAL, before + [WarmUp(now)], between);
    RunAppend(isTest, INITIAL, before, [WarmUp(now)]);
    assert Run(isTest, s, [WarmUp(now)]) == called by {
      assert [WarmUp(now)][1..] == [];
    }
    RunInvariant(isTest, called, between);
    RunKeeps(isTest, called, between);
  }

  // ----- The module -----

  /** The module-level record and the functions that update it. */
  class Warmer {
    const isTest: bool
    var warm: bool
    var bootstrapConnectMs: Option<int>
    var inFlight: Option<nat>
    /** The pending asynchronous functions, by handshake. */
    var attempts: seq<Attempt>

    function View(): State
      reads this
    {
      State(warm, bootstrapConnectMs, inFlight, attempts)
    }

    ghost predicate Valid()
      reads this
    {
      Invariant(View())
    }

    constructor (isTest: bool)
      ensures Valid() && View() == INITIAL && this.isTest == isTest
    {
      this.isTest := isTest;
      warm, bootstrapConnectMs, inFlight, attempts := false, None, None, [];
    }

    method WarmUpDatabase(now: int) returns (promise: Option<nat>)
      requires Valid()
      modifies this
      ensures Valid() && View() == Step(isTest, old(View()), WarmUp(now))
      ensures promise == if isTest then None else PromiseFor(isTest, old(View()), now)
    {
      StepInvariant(isTest, View(), WarmUp(now));
      if isTest {
        return None;
      }
      if inFlight.Some? {
        return inFlight;
      }
      inFlight := Some(|attempts|);
      attempts := attempts + [Attempt(now, Connecting)];
      return inFlight;
    }

    /** `$connect` resolves. */
    method ConnectResolves(i: nat)
      requires Valid() && In(View(), i, Connecting)
      modifies this
      ensures Valid() && View() == Step(isTest, old(View()), Connected(i))
    {
      StepInvariant(isTest, View(), Connected(i));
      attempts := attempts[i := attempts[i].(phase := Querying)];
    }

    /** The round trip resolves and the handshake records its success. */
    method QueryResolves(i: nat, now: int)
      requires Valid() && In(View(), i, Querying)
      modifies this
      ensures Valid() && View() == Step(isTest, old(View()), Queried(i, now))
    {
      StepInvariant(isTest, View(), Queried(i, now));
      warm := true;
      bootstrapConnectMs := Some(now - attempts[i].startedAt);
      attempts := attempts[i := attempts[i].(phase := Ready(now))];
    }

    /** Either awaited operation rejects. */
    method AwaitRejects(i: nat)
      requires Valid() && (In(View(), i, Connecting) || In(View(), i, Querying))
      modifies this
      ensures Valid() && View() == Step(isTest, old(View()), Throws(i))
    {
      StepInvariant(isTest, View(), Throws(i));
      attempts := attempts[i := attempts[i].(phase := Rejected)];
    }

    /** The `catch` handler clears the latch. */
    method HandleFailure(i: nat)
      requires Valid() && In(View(), i, Rejected)
      modifies this
      ensures Valid() && View() == Step(isTest, old(View()), Catches(i))
      ensures inFlight == None
    {
      StepInvariant(isTest, View(), Catches(i));
      inFlight := None;
      attempts := attempts[i := attempts[i].(phase := Failed)];
    }

    method MarkDatabaseWarm()
      requires Valid()
      modifies this
      ensures Valid() && View() == Step(isTest, old(View()), MarkWarm)
    {
      StepInvariant(isTest, View(), MarkWarm);
      warm := true;
    }

    method ConnectionLifecycle() returns (isWarm: bool, connectMs: Option<int>)
      requires Valid()
      ensures isWarm == warm && connectMs == bootstrapConnectMs
      ensures connectMs.Some? ==> isWarm
    {
      return warm, bootstrapConnectMs;
    }
  }
}
