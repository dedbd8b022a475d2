/** Ordered teardown on a signal, each wait bounded on its own, with a backstop for the whole. */
module Shutdown {
  import opened Basics

  datatype Closable = Closable(name: string, timeoutMs: Option<int>)

  datatype Options = Options(closables: seq<Closable>, timeoutMs: int, closeTimeoutMs: int)

  const MAX_DELAY := 2_147_483_647

  /** How long `setTimeout` really waits: a delay out of its range becomes one millisecond. */
  function Delay(ms: int): nat {
    if 1 <= ms <= MAX_DELAY then ms else 1
  }

  /** What the k-th resource is configured to be waited for. */
  function Configured(o: Options, k: nat): int
    requires k < |o.closables|
  {
    if o.closables[k].timeoutMs.Some? then o.closables[k].timeoutMs.value else o.closeTimeoutMs
  }

  /** How long the k-th resource is waited for. */
  function Bound(o: Options, k: nat): nat
    requires k < |o.closables|
  {
    Delay(Configured(o, k))
  }

  /** How long the whole sequence is given. */
  function Backstop(o: Options): nat {
    Delay(o.timeoutMs)
  }

  /** How long the first k can take together. */
  function Bounds(o: Options, k: nat): nat
    requires k <= |o.closables|
  {
    if k == 0 then 0 else Bounds(o, k - 1) + Bound(o, k - 1)
  }

  function AllBounds(o: Options): nat {
    Bounds(o, |o.closables|)
  }

  lemma {:induction false} BoundsRise(o: Options, j: nat, k: nat)
    requires j <= k <= |o.closables|
    ensures Bounds(o, j) <= Bounds(o, k)
  {
    if j < k { BoundsRise(o, j, k - 1); }
  }

  // ---- The process, as a clock and what has happened --------------------------------------------

  datatype Phase = Idle | Closing(k: nat, began: nat) | Finished(at: nat)

  /** `exits` holds every code handed to `exit`; `armed` is whether the backstop timer is pending. */
  datatype State = State(
    now: nat, phase: Phase, startedAt: nat, armed: bool, attempts: seq<nat>, warned: seq<nat>, exits: seq<int>)

  const START := State(0, Idle, 0, false, [], [], [])

  /** `Resolved` and `Rejected` are the resource being waited for; a late settlement of one given up on is `Late`. */
  datatype What = Signal | Resolved | Rejected | GaveUp | Force | Late

  datatype Event = Event(at: nat, what: What)

  /** The loop reaches its k-th turn. */
  function Turn(o: Options, s: State, k: nat): State {
    if k < |o.closables| then s.(phase := Closing(k, s.now), attempts := s.attempts + [k])
    else s.(phase := Finished(s.now), armed := false, exits := s.exits + [0])
  }

  function After(o: Options, s: State, e: Event): State {
    var t := s.(now := e.at);
    match e.what
    case Signal =>
      if s.phase.Idle? then Turn(o, t.(startedAt := e.at, armed := true), 0) else t
    case Resolved => if s.phase.Closing? then Turn(o, t, s.phase.k + 1) else t
    case Rejected =>
      if s.phase.Closing? then Turn(o, t.(warned := s.warned + [s.phase.k]), s.phase.k + 1) else t
    case GaveUp =>
      if s.phase.Closing? then Turn(o, t.(warned := s.warned + [s.phase.k]), s.phase.k + 1) else t
    case Force => if s.armed then t.(armed := false, exits := s.exits + [1]) else t
    case Late => t
  }

  /** No timer that is pending is already past due at time `at`. */
  predicate InTime(o: Options, s: State, at: nat) {
    && s.now <= at
    && (s.phase.Closing? && s.phase.k < |o.closables| ==> at <= s.phase.began + Bound(o, s.phase.k))
    && (s.armed ==> at <= s.startedAt + Backstop(o))
  }

  /** What can happen next: anything from outside, and each timer exactly when it is due. */
  predicate Enabled(o: Options, s: State, e: Event) {
    && InTime(o, s, e.at)
    && match e.what
       case Signal => true
       case Late => true
       case Resolved => s.phase.Closing?
       case Rejected => s.phase.Closing?
       case GaveUp => s.phase.Closing? && s.phase.k < |o.closables| && e.at == s.phase.began + Bound(o, s.phase.k)
       case Force => s.armed && e.at == s.startedAt + Backstop(o)
  }

  /** The environment in its own terms: time runs forward and past no pending timer; signals and late
      settlements come at any moment, a resource settles while it is waited for, and the two timers fire when
      they are due and pending. */
  lemma WhatCanHappen(o: Options, s: State, at: nat)
    requires s.phase.Closing? ==> s.phase.k < |o.closables|
    ensures var onTime := && s.now <= at && (s.armed ==> at <= s.startedAt + Backstop(o))
                          && (s.phase.Closing? ==> at <= s.phase.began + Bound(o, s.phase.k));
            && (Enabled(o, s, Event(at, Signal)) <==> onTime) && (Enabled(o, s, Event(at, Late)) <==> onTime)
            && (Enabled(o, s, Event(at, Resolved)) <==> onTime && s.phase.Closing?)
            && (Enabled(o, s, Event(at, Rejected)) <==> onTime && s.phase.Closing?)
            && (Enabled(o, s, Event(at, GaveUp))
                <==> onTime && s.phase.Closing? && at == s.phase.began + Bound(o, s.phase.k))
            && (Enabled(o, s, Event(at, Force)) <==> onTime && s.armed && at == s.startedAt + Backstop(o))
  {
  }

  ghost predicate IsRun(o: Options, s: State, events: seq<Event>)
    decreases |events|
  {
    events == [] || (Enabled(o, s, events[0]) && IsRun(o, After(o, s, events[0]), events[1..]))
  }

  function Run(o: Options, s: State, events: seq<Event>): State
    decreases |events|
  {
    if events == [] then s else Run(o, After(o, s, events[0]), events[1..])
  }

  // ---- What every run keeps ---------------------------------------------------------------------

  function UpTo(n: nat): (xs: seq<nat>)
    ensures |xs| == n && forall i | 0 <= i < n :: xs[i] == i
  {
    seq(n, i requires 0 <= i < n => i)
  }

  /** Codes so far: the backstop may have spoken, and the end adds a zero. */
  ghost predicate ExitsFit(o: Options, s: State, done: seq<int>) {
    if s.exits == done then true
    else s.exits == [1] + done && s.startedAt + Backstop(o) <= s.now
  }

  ghost predicate Inv(o: Options, s: State) {
    match s.phase
    case Idle => s == START.(now := s.now)
    case Closing(k, began) =>
      && k < |o.closables| && s.attempts == UpTo(k + 1)
      && s.startedAt <= began <= s.startedAt + Bounds(o, k)
      && began <= s.now <= began + Bound(o, k)
      && ExitsFit(o, s, []) && (s.armed <==> s.exits == []) && (s.armed ==> s.now <= s.startedAt + Backstop(o))
    case Finished(at) =>
      && s.attempts == UpTo(|o.closables|)
      && s.startedAt <= at <= s.now && at <= s.startedAt + AllBounds(o) && !s.armed
      && (s.exits == [0]
          || (s.exits == [1, 0] && s.startedAt + Backstop(o) <= at && |o.closables| > 0))
  }

  lemma TurnKeepsInv(o: Options, s: State, k: nat)
    requires k <= |o.closables| && s.attempts == UpTo(k)
    requires s.startedAt <= s.now <= s.startedAt + Bounds(o, k)
    requires ExitsFit(o, s, []) && (s.armed <==> s.exits == [])
    requires s.armed ==> s.now <= s.startedAt + Backstop(o)
    requires k == 0 ==> s.exits == []
    ensures Inv(o, Turn(o, s, k))
  {
    assert UpTo(k + 1) == UpTo(k) + [k];
  }

  /** The wait for one resource ends, however it ends. */
  lemma MovingOnKeepsInv(o: Options, s: State, at: nat, warned: seq<nat>)
    requires Inv(o, s) && s.phase.Closing? && InTime(o, s, at)
    ensures Inv(o, Turn(o, s.(now := at, warned := warned), s.phase.k + 1))
  {
    TurnKeepsInv(o, s.(now := at, warned := warned), s.phase.k + 1);
  }

  lemma WaitingKeepsInv(o: Options, s: State, at: nat)
    requires Inv(o, s) && InTime(o, s, at)
    ensures Inv(o, s.(now := at))
  {
  }

  lemma ForceKeepsInv(o: Options, s: State, e: Event)
    requires Inv(o, s) && Enabled(o, s, e) && e.what.Force?
    ensures Inv(o, After(o, s, e))
  {
  }

  lemma EveryStepKeepsInv(o: Options, s: State, e: Event)
    requires Inv(o, s) && Enabled(o, s, e)
    ensures Inv(o, After(o, s, e))
  {
    if e.what.Force? {
      ForceKeepsInv(o, s, e);
    } else if e.what.Signal? && s.phase.Idle? {
      TurnKeepsInv(o, s.(now := e.at, startedAt := e.at, armed := true), 0);
    } else if s.phase.Closing? && !e.what.Signal? && !e.what.Late? {
      hide Inv, Turn, InTime;
      MovingOnKeepsInv(o, s, e.at, if e.what.Resolved? then s.warned else s.warned + [s.phase.k]);
    } else {
      hide Inv, InTime;
      WaitingKeepsInv(o, s, e.at);
    }
  }

  lemma {:induction false} EveryRunKeepsInv(o: Options, s: State, events: seq<Event>)
    requires Inv(o, s) && IsRun(o, s, events)
    ensures Inv(o, Run(o, s, events))
    decreases |events|
  {
    hide Inv, After, Enabled;
    if events != [] {
      EveryStepKeepsInv(o, s, events[0]);
      EveryRunKeepsInv(o, After(o, s, events[0]), events[1..]);
    }
  }

  /** Whatever settles, rejects or hangs: one attempt each, in order, done within the bounds added up. */
  lemma EveryRunIsOrderly(o: Options, events: seq<Event>)
    requires IsRun(o, START, events)
    ensures var s := Run(o, START, events);
            && |s.attempts| <= |o.closables| && s.attempts == UpTo(|s.attempts|)
            && (s.phase.Finished? ==> |s.attempts| == |o.closables| && s.phase.at <= s.startedAt + AllBounds(o))
            && (!s.phase.Idle? && s.now > s.startedAt + AllBounds(o) ==> s.phase.Finished?)
            && (s.phase.Finished? <==> 0 in s.exits)
  {
    EveryRunKeepsInv(o, START, events);
    var s := Run(o, START, events);
    hide IsRun, Run;
    if s.phase.Closing? { BoundsRise(o, s.phase.k + 1, |o.closables|); }
  }

  /** A later signal, or a resource settling after it was given up on, might as well not have happened. */
  lemma IgnoredEventsLeaveNoTrace(o: Options, s: State, e: Event, rest: seq<Event>)
    requires e.what.Late? || (e.what.Signal? && !s.phase.Idle?)
    requires IsRun(o, s, [e] + rest)
    ensures IsRun(o, s, rest)
    ensures Run(o, s, [e] + rest) == if rest == [] then s.(now := e.at) else Run(o, s, rest)
  {
    assert ([e] + rest)[0] == e && ([e] + rest)[1..] == rest;
    assert After(o, s, e) == s.(now := e.at);
    if rest != [] {
      assert After(o, s.(now := e.at), rest[0]) == After(o, s, rest[0]);
    }
  }

  /** It never gets stuck: until it has finished, some timer is due and can fire. */
  lemma NeverStuck(o: Options, s: State)
    requires Inv(o, s) && s.phase.Closing?
    ensures exists e :: Enabled(o, s, e) && (e.what.GaveUp? || e.what.Force?)
  {
    var gaveUp := Event(s.phase.began + Bound(o, s.phase.k), GaveUp);
    var force := Event(s.startedAt + Backstop(o), Force);
    assert Enabled(o, s, gaveUp) || Enabled(o, s, force);
  }

  ghost predicate StopsCleanly(o: Options) {
    o.closables == [] || AllBounds(o) < Backstop(o)
  }

  ghost predicate CleanExits(s: State) {
    s.exits == (if s.phase.Finished? then [0] else [])
  }

  lemma BudgetMeansCleanExit(o: Options, events: seq<Event>)
    requires IsRun(o, START, events) && StopsCleanly(o)
    ensures CleanExits(Run(o, START, events))
  {
    EveryRunKeepsInv(o, START, events);
    var s := Run(o, START, events);
    hide IsRun, Run;
    if s.phase.Closing? { BoundsRise(o, s.phase.k + 1, |o.closables|); }
  }

  // ---- It always can and soon does end ----------------------------------------------------------

  lemma RunOfCons(o: Options, s: State, e: Event, rest: seq<Event>)
    requires Enabled(o, s, e) && IsRun(o, After(o, s, e), rest)
    ensures IsRun(o, s, [e] + rest) && Run(o, s, [e] + rest) == Run(o, After(o, s, e), rest)
  {
    assert ([e] + rest)[0] == e && ([e] + rest)[1..] == rest;
    hide After, Enabled;
  }

  /** How many turns are left, and whether the backstop may still interrupt one. */
  ghost function TurnsLeft(o: Options, s: State): nat
    requires Inv(o, s)
  {
    match s.phase
    case Idle => |o.closables| + 1
    case Closing(k, _) => |o.closables| - k
    case Finished(_) => 0
  }

  /** The next timer, or the first signal. */
  lemma NextEvent(o: Options, s: State) returns (e: Event)
    requires Inv(o, s) && !s.phase.Finished?
    ensures Enabled(o, s, e) && Inv(o, After(o, s, e))
    ensures var t := After(o, s, e);
            TurnsLeft(o, t) < TurnsLeft(o, s) || (TurnsLeft(o, t) == TurnsLeft(o, s) && s.armed && !t.armed)
  {
    if s.phase.Idle? {
      e := Event(s.now, Signal);
    } else {
      e := Event(s.phase.began + Bound(o, s.phase.k), GaveUp);
      if !Enabled(o, s, e) { e := Event(s.startedAt + Backstop(o), Force); }
    }
    EveryStepKeepsInv(o, s, e);
  }

  lemma {:induction false} CanFinish(o: Options, s: State) returns (events: seq<Event>)
    requires Inv(o, s)
    ensures IsRun(o, s, events) && Run(o, s, events).phase.Finished?
    decreases TurnsLeft(o, s), if s.armed then 1 else 0
  {
    events := [];
    if !s.phase.Finished? {
      var e := NextEvent(o, s);
      hide Inv, TurnsLeft, After, Enabled;
      var rest := CanFinish(o, After(o, s, e));
      RunOfCons(o, s, e, rest);
      events := [e] + rest;
    }
  }

  lemma {:induction false} RunsJoin(o: Options, s: State, a: seq<Event>, b: seq<Event>)
    requires IsRun(o, s, a) && IsRun(o, Run(o, s, a), b)
    ensures IsRun(o, s, a + b) && Run(o, s, a + b) == Run(o, Run(o, s, a), b)
    decreases |a|
  {
    hide After, Enabled;
    if a == [] {
      assert a + b == b;
    } else {
      assert (a + b)[1..] == a[1..] + b;
      RunsJoin(o, After(o, s, a[0]), a[1..], b);
    }
  }

  /** Every run goes on to one that has finished, with exit code 0 handed over. */
  lemma EveryRunCanFinish(o: Options, events: seq<Event>) returns (more: seq<Event>)
    requires IsRun(o, START, events)
    ensures IsRun(o, START, events + more)
    ensures var s := Run(o, START, events + more);
            s.phase.Finished? && 0 in s.exits && (StopsCleanly(o) ==> s.exits == [0])
  {
    EveryRunKeepsInv(o, START, events);
    hide Inv, Run, IsRun;
    more := CanFinish(o, Run(o, START, events));
    RunsJoin(o, START, events, more);
    EveryRunIsOrderly(o, events + more);
    if StopsCleanly(o) { BudgetMeansCleanExit(o, events + more); }
  }

  /** Within budget, a run whose clock has passed the bounds added up has exited, once, with 0. */
  lemma ExitedInTime(o: Options, events: seq<Event>)
    requires IsRun(o, START, events) && StopsCleanly(o)
    requires var s := Run(o, START, events); !s.phase.Idle? && s.now > s.startedAt + AllBounds(o)
    ensures Run(o, START, events).exits == [0]
  {
    hide Run, IsRun;
    EveryRunIsOrderly(o, events);
    BudgetMeansCleanExit(o, events);
  }

  // ---- What is warned of ------------------------------------------------------------------------

  /** How many waits are over. */
  function Ended(o: Options, s: State): nat {
    match s.phase
    case Idle => 0
    case Closing(k, _) => k
    case Finished(_) => |o.closables|
  }

  function Resolutions(events: seq<Event>): nat {
    if events == [] then 0 else Resolutions(events[1..]) + if events[0].what.Resolved? then 1 else 0
  }

  /** A wait that ends without the resource closing is warned of, by its number, and no other is. */
  lemma WarnedWhenNotClosed(o: Options, s: State, e: Event)
    requires Inv(o, s) && Enabled(o, s, e)
    ensures After(o, s, e).warned
         == s.warned + if e.what.Rejected? || (e.what.GaveUp? && s.phase.Closing?) then [s.phase.k] else []
    ensures Ended(o, After(o, s, e))
         == Ended(o, s) + if e.what.Rejected? || e.what.GaveUp? || e.what.Resolved? then 1 else 0
  {
  }

  lemma {:induction false} WarningsAccount(o: Options, s: State, events: seq<Event>)
    requires Inv(o, s) && IsRun(o, s, events)
    ensures var end := Run(o, s, events);
            Ended(o, end) + |s.warned| == Ended(o, s) + Resolutions(events) + |end.warned|
    decreases |events|
  {
    if events != [] {
      WarnedWhenNotClosed(o, s, events[0]);
      EveryStepKeepsInv(o, s, events[0]);
      hide Inv, After, Enabled, Ended;
      WarningsAccount(o, After(o, s, events[0]), events[1..]);
    }
  }

  /** In every run each wait that is over was ended by the resource closing or has been warned of. */
  lemma EveryWaitIsAccountedFor(o: Options, events: seq<Event>)
    requires IsRun(o, START, events)
    ensures var s := Run(o, START, events); Ended(o, s) == Resolutions(events) + |s.warned|
  {
    WarningsAccount(o, START, events);
  }

  // ---- And only then ----------------------------------------------------------------------------

  /** Every resource hangs: the first k are given up on one after another. */
  ghost function Hanging(o: Options, k: nat): seq<Event>
    requires k < |o.closables|
  {
    if k == 0 then [Event(0, Signal)] else Hanging(o, k - 1) + [Event(Bounds(o, k), GaveUp)]
  }

  lemma {:induction false} RunsConcat(o: Options, s: State, a: seq<Event>, e: Event)
    requires IsRun(o, s, a) && Enabled(o, Run(o, s, a), e)
    ensures IsRun(o, s, a + [e]) && Run(o, s, a + [e]) == After(o, Run(o, s, a), e)
    decreases |a|
  {
    hide After, Enabled;
    if a == [] {
      assert a + [e] == [e] && [e][1..] == [];
      assert IsRun(o, After(o, s, e), []) && Run(o, After(o, s, e), []) == After(o, s, e);
    } else {
      assert (a + [e])[1..] == a[1..] + [e];
      RunsConcat(o, After(o, s, a[0]), a[1..], e);
    }
  }

  lemma {:induction false} HangingRuns(o: Options, k: nat)
    requires k < |o.closables| && (k == 0 || Bounds(o, k) <= Backstop(o))
    ensures IsRun(o, START, Hanging(o, k))
    ensures var s := Run(o, START, Hanging(o, k));
            s.phase == Closing(k, Bounds(o, k)) && s.now == Bounds(o, k)
            && s.startedAt == 0 && s.armed && s.exits == []
  {
    if k == 0 {
      assert Run(o, START, Hanging(o, 0)) == After(o, START, Event(0, Signal));
    } else {
      BoundsRise(o, k - 1, k);
      HangingRuns(o, k - 1);
      var e := Event(Bounds(o, k), GaveUp);
      hide IsRun, Run, Hanging;
      RunsConcat(o, START, Hanging(o, k - 1), e);
      assert Hanging(o, k) == Hanging(o, k - 1) + [e] by { HangingMore(o, k); }
    }
  }

  lemma HangingMore(o: Options, k: nat)
    requires 0 < k < |o.closables|
    ensures Hanging(o, k) == Hanging(o, k - 1) + [Event(Bounds(o, k), GaveUp)]
  {
  }

  /** The first turn whose wait reaches past the backstop. */
  ghost function Overrun(o: Options, k: nat): (j: nat)
    requires k < |o.closables| && AllBounds(o) >= Backstop(o) && (k == 0 || Bounds(o, k) < Backstop(o))
    ensures j < |o.closables| && Bounds(o, j + 1) >= Backstop(o) && (j == 0 || Bounds(o, j) < Backstop(o))
    decreases |o.closables| - k
  {
    if Bounds(o, k + 1) >= Backstop(o) then k else Overrun(o, k + 1)
  }

  /** If the bounds reach the backstop, a run where everything hangs exits non-zero. */
  lemma OverBudgetCanForceExit(o: Options) returns (events: seq<Event>)
    requires !StopsCleanly(o)
    ensures IsRun(o, START, events) && Run(o, START, events).exits == [1]
  {
    var k := Overrun(o, 0);
    HangingRuns(o, k);
    var e := Event(Backstop(o), Force);
    hide IsRun, Run, Hanging;
    RunsConcat(o, START, Hanging(o, k), e);
    events := Hanging(o, k) + [e];
  }

  /** Every run exits once, with zero, exactly when the bounds together stay below the backstop. */
  lemma CleanExitIffWithinBudget(o: Options)
    ensures StopsCleanly(o) <==> forall events | IsRun(o, START, events) :: CleanExits(Run(o, START, events))
  {
    if StopsCleanly(o) {
      forall events | IsRun(o, START, events)
        ensures CleanExits(Run(o, START, events))
      {
        BudgetMeansCleanExit(o, events);
      }
    } else {
      var events := OverBudgetCanForceExit(o);
      assert !CleanExits(Run(o, START, events));
    }
  }

  // ---- The budget as it is written down ---------------------------------------------------------

  /** A resource's own bound goes before the default, and a bound out of range is one millisecond. */
  lemma OwnBoundGoesFirst(o: Options, k: nat, ms: int)
    requires k < |o.closables|
    requires ms == (match o.closables[k].timeoutMs case Some(own) => own case None => o.closeTimeoutMs)
    ensures Bound(o, k) == if 1 <= ms <= 2_147_483_647 then ms else 1
    ensures Backstop(o) == if 1 <= o.timeoutMs <= 2_147_483_647 then o.timeoutMs else 1
  {
  }

  predicate InRange(ms: int) {
    1 <= ms <= MAX_DELAY
  }

  function ConfiguredSum(o: Options, k: nat): int
    requires k <= |o.closables|
  {
    if k == 0 then 0 else ConfiguredSum(o, k - 1) + Configured(o, k - 1)
  }

  lemma {:induction false} BoundsAsConfigured(o: Options, k: nat)
    requires k <= |o.closables| && forall i | 0 <= i < k :: InRange(Configured(o, i))
    ensures Bounds(o, k) == ConfiguredSum(o, k)
  {
    if k > 0 { BoundsAsConfigured(o, k - 1); }
  }

  /** With every delay in the timer's range, the budget is the sum of the configured numbers. */
  lemma BudgetAsConfigured(o: Options)
    requires InRange(o.timeoutMs) && forall i | 0 <= i < |o.closables| :: InRange(Configured(o, i))
    ensures StopsCleanly(o) <==> o.closables == [] || ConfiguredSum(o, |o.closables|) < o.timeoutMs
  {
    BoundsAsConfigured(o, |o.closables|);
  }

  /** A backstop beyond that range fires at once, so a sum far below it is no protection. */
  lemma HugeBackstopFiresAtOnce(bound: nat)
    requires 1 <= bound <= MAX_DELAY
    ensures var o := Options([Closable("redis", None)], MAX_DELAY + 1, bound);
            ConfiguredSum(o, 1) < o.timeoutMs && !StopsCleanly(o)
  {
    var o := Options([Closable("redis", None)], MAX_DELAY + 1, bound);
    assert Bounds(o, 1) == Bounds(o, 0) + Bound(o, 0);
    assert ConfiguredSum(o, 1) == ConfiguredSum(o, 0) + Configured(o, 0);
  }

  // ---- The handler itself -----------------------------------------------------------------------

  class Handler {
    const options: Options
    var shuttingDown: bool
    var turn: nat
    var waiting: bool
    var began: nat
    var clock: nat
    var startedAt: nat
    var armed: bool
    var attempts: seq<nat>
    var warned: seq<nat>
    var exits: seq<int>

    /** The handler's fields as a state of the protocol. */
    ghost function View(): State
      reads this
    {
      State(clock,
            if !shuttingDown then Idle else if waiting then Closing(turn, began) else Finished(began),
            startedAt, armed, attempts, warned, exits)
    }

    constructor (o: Options)
      ensures options == o && View() == START
    {
      options := o;
      shuttingDown, turn, waiting, began, clock, startedAt, armed := false, 0, false, 0, 0, 0, false;
      attempts, warned, exits := [], [], [];
    }

    /** One turn of the loop: start the next close, or clear the backstop and exit. */
    method NextTurn(k: nat)
      requires shuttingDown
      modifies this
      ensures View() == Turn(options, old(View()), k) && shuttingDown
    {
      began := clock;
      if k < |options.closables| {
        turn, waiting := k, true;
        attempts := attempts + [k];
      } else {
        waiting, armed := false, false;
        exits := exits + [0];
      }
    }

    method OnSignal(at: nat)
      modifies this
      ensures View() == After(options, old(View()), Event(at, Signal))
    {
      clock := at;
      if shuttingDown { return; }
      shuttingDown, startedAt, armed := true, at, true;
      NextTurn(0);
    }

    /** The close being waited for resolved, rejected, or outlasted its own bound. */
    method OnOutcome(at: nat, outcome: What)
      requires outcome in {Resolved, Rejected, GaveUp}
      modifies this
      ensures View() == After(options, old(View()), Event(at, outcome))
    {
      clock := at;
      if !shuttingDown || !waiting { return; }
      if outcome != Resolved { warned := warned + [turn]; }
      NextTurn(turn + 1);
    }

    method OnBackstop(at: nat)
      modifies this
      ensures View() == After(options, old(View()), Event(at, Force))
    {
      clock := at;
      if armed {
        armed := false;
        exits := exits + [1];
      }
    }
  }
}
