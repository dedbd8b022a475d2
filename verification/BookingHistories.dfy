/** What a booking's history says about the booking. */
module BookingHistories {
  import opened Basics
  import opened BookingStates
  import opened BookingStore
  import opened BookingRuns

  /** Each event picks up where the last one left off, along an edge of the table,
      and the last one ends where the booking is. Only the first may come from nowhere. */
  ghost predicate LinkedEvents(events: seq<Event>, state: State) {
    && (forall i | 0 <= i < |events| :: events[i].to.Some?)
    && (forall i | 0 <= i < |events| && events[i].from.Some? ::
          CanTransition(events[i].from.value, events[i].to.value))
    && (forall i | 0 < i < |events| :: events[i].from == events[i - 1].to)
    && (events != [] ==> events[|events| - 1].to == Some(state))
  }

  ghost predicate Linked(row: Row) {
    LinkedEvents(row.events, row.booking.state)
  }

  /** A history with no gap at its start. */
  ghost predicate Explained(row: Row) {
    Linked(row) && row.events != [] && row.events[0].from.None?
  }

  /** The caller of `createWithEvent` records the state it is creating; the caller
      of `advance` has asserted the transition. */
  ghost predicate Disciplined(op: Op) {
    match op
    case CreateWithEvent(_, b, first) => first.from.None? && first.to == Some(b.state)
    case Advance(_, from, to, _) => CanTransition(from, to)
    case _ => true
  }

  ghost predicate AllLinked(t: Table) {
    forall i | i in t :: Linked(t[i])
  }

  lemma MoveStaysLinked(row: Row, kind: EventKind, to: State, actor: Option<Id>)
    requires Linked(row) && CanTransition(row.booking.state, to)
    ensures Linked(WithState(row, kind, to, actor))
  {
    var row' := WithState(row, kind, to, actor);
    var n := |row.events|;
    assert row'.events[..n] == row.events;
    forall i | 0 <= i < |row'.events|
      ensures row'.events[i].to.Some?
      ensures row'.events[i].from.Some? ==>
                CanTransition(row'.events[i].from.value, row'.events[i].to.value)
      ensures i > 0 ==> row'.events[i].from == row'.events[i - 1].to
    {
      if i < n { assert row'.events[i] == row.events[i]; }
    }
  }

  lemma StepStaysLinked(owners: Owners, t: Table, op: Op)
    requires AllLinked(t) && Disciplined(op)
    ensures AllLinked(Apply(owners, t, op))
  {
    var t' := Apply(owners, t, op);
    forall i | i in t'
      ensures Linked(t'[i])
    {
      RowStaysLinked(owners, t, op, i);
    }
  }

  lemma RowStaysLinked(owners: Owners, t: Table, op: Op, i: Id)
    requires AllLinked(t) && Disciplined(op) && i in Apply(owners, t, op)
    ensures Linked(Apply(owners, t, op)[i])
  {
    if i in t {
      hide Apply, CanTransition, LinkedEvents;
      HowARowMoves(owners, t, op, i);
      var row, row' := t[i], Apply(owners, t, op)[i];
      if row' != row {
        var kind, to, actor :| CanTransition(row.booking.state, to) && row' == WithState(row, kind, to, actor);
        MoveStaysLinked(row, kind, to, actor);
      }
    }
  }

  /** A step leaves a booking alone or moves it along one edge, writing one event. */
  lemma HowARowMoves(owners: Owners, t: Table, op: Op, i: Id)
    requires Disciplined(op) && i in t
    ensures i in Apply(owners, t, op)
    ensures var row, row' := t[i], Apply(owners, t, op)[i];
            || row' == row
            || exists kind, to, actor ::
                 CanTransition(row.booking.state, to) && row' == WithState(row, kind, to, actor)
  {
    EveryStepFollows(owners, t, op);
    assert CanTransition(Requested, Accepted) && CanTransition(Requested, Declined)
           && CanTransition(Requested, Expired);
    hide CanTransition, Excluded, Follows, Batch;
    var row, row' := t[i], Apply(owners, t, op)[i];
    match op
    case SweepExpired(now, limit) =>
      if !IsOverdue(row.booking, now) { SweepTakesOnlyOverdue(t, now, limit, i); }
      else { assert row' == row || row' == WithState(row, StateChanged, Expired, None); }
    case Accept(id, owner, now) =>
      assert || row' == row
             || (i == id && row' == WithState(row, StateChanged, Accepted, Some(owner)))
             || (row.booking.state == Requested && row' == WithState(row, AutoDeclined(id), Declined, None));
    case Decline(id, owner) =>
      assert row' == row || row' == WithState(row, StateChanged, Declined, Some(owner));
    case Advance(id, from, to, actor) =>
      assert row' == row || row' == WithState(row, StateChanged, to, actor);
    case Create(_, _) | CreateWithEvent(_, _, _) =>
      assert row' == row;
  }

  lemma {:induction false} EveryRunIsLinked(owners: Owners, ops: seq<Op>)
    requires forall op | op in ops :: Disciplined(op)
    ensures AllLinked(Run(owners, ops))
  {
    if ops != [] {
      var front, last := ops[..|ops| - 1], ops[|ops| - 1];
      EveryRunIsLinked(owners, front);
      assert Disciplined(last);
      StepStaysLinked(owners, Run(owners, front), last);
    }
  }

  /** Nothing is edited or deleted between an earlier moment of a run and a later one. */
  lemma {:induction false} HistoryOnlyGrows(owners: Owners, ops: seq<Op>, k: nat)
    requires k <= |ops|
    ensures Follows(Run(owners, ops[..k]), Run(owners, ops))
  {
    if k == |ops| {
      assert ops[..k] == ops;
    } else {
      var front, last := ops[..|ops| - 1], ops[|ops| - 1];
      HistoryOnlyGrows(owners, front, k);
      assert front[..k] == ops[..k];
      EveryStepFollows(owners, Run(owners, front), last);
      FollowsOn(Run(owners, ops[..k]), Run(owners, front), Run(owners, ops));
    }
  }

  lemma FollowsOn(t: Table, t': Table, t'': Table)
    requires Follows(t, t') && Follows(t', t'')
    ensures Follows(t, t'')
  {
  }

  /** A booking made by `createWithEvent` is explained by its history ever after. */
  lemma HistoryExplainsTheBooking(owners: Owners, ops: seq<Op>, k: nat)
    requires forall op | op in ops :: Disciplined(op)
    requires k < |ops| && ops[k].CreateWithEvent?
    requires InsertStep(Run(owners, ops[..k]), owners, ops[k].id, ops[k].booking, Some(ops[k].first)).outcome.Done?
    ensures ops[k].id in Run(owners, ops) && Explained(Run(owners, ops)[ops[k].id])
  {
    assert ops[..k + 1][..k] == ops[..k];
    EveryRunIsLinked(owners, ops);
    HistoryOnlyGrows(owners, ops, k + 1);
    assert Disciplined(ops[k]);
    assert Run(owners, ops[..k + 1])[ops[k].id].events == [ops[k].first];
  }

  // ---- Visits, departures and races -------------------------------------------------------------

  /** Every state the booking has been in, in order: where its events came from,
      and then where it is. */
  function Path(events: seq<Event>, state: State): (p: seq<State>)
    ensures p != [] && p[|p| - 1] == state
    decreases |events|
  {
    if events == [] || events[|events| - 1].from.None? then [state]
    else Path(events[..|events| - 1], events[|events| - 1].from.value) + [state]
  }

  function Visits(p: seq<State>, s: State): nat {
    if p == [] then 0 else Visits(p[..|p| - 1], s) + if p[|p| - 1] == s then 1 else 0
  }

  /** How many recorded moves left the state. */
  function Departures(events: seq<Event>, s: State): nat {
    if events == [] then 0
    else Departures(events[..|events| - 1], s) + if events[|events| - 1].from == Some(s) then 1 else 0
  }

  lemma LinkedBefore(events: seq<Event>, state: State)
    requires LinkedEvents(events, state) && events != []
    ensures var n := |events| - 1;
            if events[n].from.None? then n == 0
            else LinkedEvents(events[..n], events[n].from.value) && CanTransition(events[n].from.value, state)
  {
    var n := |events| - 1;
    assert n > 0 ==> events[n].from == events[n - 1].to;
  }

  lemma {:induction false} PathIsRun(events: seq<Event>, state: State)
    requires LinkedEvents(events, state)
    ensures IsRun(Path(events, state))
    decreases |events|
  {
    if events != [] && events[|events| - 1].from.Some? {
      LinkedBefore(events, state);
      var n := |events| - 1;
      var front := Path(events[..n], events[n].from.value);
      PathIsRun(events[..n], events[n].from.value);
      SnocRun(front, state);
    }
  }

  lemma SnocRun(p: seq<State>, s: State)
    requires IsRun(p) && p != [] && CanTransition(p[|p| - 1], s)
    ensures IsRun(p + [s])
  {
    var q := p + [s];
    forall i | 0 < i < |q|
      ensures CanTransition(q[i - 1], q[i])
    {
      if i < |p| { assert CanTransition(p[i - 1], p[i]); }
    }
  }

  /** Conservation: a state has been left once for every time it was entered, less
      one if the booking is still there. */
  lemma {:induction false} DeparturesMatchVisits(events: seq<Event>, state: State, s: State)
    requires LinkedEvents(events, state)
    ensures Departures(events, s) + (if state == s then 1 else 0) == Visits(Path(events, state), s)
    decreases |events|
  {
    hide LinkedEvents, CanTransition;
    var p := Path(events, state);
    if events == [] {
      assert p[..0] == [];
    } else {
      var n := |events| - 1;
      LinkedBefore(events, state);
      if events[n].from.Some? {
        DeparturesMatchVisits(events[..n], events[n].from.value, s);
        assert p[..|p| - 1] == Path(events[..n], events[n].from.value);
      } else {
        assert p[..0] == [] && events[..0] == [];
      }
    }
  }

  lemma {:induction false} VisitsWitness(p: seq<State>, s: State)
    ensures Visits(p, s) > 0 ==> s in p
  {
    if p != [] {
      VisitsWitness(p[..|p| - 1], s);
    }
  }

  lemma {:induction false} VisitedAtMostOnce(p: seq<State>, s: State)
    requires IsRun(p) && !InRetryLoop(s)
    ensures Visits(p, s) <= 1
  {
    if p != [] {
      var n := |p| - 1;
      RunPrefix(p, n);
      VisitedAtMostOnce(p[..n], s);
      VisitsWitness(p[..n], s);
      if p[n] == s && s in p[..n] {
        var i :| 0 <= i < n && p[i] == s;
        VisitedOnce(p, i, n);
      }
    }
  }

  lemma RunPrefix(p: seq<State>, n: nat)
    requires IsRun(p) && n <= |p|
    ensures IsRun(p[..n])
  {
    forall i | 0 < i < n
      ensures CanTransition(p[..n][i - 1], p[..n][i])
    {
      assert CanTransition(p[i - 1], p[i]);
    }
  }

  /** In every run each booking walks the table: its moves are bounded by its
      retries, and it holds its dates for one stretch at most. */
  lemma EveryBookingWalksTheTable(owners: Owners, ops: seq<Op>, id: Id)
    requires forall op | op in ops :: Disciplined(op)
    requires id in Run(owners, ops)
    ensures var row := Run(owners, ops)[id];
            var p := Path(row.events, row.booking.state);
            && IsRun(p)
            && |p| - 1 + Rank(row.booking.state) <= Rank(p[0]) + 2 * Retries(p)
            && forall i, j, k | 0 <= i <= j <= k < |p| && OccupiesCalendar(p[i]) && OccupiesCalendar(p[k]) ::
                 OccupiesCalendar(p[j])
  {
    EveryRunIsLinked(owners, ops);
    var row := Run(owners, ops)[id];
    assert Linked(row);
    var p := Path(row.events, row.booking.state);
    PathIsRun(row.events, row.booking.state);
    RunBoundedByRetries(p);
    forall i, j, k | 0 <= i <= j <= k < |p| && OccupiesCalendar(p[i]) && OccupiesCalendar(p[k])
      ensures OccupiesCalendar(p[j])
    {
      OneStretchOnTheCalendar(p, i, j, k);
    }
  }

  /** Successful `advance` calls out of `s` for one booking, over a whole run. */
  ghost function Wins(owners: Owners, ops: seq<Op>, id: Id, s: State): nat {
    if ops == [] then 0
    else
      var front, last := ops[..|ops| - 1], ops[|ops| - 1];
      Wins(owners, front, id, s) + if Won(Run(owners, front), last, id, s) then 1 else 0
  }

  ghost predicate Won(t: Table, op: Op, id: Id, s: State) {
    && op.Advance? && op.id == id && op.from == s
    && AdvanceStep(t, id, s, op.to, op.actor).outcome.Done?
  }

  lemma {:induction false} DeparturesOnlyGrow(a: seq<Event>, b: seq<Event>, s: State)
    requires a <= b
    ensures Departures(a, s) <= Departures(b, s)
  {
    if a != b {
      DeparturesOnlyGrow(a, b[..|b| - 1], s);
    }
  }

  lemma {:induction false} WinsAreDepartures(owners: Owners, ops: seq<Op>, id: Id, s: State)
    ensures id !in Run(owners, ops) ==> Wins(owners, ops, id, s) == 0
    ensures id in Run(owners, ops) ==> Wins(owners, ops, id, s) <= Departures(Run(owners, ops)[id].events, s)
  {
    hide Apply, Won;
    if ops != [] {
      var front, last := ops[..|ops| - 1], ops[|ops| - 1];
      WinsAreDepartures(owners, front, id, s);
      AWinIsADeparture(owners, Run(owners, front), last, id, s);
    }
  }

  lemma AWinIsADeparture(owners: Owners, t: Table, op: Op, id: Id, s: State)
    ensures id in t ==>
              && id in Apply(owners, t, op)
              && Departures(t[id].events, s) + (if Won(t, op, id, s) then 1 else 0)
                 <= Departures(Apply(owners, t, op)[id].events, s)
    ensures id !in t ==> !Won(t, op, id, s)
  {
    EveryStepFollows(owners, t, op);
    if id in t {
      if Won(t, op, id, s) {
        AdvanceDeparts(t, id, s, op.to, op.actor);
      } else {
        DeparturesOnlyGrow(t[id].events, Apply(owners, t, op)[id].events, s);
      }
    }
  }

  lemma AdvanceDeparts(t: Table, id: Id, from: State, to: State, actor: Option<Id>)
    requires id in t
    ensures var step := AdvanceStep(t, id, from, to, actor);
            && id in step.table
            && Departures(step.table[id].events, from)
               == Departures(t[id].events, from) + if step.outcome.Done? then 1 else 0
  {
    DeparturesSnoc(t[id].events, Event(StateChanged, Some(from), Some(to), actor), from);
  }

  lemma DeparturesSnoc(events: seq<Event>, e: Event, s: State)
    ensures Departures(events + [e], s) == Departures(events, s) + if e.from == Some(s) then 1 else 0
  {
    assert (events + [e])[..|events|] == events;
  }

  /** Racing advances: successes out of a state never exceed the entries into it,
      so outside the two retry loops one call at most ever succeeds. */
  lemma RacingAdvances(owners: Owners, ops: seq<Op>, id: Id, s: State)
    requires forall op | op in ops :: Disciplined(op)
    requires id in Run(owners, ops)
    ensures var row := Run(owners, ops)[id];
            var visits := Visits(Path(row.events, row.booking.state), s);
            Wins(owners, ops, id, s) <= if row.booking.state == s then visits - 1 else visits
    ensures !InRetryLoop(s) ==> Wins(owners, ops, id, s) <= 1
  {
    EveryRunIsLinked(owners, ops);
    WinsAreDepartures(owners, ops, id, s);
    var row := Run(owners, ops)[id];
    assert Linked(row);
    DeparturesMatchVisits(row.events, row.booking.state, s);
    PathIsRun(row.events, row.booking.state);
    if !InRetryLoop(s) { VisitedAtMostOnce(Path(row.events, row.booking.state), s); }
  }
}
