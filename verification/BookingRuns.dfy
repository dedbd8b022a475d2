/** Any number of clients calling the store's steps in any order. */
module BookingRuns {
  import opened Basics
  import opened BookingStates
  import opened BookingStore
  import opened Ordering

  datatype Op =
    | Create(id: Id, booking: Booking)
    | CreateWithEvent(id: Id, booking: Booking, first: Event)
    | Accept(id: Id, owner: Id, now: Instant)
    | Decline(id: Id, owner: Id)
    | SweepExpired(now: Instant, limit: nat)
    | Advance(id: Id, from: State, to: State, actor: Option<Id>)

  ghost function Apply(owners: Owners, t: Table, op: Op): Table {
    match op
    case Create(id, b) => InsertStep(t, owners, id, b, None).table
    case CreateWithEvent(id, b, first) => InsertStep(t, owners, id, b, Some(first)).table
    case Accept(id, owner, now) => AcceptStep(t, owners, id, owner, now).table
    case Decline(id, owner) => DeclineStep(t, owners, id, owner).table
    case SweepExpired(now, limit) => SweepStep(t, now, limit).table
    case Advance(id, from, to, actor) => AdvanceStep(t, id, from, to, actor).table
  }

  ghost function Run(owners: Owners, ops: seq<Op>): Table {
    if ops == [] then map[]
    else Apply(owners, Run(owners, ops[..|ops| - 1]), ops[|ops| - 1])
  }

  // ---- Dates are held once ----------------------------------------------------------------------

  ghost predicate DatesHeldOnce(t: Table) {
    forall i, j | i in t && j in t && i != j
                  && t[i].booking.listingId == t[j].booking.listingId
                  && OccupiesCalendar(t[i].booking.state) && OccupiesCalendar(t[j].booking.state) ::
      !Overlap(t[i].booking, t[j].booking)
  }

  ghost predicate QuotesUsedOnce(t: Table) {
    forall i, j | i in t && j in t && i != j :: t[i].booking.quoteId != t[j].booking.quoteId
  }

  ghost predicate RowsAllowed(t: Table) {
    forall i | i in t :: RowAllowed(t[i].booking)
  }

  ghost predicate Sound(t: Table) {
    DatesHeldOnce(t) && QuotesUsedOnce(t) && RowsAllowed(t)
  }

  /** Everything but the state is fixed, and the history is only ever extended. */
  ghost predicate Follows(t: Table, t': Table) {
    forall i | i in t ::
      && i in t'
      && t'[i].booking == t[i].booking.(state := t'[i].booking.state)
      && t[i].events <= t'[i].events
  }

  lemma HoldWhatIsFree(t: Table, id: Id, row: Row)
    requires DatesHeldOnce(t) && !Excluded(t, id, row.booking)
    ensures DatesHeldOnce(t[id := row])
  {
  }

  /** Letting dates go cannot make two bookings collide. */
  lemma LettingGo(t: Table, t': Table)
    requires DatesHeldOnce(t) && t'.Keys == t.Keys
    requires forall i | i in t ::
               && t'[i].booking == t[i].booking.(state := t'[i].booking.state)
               && (OccupiesCalendar(t'[i].booking.state) ==> OccupiesCalendar(t[i].booking.state))
    ensures DatesHeldOnce(t')
  {
  }

  lemma FollowsKeeps(t: Table, t': Table)
    requires Follows(t, t') && t'.Keys == t.Keys && QuotesUsedOnce(t) && RowsAllowed(t)
    ensures QuotesUsedOnce(t') && RowsAllowed(t')
  {
  }

  lemma AcceptFollows(owners: Owners, t: Table, id: Id, owner: Id, now: Instant)
    ensures var t' := AcceptStep(t, owners, id, owner, now).table; Follows(t, t') && t'.Keys == t.Keys
  {
  }

  lemma SweepFollows(t: Table, now: Instant, limit: nat)
    ensures var t' := SweepStep(t, now, limit).table; Follows(t, t') && t'.Keys == t.Keys
  {
  }

  lemma EveryStepFollows(owners: Owners, t: Table, op: Op)
    ensures Follows(t, Apply(owners, t, op))
    ensures op.Create? || op.CreateWithEvent? || Apply(owners, t, op).Keys == t.Keys
  {
    hide AcceptStep, SweepStep, WithState, Excluded;
    match op
    case Accept(id, owner, now) => AcceptFollows(owners, t, id, owner, now);
    case SweepExpired(now, limit) => SweepFollows(t, now, limit);
    case Decline(id, owner) =>
      if id in t { OneRowFollows(t, id, StateChanged, Declined, Some(owner)); }
    case Advance(id, from, to, actor) =>
      if id in t { OneRowFollows(t, id, StateChanged, to, actor); }
    case Create(_, _) | CreateWithEvent(_, _, _) =>
  }

  lemma OneRowFollows(t: Table, id: Id, kind: EventKind, to: State, actor: Option<Id>)
    requires id in t
    ensures var t' := t[id := WithState(t[id], kind, to, actor)]; Follows(t, t') && t'.Keys == t.Keys
  {
  }

  lemma AcceptKeepsDates(owners: Owners, t: Table, id: Id, owner: Id, now: Instant)
    requires DatesHeldOnce(t)
    ensures DatesHeldOnce(AcceptStep(t, owners, id, owner, now).table)
  {
    if AcceptStep(t, owners, id, owner, now).outcome.Done? {
      var locked := t[id := WithState(t[id], StateChanged, Accepted, Some(owner))];
      HoldWhatIsFree(t, id, locked[id]);
      LettingGo(locked, AcceptedTable(t, id, owner));
    }
  }

  /** A sweep moves a row only if it is an overdue request. */
  lemma SweepTakesOnlyOverdue(t: Table, now: Instant, limit: nat, i: Id)
    requires i in t && !IsOverdue(t[i].booking, now)
    ensures SweepStep(t, now, limit).table[i] == t[i]
  {
    var all := Ordered(OverdueKeys(t, now));
    var batch := Batch(t, now, limit);
    assert forall k | k in batch :: k in all && k in Elements(all);
  }

  lemma SweepKeepsDates(t: Table, now: Instant, limit: nat)
    requires DatesHeldOnce(t)
    ensures DatesHeldOnce(SweepStep(t, now, limit).table)
  {
    ExpireKeepsDates(t, Elements(Batch(t, now, limit)));
  }

  lemma ExpireKeepsDates(t: Table, keys: set<Key>)
    requires DatesHeldOnce(t)
    ensures DatesHeldOnce(Expire(t, keys))
  {
    LettingGo(t, Expire(t, keys));
  }

  lemma DeclineKeepsDates(owners: Owners, t: Table, id: Id, owner: Id)
    requires DatesHeldOnce(t)
    ensures DatesHeldOnce(DeclineStep(t, owners, id, owner).table)
  {
    LettingGo(t, DeclineStep(t, owners, id, owner).table);
  }

  lemma StepKeepsDates(owners: Owners, t: Table, op: Op)
    requires DatesHeldOnce(t)
    ensures DatesHeldOnce(Apply(owners, t, op))
  {
    match op
    case Create(id, b) => HoldIfFree(t, id, Row(b, []));
    case CreateWithEvent(id, b, first) => HoldIfFree(t, id, Row(b, [first]));
    case Accept(id, owner, now) => AcceptKeepsDates(owners, t, id, owner, now);
    case Decline(id, owner) => DeclineKeepsDates(owners, t, id, owner);
    case SweepExpired(now, limit) => SweepKeepsDates(t, now, limit);
    case Advance(id, from, to, actor) =>
      if id in t { HoldIfFree(t, id, WithState(t[id], StateChanged, to, actor)); }
  }

  lemma HoldIfFree(t: Table, id: Id, row: Row)
    requires DatesHeldOnce(t)
    ensures !Excluded(t, id, row.booking) ==> DatesHeldOnce(t[id := row])
  {
    if !Excluded(t, id, row.booking) { HoldWhatIsFree(t, id, row); }
  }

  lemma StepKeepsRest(owners: Owners, t: Table, op: Op)
    requires QuotesUsedOnce(t) && RowsAllowed(t)
    ensures QuotesUsedOnce(Apply(owners, t, op)) && RowsAllowed(Apply(owners, t, op))
  {
    EveryStepFollows(owners, t, op);
    if !op.Create? && !op.CreateWithEvent? {
      FollowsKeeps(t, Apply(owners, t, op));
    }
  }

  /** In every interleaving no two bookings hold the same dates of one listing, and
      no quote backs two bookings. */
  lemma {:induction false} EveryRunIsSound(owners: Owners, ops: seq<Op>)
    ensures Sound(Run(owners, ops))
  {
    if ops != [] {
      var front := ops[..|ops| - 1];
      EveryRunIsSound(owners, front);
      StepKeepsDates(owners, Run(owners, front), ops[|ops| - 1]);
      StepKeepsRest(owners, Run(owners, front), ops[|ops| - 1]);
    }
  }
}
