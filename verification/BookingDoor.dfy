/** Where the exclusion constraint is really needed: at an insert, and on the one
    table edge into the occupying states. */
module BookingDoor {
  import opened Basics
  import opened BookingStates
  import opened BookingStore
  import opened BookingRuns

  /** `advance` with no constraint behind it. */
  function BareAdvance(t: Table, id: Id, from: State, to: State, actor: Option<Id>): Table {
    if id in t && t[id].booking.state == from
    then t[id := WithState(t[id], StateChanged, to, actor)]
    else t
  }

  predicate IsDoor(from: State, to: State) {
    from == Requested && to == Accepted
  }

  /** Along any other edge of the table the constraint can never fire. */
  lemma ConstraintNeverFires(t: Table, id: Id, from: State, to: State, actor: Option<Id>)
    requires DatesHeldOnce(t) && CanTransition(from, to) && !IsDoor(from, to)
    ensures AdvanceStep(t, id, from, to, actor).table == BareAdvance(t, id, from, to, actor)
    ensures !AdvanceStep(t, id, from, to, actor).outcome.Refused?
  {
    OneDoorIntoTheCalendar(from, to);
    if id in t && t[id].booking.state == from {
      AlreadyHeld(t, id, to);
    }
    AdvanceIfFree(t, id, from, to, actor);
  }

  lemma AdvanceIfFree(t: Table, id: Id, from: State, to: State, actor: Option<Id>)
    requires id in t && t[id].booking.state == from ==> !Excluded(t, id, t[id].booking.(state := to))
    ensures AdvanceStep(t, id, from, to, actor).table == BareAdvance(t, id, from, to, actor)
    ensures !AdvanceStep(t, id, from, to, actor).outcome.Refused?
  {
  }

  lemma AlreadyHeld(t: Table, id: Id, to: State)
    requires DatesHeldOnce(t) && id in t
    requires OccupiesCalendar(to) ==> OccupiesCalendar(t[id].booking.state)
    ensures !Excluded(t, id, t[id].booking.(state := to))
  {
  }

  /** At the door it is needed: a bare compare-and-swap would let two requests for the same
      dates in one after the other, where the constraint refuses the second. */
  lemma DoorNeedsTheConstraint(t: Table, i: Id, j: Id, actor: Option<Id>)
    requires i in t && j in t && i != j && t[i].booking.state == t[j].booking.state == Requested
    requires t[i].booking.listingId == t[j].booking.listingId && Overlap(t[i].booking, t[j].booking)
    ensures var bare := BareAdvance(t, i, Requested, Accepted, actor);
            !DatesHeldOnce(BareAdvance(bare, j, Requested, Accepted, actor))
    ensures var first := AdvanceStep(t, i, Requested, Accepted, actor);
            first.outcome.Done? ==> AdvanceStep(first.table, j, Requested, Accepted, actor).outcome.Refused?
  {
    var held := t[i := WithState(t[i], StateChanged, Accepted, actor)];
    assert Excluded(held, j, held[j].booking.(state := Accepted)) by { assert i in held; }
    var both := BareAdvance(BareAdvance(t, i, Requested, Accepted, actor), j, Requested, Accepted, actor);
    assert i in both && j in both && Overlap(both[i].booking, both[j].booking);
  }

  // ---- At an insert -----------------------------------------------------------------------------

  /** An insert is refused for its dates exactly when the row itself would hold them and another does. */
  lemma WhenDatesRefuseAnInsert(t: Table, owners: Owners, id: Id, b: Booking, first: Option<Event>)
    ensures InsertStep(t, owners, id, b, first).outcome == Refused(OverlappingBooking)
       <==> && id !in t && RowAllowed(b) && b.listingId in owners && OccupiesCalendar(b.state)
            && exists o | o in t :: t[o].booking.listingId == b.listingId
                 && OccupiesCalendar(t[o].booking.state) && Overlap(t[o].booking, b)
  {
  }

  /** A request over dates somebody holds is written all the same; it is accepting it that is refused. */
  lemma RequestOverHeldDates(
    t: Table, owners: Owners, id: Id, b: Booking, first: Option<Event>, o: Id, now: Instant)
    requires id !in t && RowAllowed(b) && b.listingId in owners && !QuoteUsed(t, b.quoteId)
    requires first.Some? ==> EventAllowed(first.value)
    requires b.state == Requested && now < b.requestExpiresAt
    requires o in t && t[o].booking.listingId == b.listingId
    requires OccupiesCalendar(t[o].booking.state) && Overlap(t[o].booking, b)
    ensures var written := InsertStep(t, owners, id, b, first);
            && written.outcome == Done(b) && id in written.table
            && AcceptStep(written.table, owners, id, owners[b.listingId], now)
               == Step(written.table, Refused(OverlappingBooking))
  {
    assert !OccupiesCalendar(Requested);
    var t' := InsertStep(t, owners, id, b, first).table;
    assert t'[o] == t[o] && t'[id].booking == b;
    assert Excluded(t', id, b.(state := Accepted)) by { assert o in t'; }
  }

  // ---- Whole runs -------------------------------------------------------------------------------

  ghost function BareApply(owners: Owners, t: Table, op: Op): Table {
    match op
    case Advance(id, from, to, actor) => BareAdvance(t, id, from, to, actor)
    case _ => Apply(owners, t, op)
  }

  ghost function BareRun(owners: Owners, ops: seq<Op>): Table {
    if ops == [] then map[]
    else BareApply(owners, BareRun(owners, ops[..|ops| - 1]), ops[|ops| - 1])
  }

  ghost predicate AvoidsDoor(op: Op) {
    op.Advance? ==> CanTransition(op.from, op.to) && !IsDoor(op.from, op.to)
  }

  /** Guarding inserts and acceptances alone gives exactly the same runs, so it is
      enough to keep every listing's dates apart. */
  lemma {:induction false} GuardingTheDoorIsEnough(owners: Owners, ops: seq<Op>)
    requires forall op | op in ops :: AvoidsDoor(op)
    ensures BareRun(owners, ops) == Run(owners, ops) && DatesHeldOnce(BareRun(owners, ops))
  {
    if ops != [] {
      var front, last := ops[..|ops| - 1], ops[|ops| - 1];
      GuardingTheDoorIsEnough(owners, front);
      EveryRunIsSound(owners, front);
      EveryRunIsSound(owners, ops);
      assert AvoidsDoor(last);
      if last.Advance? {
        ConstraintNeverFires(Run(owners, front), last.id, last.from, last.to, last.actor);
      }
    }
  }
}
