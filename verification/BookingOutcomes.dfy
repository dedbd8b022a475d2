/** What each step of the store answers, in terms of the rows and nothing else. */
module BookingOutcomes {
  import opened Basics
  import opened BookingStates
  import opened BookingStore
  import opened BookingRuns
  import opened Ordering

  /** Another occupying booking of the listing lies across the dates. */
  ghost predicate DatesTaken(t: Table, id: Id, b: Booking) {
    exists o | o in t ::
      && o != id && t[o].booking.listingId == b.listingId && OccupiesCalendar(t[o].booking.state)
      && t[o].booking.startAt < b.endAt && b.startAt < t[o].booking.endAt
  }

  lemma WhenInsertSucceeds(t: Table, owners: Owners, id: Id, b: Booking, first: Option<Event>)
    ensures var step := InsertStep(t, owners, id, b, first);
            && (step.outcome.Done? <==>
                  && id !in t && b.listingId in owners && b.startAt < b.endAt
                  && 0 <= b.terms.itemCharge && 0 <= b.terms.renterFee
                  && b.terms.total == b.terms.itemCharge + b.terms.renterFee
                  && !(OccupiesCalendar(b.state) && DatesTaken(t, id, b))
                  && (forall o | o in t :: t[o].booking.quoteId != b.quoteId)
                  && (first.Some? ==> first.value.from.None? || first.value.to.Some?))
            && (step.outcome.Done? ==>
                  && step.outcome.value == b
                  && step.table == t[id := Row(b, if first.Some? then [first.value] else [])])
            && (!step.outcome.Done? ==> step.table == t)
  {
  }

  /** A quote that already backs a booking is named in the refusal, once the dates are no reason. */
  lemma WhenTheQuoteRefusesAnInsert(t: Table, owners: Owners, id: Id, b: Booking, first: Option<Event>)
    requires id !in t && b.listingId in owners && b.startAt < b.endAt
    requires 0 <= b.terms.itemCharge && 0 <= b.terms.renterFee
    requires b.terms.total == b.terms.itemCharge + b.terms.renterFee
    requires !(OccupiesCalendar(b.state) && DatesTaken(t, id, b))
    ensures InsertStep(t, owners, id, b, first).outcome == Refused(DuplicateQuoteBooking(b.quoteId))
       <==> exists o | o in t :: t[o].booking.quoteId == b.quoteId
  {
  }

  /** The request is on a listing of this owner's. */
  ghost predicate IsTheirs(t: Table, owners: Owners, id: Id, owner: Id) {
    && id in t && t[id].booking.listingId in owners
    && owners[t[id].booking.listingId] == owner
  }

  lemma WhenAcceptSucceeds(t: Table, owners: Owners, id: Id, owner: Id, now: Instant)
    ensures var outcome := AcceptStep(t, owners, id, owner, now).outcome;
            && (outcome.Missing? <==> !IsTheirs(t, owners, id, owner))
            && (IsTheirs(t, owners, id, owner) ==>
                  var b := t[id].booking;
                  && (outcome == Refused(BookingStateChanged(id, b.state))
                      <==> b.state != Requested || b.requestExpiresAt <= now)
                  && (outcome == Refused(OverlappingBooking)
                      <==> b.state == Requested && now < b.requestExpiresAt && DatesTaken(t, id, b))
                  && (outcome.Done?
                      <==> b.state == Requested && now < b.requestExpiresAt && !DatesTaken(t, id, b)))
            && (outcome.Done? ==> outcome.value.booking == t[id].booking.(state := Accepted))
  {
    if OwnedBy(t, owners, id, owner) {
      var accepted := t[id].booking.(state := Accepted);
      assert forall o | o in t :: Overlap(t[o].booking, accepted) == Overlap(t[o].booking, t[id].booking);
    }
  }

  lemma WhenDeclineSucceeds(t: Table, owners: Owners, id: Id, owner: Id)
    ensures var step := DeclineStep(t, owners, id, owner);
            && (step.outcome.Missing? <==> !IsTheirs(t, owners, id, owner))
            && (IsTheirs(t, owners, id, owner) ==>
                  var b := t[id].booking;
                  && (step.outcome.Done? <==> b.state == Requested)
                  && (b.state != Requested ==> step.outcome == Refused(BookingStateChanged(id, b.state))))
            && (step.outcome.Done? ==>
                  var b := t[id].booking.(state := Declined);
                  var e := Event(StateChanged, Some(Requested), Some(Declined), Some(owner));
                  step.outcome.value == b && step.table == t[id := Row(b, t[id].events + [e])])
            && (!step.outcome.Done? ==> step.table == t)
  {
  }

  lemma WhenAdvanceSucceeds(t: Table, id: Id, from: State, to: State, actor: Option<Id>)
    ensures var step := AdvanceStep(t, id, from, to, actor);
            && (step.outcome.Missing? <==> id !in t || t[id].booking.state != from)
            && (id in t && t[id].booking.state == from ==>
                  (step.outcome.Refused? <==> OccupiesCalendar(to) && DatesTaken(t, id, t[id].booking)))
            && (step.outcome.Done? ==>
                  var b := t[id].booking.(state := to);
                  var e := Event(StateChanged, Some(from), Some(to), actor);
                  step.outcome.value == b && step.table == t[id := Row(b, t[id].events + [e])])
            && (!step.outcome.Done? ==> step.table == t)
  {
  }

  // ---- What an owner is shown -------------------------------------------------------------------

  /** A request of this listing that its owner may still answer. */
  ghost predicate IsPending(t: Table, owners: Owners, listing: Id, owner: Id, now: Instant, o: Id) {
    && IsTheirs(t, owners, o, owner) && t[o].booking.listingId == listing
    && t[o].booking.state == Requested && now < t[o].booking.requestExpiresAt
  }

  lemma WhoIsPending(t: Table, owners: Owners, listing: Id, owner: Id, now: Instant)
    ensures forall o: Id ::
              o in PendingIds(t, owners, listing, owner, now) <==> IsPending(t, owners, listing, owner, now, o)
  {
  }

  lemma WhatIsCounted(t: Table, pending: set<Id>, id: Id)
    requires id in t && pending <= t.Keys
    ensures ConflictCount(t, pending, id)
         == |set o | o in pending && o != id && t[o].booking.startAt < t[id].booking.endAt
                     && t[id].booking.startAt < t[o].booking.endAt|
  {
    assert CountedConflicts(t, pending, id)
        == set o | o in pending && o != id && t[o].booking.startAt < t[id].booking.endAt
                   && t[id].booking.startAt < t[o].booking.endAt;
  }

  /** What `FindPendingRequests` promises of its answer. */
  ghost predicate IsTheList(
    t: Table, owners: Owners, listing: Id, owner: Id, now: Instant, shown: seq<PendingRequest>)
  {
    var pending := PendingIds(t, owners, listing, owner, now);
    var keys := Ordered(StartKeys(t, pending));
    |shown| == |pending| == |keys| && forall i | 0 <= i < |shown| :: IsShown(t, pending, keys[i], shown[i])
  }

  /** The other requests an owner would be turning down with this one. */
  ghost function Rivals(t: Table, owners: Owners, listing: Id, owner: Id, now: Instant, id: Id): set<Id>
    requires id in t
  {
    set o | o in t && IsPending(t, owners, listing, owner, now, o) && o != id
            && t[o].booking.startAt < t[id].booking.endAt && t[id].booking.startAt < t[o].booking.endAt
  }

  /** Each line is a request the owner may still answer, with the number of others across its dates. */
  lemma EachLineIsPending(
    t: Table, owners: Owners, listing: Id, owner: Id, now: Instant, shown: seq<PendingRequest>, i: nat)
    requires IsTheList(t, owners, listing, owner, now, shown) && i < |shown|
    ensures IsPending(t, owners, listing, owner, now, shown[i].id)
    ensures shown[i].conflictCount == |Rivals(t, owners, listing, owner, now, shown[i].id)|
  {
    var pending := PendingIds(t, owners, listing, owner, now);
    assert IsShown(t, pending, Ordered(StartKeys(t, pending))[i], shown[i]);
    WhoIsPending(t, owners, listing, owner, now);
    hide PendingIds, Ordered, StartKeys, ConflictCount;
    WhatIsCounted(t, pending, shown[i].id);
    assert Rivals(t, owners, listing, owner, now, shown[i].id)
        == set o | o in pending && o != shown[i].id && t[o].booking.startAt < t[shown[i].id].booking.endAt
                   && t[shown[i].id].booking.startAt < t[o].booking.endAt;
  }

  lemma EveryPendingHasALine(
    t: Table, owners: Owners, listing: Id, owner: Id, now: Instant, shown: seq<PendingRequest>, o: Id)
    requires IsTheList(t, owners, listing, owner, now, shown) && IsPending(t, owners, listing, owner, now, o)
    ensures exists i :: 0 <= i < |shown| && shown[i].id == o
  {
    var pending := PendingIds(t, owners, listing, owner, now);
    var keys, k := Ordered(StartKeys(t, pending)), Key(t[o].booking.startAt, o);
    WhoIsPending(t, owners, listing, owner, now);
    hide PendingIds, Ordered, ConflictCount;
    assert k in StartKeys(t, pending);
    assert k in Elements(keys);
    var i :| 0 <= i < |keys| && keys[i] == k;
    assert IsShown(t, pending, keys[i], shown[i]);
  }

  lemma LinesAreInOrder(
    t: Table, owners: Owners, listing: Id, owner: Id, now: Instant, shown: seq<PendingRequest>, i: nat, j: nat)
    requires IsTheList(t, owners, listing, owner, now, shown) && i < j < |shown|
    ensures shown[i].id in t && shown[j].id in t
    ensures var a, b := t[shown[i].id].booking.startAt, t[shown[j].id].booking.startAt;
            a < b || (a == b && shown[i].id < shown[j].id)
  {
    var pending := PendingIds(t, owners, listing, owner, now);
    var keys := Ordered(StartKeys(t, pending));
    hide PendingIds, Ordered, StartKeys, ConflictCount;
    assert IsShown(t, pending, keys[i], shown[i]) && IsShown(t, pending, keys[j], shown[j]);
    assert Less(keys[i], keys[j]);
  }

  /** The lines shown are the pending requests, by start and then by id, each with the number of other
      pending requests across its dates. */
  lemma WhatAnOwnerIsShown(
    t: Table, owners: Owners, listing: Id, owner: Id, now: Instant, shown: seq<PendingRequest>)
    requires IsTheList(t, owners, listing, owner, now, shown)
    ensures forall i | 0 <= i < |shown| ::
              && IsPending(t, owners, listing, owner, now, shown[i].id)
              && shown[i].conflictCount == |Rivals(t, owners, listing, owner, now, shown[i].id)|
    ensures forall o: Id | IsPending(t, owners, listing, owner, now, o) ::
              exists i :: 0 <= i < |shown| && shown[i].id == o
    ensures forall i, j | 0 <= i < j < |shown| ::
              var a, b := t[shown[i].id].booking.startAt, t[shown[j].id].booking.startAt;
              a < b || (a == b && shown[i].id < shown[j].id)
  {
    hide IsTheList, Rivals;
    forall i | 0 <= i < |shown|
      ensures IsPending(t, owners, listing, owner, now, shown[i].id)
      ensures shown[i].conflictCount == |Rivals(t, owners, listing, owner, now, shown[i].id)|
    {
      EachLineIsPending(t, owners, listing, owner, now, shown, i);
    }
    forall o: Id | IsPending(t, owners, listing, owner, now, o)
      ensures exists i :: 0 <= i < |shown| && shown[i].id == o
    {
      EveryPendingHasALine(t, owners, listing, owner, now, shown, o);
    }
    forall i, j | 0 <= i < j < |shown|
      ensures var a, b := t[shown[i].id].booking.startAt, t[shown[j].id].booking.startAt;
              a < b || (a == b && shown[i].id < shown[j].id)
    {
      LinesAreInOrder(t, owners, listing, owner, now, shown, i, j);
    }
  }

  // ---- Whole runs ---------------------------------------------------------------------------------

  /** In every run, of two bookings of a listing that hold dates one has ended before the other begins, and
      no two bookings share a quote. */
  lemma NobodyIsDoubleBooked(owners: Owners, ops: seq<Op>, i: Id, j: Id)
    requires i in Run(owners, ops) && j in Run(owners, ops) && i != j
    ensures var a, b := Run(owners, ops)[i].booking, Run(owners, ops)[j].booking;
            && (a.listingId == b.listingId && OccupiesCalendar(a.state) && OccupiesCalendar(b.state)
                ==> a.endAt <= b.startAt || b.endAt <= a.startAt)
            && a.quoteId != b.quoteId && a.startAt < a.endAt
  {
    EveryRunIsSound(owners, ops);
  }
}
