/** Accepting a request: one transaction that locks the dates and declines every
    conflict, and what the owner was told before pressing the button. */
module BookingAcceptance {
  import opened Basics
  import opened BookingStates
  import opened BookingStore
  import opened BookingOutcomes
  import opened Ordering

  function ChangedRows(t: Table, t': Table): set<Id> {
    set o | o in t && o in t' && t[o] != t'[o]
  }

  /** All or nothing. */
  lemma AcceptIsAllOrNothing(t: Table, owners: Owners, id: Id, owner: Id, now: Instant)
    ensures var step := AcceptStep(t, owners, id, owner, now);
            if !step.outcome.Done? then step.table == t
            else
              && step.table.Keys == t.Keys
              && ChangedRows(t, step.table) == {id} + step.outcome.value.autoDeclined
              && id !in step.outcome.value.autoDeclined
              && (forall o :: o in step.outcome.value.autoDeclined
                    <==> && o in t && o != id && t[o].booking.state == Requested
                         && t[o].booking.listingId == t[id].booking.listingId
                         && t[o].booking.startAt < t[id].booking.endAt
                         && t[id].booking.startAt < t[o].booking.endAt)
              && step.table[id] == WithState(t[id], StateChanged, Accepted, Some(owner))
              && (forall o | o in step.outcome.value.autoDeclined ::
                    step.table[o] == WithState(t[o], AutoDeclined(id), Declined, None))
  {
    var step := AcceptStep(t, owners, id, owner, now);
    if step.outcome.Done? {
      RowsChanged(t, id, owner);
    }
  }

  lemma RowsChanged(t: Table, id: Id, owner: Id)
    requires id in t
    ensures ChangedRows(t, AcceptedTable(t, id, owner)) == {id} + Conflicts(t, id)
  {
    var t' := AcceptedTable(t, id, owner);
    forall o | o in t
      ensures t'[o] != t[o] <==> o in {id} + Conflicts(t, id)
    {
      assert t'[o] != t[o] ==> o == id || o in Conflicts(t, id);
      if o == id || o in Conflicts(t, id) {
        assert |t'[o].events| == |t[o].events| + 1;
      }
    }
  }

  /** Afterwards nobody is left asking for dates that are gone. */
  lemma NoRequestSurvivesAgainstIt(t: Table, owners: Owners, id: Id, owner: Id, now: Instant, o: Id)
    requires AcceptStep(t, owners, id, owner, now).outcome.Done?
    ensures var t' := AcceptStep(t, owners, id, owner, now).table;
            && id in t'
            && ((o in t' && t'[o].booking.listingId == t'[id].booking.listingId
                 && t'[o].booking.state == Requested) ==> !Overlap(t'[o].booking, t'[id].booking))
  {
  }

  // ---- The count shown before -------------------------------------------------------------------

  /** A request past its deadline that no sweep has reached yet. */
  ghost predicate OverdueConflict(t: Table, id: Id, now: Instant)
    requires id in t
  {
    exists o | o in Conflicts(t, id) :: t[o].booking.requestExpiresAt <= now
  }

  /** The count shown is a lower bound on what accepting later declines, and is exact
      precisely when no request across the same dates was already overdue when it was shown. */
  lemma ConflictCountIsExactUnlessOverdue(
    t: Table, owners: Owners, id: Id, owner: Id, shownAt: Instant, now: Instant)
    requires shownAt <= now && AcceptStep(t, owners, id, owner, now).outcome.Done?
    ensures id in t
    ensures var pending := PendingIds(t, owners, t[id].booking.listingId, owner, shownAt);
            var declined := AcceptStep(t, owners, id, owner, now).outcome.value.autoDeclined;
            && id in pending
            && ConflictCount(t, pending, id) <= |declined|
            && (ConflictCount(t, pending, id) == |declined| <==> !OverdueConflict(t, id, shownAt))
  {
    var pending := PendingIds(t, owners, t[id].booking.listingId, owner, shownAt);
    var counted := CountedConflicts(t, pending, id);
    var declined := Conflicts(t, id);
    assert forall o | o in declined :: o in counted <==> shownAt < t[o].booking.requestExpiresAt;
    assert counted <= declined;
    SameSizeSubset(counted, declined);
  }

  lemma SameSizeSubset<T>(a: set<T>, b: set<T>)
    requires a <= b
    ensures |a| <= |b| && (|a| == |b| <==> a == b)
  {
    Cardinality(a, b);
    assert b == a + (b - a);
    assert |b| == |a| + |b - a|;
  }

  /** The two numbers do differ: one overdue request across the dates is enough. */
  lemma OverdueRequestIsDeclinedUncounted()
    ensures exists t: Table, owners: Owners, id: Id, owner: Id, now: Instant ::
              && AcceptStep(t, owners, id, owner, now).outcome.Done? && id in t
              && ConflictCount(t, PendingIds(t, owners, t[id].booking.listingId, owner, now), id) == 0
              && |AcceptStep(t, owners, id, owner, now).outcome.value.autoDeclined| == 1
  {
    var terms := Terms(0, 0, 0);
    var live := Booking(0, 1, Requested, 0, 10, 0, 100, terms);
    var stale := Booking(0, 2, Requested, 5, 15, 1, 50, terms);
    var t: Table := map[0 := Row(live, []), 1 := Row(stale, [])];
    var owners: Owners := map[0 := 9];
    assert OwnedBy(t, owners, 0, 9);
    WhenAcceptSucceeds(t, owners, 0, 9, 60);
    assert Conflicts(t, 0) == {1};
    assert PendingIds(t, owners, 0, 9, 60) == {0};
    assert CountedConflicts(t, {0}, 0) == {};
  }
}
