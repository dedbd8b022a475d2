/** Bookings as the store keeps them: a table of bookings with their histories,
    changed only by atomic steps, each with its own refusals. */
module BookingStore {
  import opened Basics
  import opened BookingStates
  import opened Ordering

  /** Identifiers and instants; an identifier's order is the column's. */
  type Id = nat
  type Instant = int

  /** The money a booking was made for, copied onto it and never touched again. */
  datatype Terms = Terms(itemCharge: int, renterFee: int, total: int)

  datatype Booking = Booking(
    listingId: Id, renterId: Id, state: State, startAt: Instant, endAt: Instant,
    quoteId: Id, requestExpiresAt: Instant, terms: Terms)

  datatype EventKind = RequestedEvent | StateChanged | AutoDeclined(conflicting: Id)

  /** A null state is `None`; a null actor is the platform itself. */
  datatype Event = Event(kind: EventKind, from: Option<State>, to: Option<State>, actor: Option<Id>)

  /** A booking together with its history, oldest event first. */
  datatype Row = Row(booking: Booking, events: seq<Event>)

  type Table = map<Id, Row>

  /** Which user owns each listing. Catalogue's fact, fixed while the store runs. */
  type Owners = map<Id, Id>

  datatype Refusal =
    | OverlappingBooking
    | DuplicateQuoteBooking(quoteId: Id)
    | BookingStateChanged(bookingId: Id, actual: State)
    | ConstraintViolated

  datatype Outcome<+T> = Done(value: T) | Missing | Refused(why: Refusal)

  datatype Step<+T> = Step(table: Table, outcome: Outcome<T>)

  // ---- The constraints --------------------------------------------------------------------------

  /** Half-open overlap: each starts before the other ends. */
  predicate Overlap(a: Booking, b: Booking) {
    a.startAt < b.endAt && b.startAt < a.endAt
  }

  /** The exclusion constraint would refuse to hold `b` under `id`. It is partial:
      it sees only rows in an occupying state, on both sides. */
  predicate Excluded(t: Table, id: Id, b: Booking) {
    && OccupiesCalendar(b.state)
    && exists o | o in t ::
         && o != id && t[o].booking.listingId == b.listingId
         && OccupiesCalendar(t[o].booking.state) && Overlap(t[o].booking, b)
  }

  predicate QuoteUsed(t: Table, quoteId: Id) {
    exists o | o in t :: t[o].booking.quoteId == quoteId
  }

  /** The table's `CHECK` constraints. */
  predicate RowAllowed(b: Booking) {
    && b.startAt < b.endAt
    && 0 <= b.terms.itemCharge && 0 <= b.terms.renterFee
    && b.terms.total == b.terms.itemCharge + b.terms.renterFee
  }

  predicate EventAllowed(e: Event) {
    e.from.None? || e.to.Some?
  }

  // ---- The steps --------------------------------------------------------------------------------

  function WithState(row: Row, kind: EventKind, to: State, actor: Option<Id>): Row {
    Row(row.booking.(state := to),
        row.events + [Event(kind, Some(row.booking.state), Some(to), actor)])
  }

  /** `create` when `first` is absent, `createWithEvent` when it is present. */
  function InsertStep(t: Table, owners: Owners, id: Id, b: Booking, first: Option<Event>): Step<Booking> {
    if id in t || !RowAllowed(b) || b.listingId !in owners then
      Step(t, Refused(ConstraintViolated))
    else if Excluded(t, id, b) then
      Step(t, Refused(OverlappingBooking))
    else if QuoteUsed(t, b.quoteId) then
      Step(t, Refused(DuplicateQuoteBooking(b.quoteId)))
    else if first.Some? && !EventAllowed(first.value) then
      Step(t, Refused(ConstraintViolated))
    else
      Step(t[id := Row(b, if first.None? then [] else [first.value])], Done(b))
  }

  predicate OwnedBy(t: Table, owners: Owners, id: Id, owner: Id) {
    && id in t && t[id].booking.listingId in owners
    && owners[t[id].booking.listingId] == owner
  }

  /** The other requests an acceptance of `id` takes the dates from. */
  function Conflicts(t: Table, id: Id): set<Id>
    requires id in t
  {
    set o | o in t && o != id && t[o].booking.listingId == t[id].booking.listingId
            && t[o].booking.state == Requested && Overlap(t[o].booking, t[id].booking)
  }

  datatype Acceptance = Acceptance(booking: Booking, autoDeclined: set<Id>)

  function AcceptStep(t: Table, owners: Owners, id: Id, owner: Id, now: Instant): Step<Acceptance> {
    if !OwnedBy(t, owners, id, owner) then
      Step(t, Missing)
    else
      var b := t[id].booking;
      if b.state != Requested || b.requestExpiresAt <= now then
        Step(t, Refused(BookingStateChanged(id, b.state)))
      else if Excluded(t, id, b.(state := Accepted)) then
        Step(t, Refused(OverlappingBooking))
      else
        Step(AcceptedTable(t, id, owner), Done(Acceptance(b.(state := Accepted), Conflicts(t, id))))
  }

  function AcceptedTable(t: Table, id: Id, owner: Id): Table
    requires id in t
  {
    map o | o in t ::
      if o == id then WithState(t[o], StateChanged, Accepted, Some(owner))
      else if o in Conflicts(t, id) then WithState(t[o], AutoDeclined(id), Declined, None)
      else t[o]
  }

  /** Unlike an acceptance, a decline may come after the deadline. */
  function DeclineStep(t: Table, owners: Owners, id: Id, owner: Id): Step<Booking> {
    if !OwnedBy(t, owners, id, owner) then
      Step(t, Missing)
    else if t[id].booking.state != Requested then
      Step(t, Refused(BookingStateChanged(id, t[id].booking.state)))
    else
      Step(t[id := WithState(t[id], StateChanged, Declined, Some(owner))],
           Done(t[id].booking.(state := Declined)))
  }

  /** Compare-and-swap on the state, with the exclusion constraint behind it. */
  function AdvanceStep(t: Table, id: Id, from: State, to: State, actor: Option<Id>): Step<Booking> {
    if id !in t || t[id].booking.state != from then
      Step(t, Missing)
    else if Excluded(t, id, t[id].booking.(state := to)) then
      Step(t, Refused(ConstraintViolated))
    else
      Step(t[id := WithState(t[id], StateChanged, to, actor)], Done(t[id].booking.(state := to)))
  }

  predicate IsOverdue(b: Booking, now: Instant) {
    b.state == Requested && b.requestExpiresAt <= now
  }

  function OverdueKeys(t: Table, now: Instant): set<Key> {
    set o | o in t && IsOverdue(t[o].booking, now) :: Key(t[o].booking.requestExpiresAt, o)
  }

  /** The overdue requests one sweep takes: oldest deadline first, then by id. */
  ghost function Batch(t: Table, now: Instant, limit: nat): (keys: seq<Key>)
    ensures |keys| == AtMost(limit, |OverdueKeys(t, now)|)
  {
    Ordered(OverdueKeys(t, now))[..AtMost(limit, |OverdueKeys(t, now)|)]
  }

  datatype Sweep = Sweep(expired: seq<Key>, reachedLimit: bool)

  function Expire(t: Table, keys: set<Key>): Table {
    map o | o in t ::
      if Key(t[o].booking.requestExpiresAt, o) in keys then WithState(t[o], StateChanged, Expired, None)
      else t[o]
  }

  ghost function SweepStep(t: Table, now: Instant, limit: nat): Step<Sweep> {
    var batch := Batch(t, now, limit);
    Step(Expire(t, Elements(batch)), Done(Sweep(batch, batch != [] && |batch| == limit)))
  }

  /** A pending request, and how many others it would auto-decline. */
  datatype PendingRequest = PendingRequest(id: Id, conflictCount: nat)

  function PendingIds(t: Table, owners: Owners, listing: Id, owner: Id, now: Instant): set<Id> {
    set o | o in t && t[o].booking.listingId == listing && OwnedBy(t, owners, o, owner)
            && t[o].booking.state == Requested && now < t[o].booking.requestExpiresAt
  }

  function StartKeys(t: Table, ids: set<Id>): set<Key>
    requires ids <= t.Keys
  {
    set o | o in ids :: Key(t[o].booking.startAt, o)
  }

  /** The conflicts are sought among the pending rows in hand, not among every request. */
  function CountedConflicts(t: Table, pending: set<Id>, id: Id): set<Id>
    requires id in t && pending <= t.Keys
  {
    set o | o in pending && o != id && Overlap(t[o].booking, t[id].booking)
  }

  function ConflictCount(t: Table, pending: set<Id>, id: Id): nat
    requires id in t && pending <= t.Keys
  {
    |CountedConflicts(t, pending, id)|
  }

  /** The line shown for the pending row with this sort key. */
  ghost predicate IsShown(t: Table, pending: set<Id>, key: Key, line: PendingRequest)
    requires pending <= t.Keys
  {
    && line.id in pending && key == Key(t[line.id].booking.startAt, line.id)
    && line.conflictCount == ConflictCount(t, pending, line.id)
  }

  function Line(t: Table, pending: set<Id>, key: Key): (line: PendingRequest)
    requires pending <= t.Keys && key in StartKeys(t, pending)
    ensures IsShown(t, pending, key, line)
  {
    PendingRequest(key.minor, ConflictCount(t, pending, key.minor))
  }

  // ---- The store as an object -------------------------------------------------------------------

  class BookingTable {
    const owners: Owners
    var rows: Table

    constructor (owners: Owners)
      ensures this.owners == owners && rows == map[]
    {
      this.owners := owners;
      rows := map[];
    }

    method Write(id: Id, b: Booking, first: Option<Event>) returns (r: Outcome<Booking>)
      modifies this`rows
      ensures var step := InsertStep(old(rows), owners, id, b, first);
              rows == step.table && r == step.outcome
    {
      if id in rows || !RowAllowed(b) || b.listingId !in owners {
        return Refused(ConstraintViolated);
      }
      if Excluded(rows, id, b) {
        return Refused(OverlappingBooking);
      }
      if QuoteUsed(rows, b.quoteId) {
        return Refused(DuplicateQuoteBooking(b.quoteId));
      }
      var events := [];
      if first.Some? {
        if !EventAllowed(first.value) {
          return Refused(ConstraintViolated);
        }
        events := [first.value];
      }
      rows := rows[id := Row(b, events)];
      r := Done(b);
    }

    /** The accepted row is written first: that write is the lock. The losers are
        read and moved after it, in the same transaction. */
    method Accept(id: Id, owner: Id, now: Instant) returns (r: Outcome<Acceptance>)
      modifies this`rows
      ensures var step := AcceptStep(old(rows), owners, id, owner, now);
              rows == step.table && r == step.outcome
    {
      if !OwnedBy(rows, owners, id, owner) {
        return Missing;
      }
      var b := rows[id].booking;
      if b.state != Requested || b.requestExpiresAt <= now {
        return Refused(BookingStateChanged(id, b.state));
      }
      var accepted := b.(state := Accepted);
      if Excluded(rows, id, accepted) {
        return Refused(OverlappingBooking);
      }
      LockThenDecline(rows, id, owner);
      rows := rows[id := WithState(rows[id], StateChanged, Accepted, Some(owner))];
      var losers := Conflicts(rows, id);
      rows := rows + map o | o in losers :: WithState(rows[o], AutoDeclined(id), Declined, None);
      r := Done(Acceptance(accepted, losers));
    }

    method Decline(id: Id, owner: Id) returns (r: Outcome<Booking>)
      modifies this`rows
      ensures var step := DeclineStep(old(rows), owners, id, owner);
              rows == step.table && r == step.outcome
    {
      if !OwnedBy(rows, owners, id, owner) {
        return Missing;
      }
      if rows[id].booking.state != Requested {
        return Refused(BookingStateChanged(id, rows[id].booking.state));
      }
      rows := rows[id := WithState(rows[id], StateChanged, Declined, Some(owner))];
      r := Done(rows[id].booking);
    }

    method Advance(id: Id, from: State, to: State, actor: Option<Id>) returns (r: Outcome<Booking>)
      modifies this`rows
      ensures var step := AdvanceStep(old(rows), id, from, to, actor);
              rows == step.table && r == step.outcome
    {
      if id !in rows || rows[id].booking.state != from {
        r := Missing;
      } else if Excluded(rows, id, rows[id].booking.(state := to)) {
        r := Refused(ConstraintViolated);
      } else {
        rows := rows[id := WithState(rows[id], StateChanged, to, actor)];
        r := Done(rows[id].booking);
      }
    }

    /** Select the oldest overdue ids first, then move exactly those. */
    method ExpireRequests(now: Instant, limit: nat) returns (r: Outcome<Sweep>)
      modifies this`rows
      ensures var step := SweepStep(old(rows), now, limit);
              rows == step.table && r == step.outcome
    {
      var keys := ListKeys(OverdueKeys(rows, now));
      var batch := keys[..AtMost(limit, |keys|)];
      assert batch == Batch(rows, now, limit);
      if batch == [] {
        ExpireNothing(rows);
        return Done(Sweep([], false));
      }
      rows := Expire(rows, Elements(batch));
      r := Done(Sweep(batch, |batch| == limit));
    }

    /** What the owner is shown before deciding, in date order. */
    method FindPendingRequests(listing: Id, owner: Id, now: Instant) returns (shown: seq<PendingRequest>)
      ensures var pending := PendingIds(rows, owners, listing, owner, now);
              var keys := Ordered(StartKeys(rows, pending));
              && |shown| == |pending| == |keys|
              && forall i | 0 <= i < |shown| :: IsShown(rows, pending, keys[i], shown[i])
    {
      var pending := PendingIds(rows, owners, listing, owner, now);
      shown := ShowRows(rows, pending);
    }
  }

  method ShowRows(t: Table, pending: set<Id>) returns (shown: seq<PendingRequest>)
    requires pending <= t.Keys
    ensures var keys := Ordered(StartKeys(t, pending));
            && |shown| == |pending| == |keys|
            && forall i | 0 <= i < |shown| :: IsShown(t, pending, keys[i], shown[i])
  {
    hide Ascending;
    var keys := ListKeys(StartKeys(t, pending));
    KeysCount(t, pending);
    assert forall i | 0 <= i < |keys| :: keys[i] in StartKeys(t, pending) by {
      assert forall i | 0 <= i < |keys| :: keys[i] in Elements(keys);
    }
    hide Elements, StartKeys;
    shown := seq(|keys|, i requires 0 <= i < |keys| => Line(t, pending, keys[i]));
  }

  /** The losers read after the lock are the ones there were before it. */
  lemma LockThenDecline(t: Table, id: Id, owner: Id)
    requires id in t
    ensures var locked := t[id := WithState(t[id], StateChanged, Accepted, Some(owner))];
            && Conflicts(locked, id) == Conflicts(t, id)
            && locked + (map o | o in Conflicts(locked, id) ::
                           WithState(locked[o], AutoDeclined(id), Declined, None))
               == AcceptedTable(t, id, owner)
  {
    var locked := t[id := WithState(t[id], StateChanged, Accepted, Some(owner))];
    assert Conflicts(locked, id) == Conflicts(t, id);
  }

  lemma ExpireNothing(t: Table)
    ensures Expire(t, Elements([])) == t
  {
  }

  lemma {:induction false} KeysCount(t: Table, ids: set<Id>)
    requires ids <= t.Keys
    ensures |StartKeys(t, ids)| == |ids|
    decreases ids
  {
    if ids != {} {
      var x :| x in ids;
      var rest := ids - {x};
      KeysCount(t, rest);
      assert StartKeys(t, ids) == StartKeys(t, rest) + {Key(t[x].booking.startAt, x)};
    }
  }

  /** Reads a set of keys out in order. */
  method ListKeys(s: set<Key>) returns (keys: seq<Key>)
    ensures keys == Ordered(s)
  {
    keys := [];
    var todo := s;
    while todo != {}
      invariant todo <= s && Ascending(keys) && Elements(keys) == s - todo
      decreases todo
    {
      var k :| k in todo;
      assert k !in Elements(keys);
      keys := Place(k, keys);
      todo := todo - {k};
    }
    AscendingUnique(keys, Ordered(s));
  }
}
