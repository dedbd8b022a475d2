/** The owner's calendar: declared blocks, booked periods, and whether a period may
    be booked. Months are an increasing assignment of first days to month numbers. */
module Availability {
  import opened Basics
  import opened BookingStates
  import opened BookingStore
  import opened BookingRuns
  import opened LocalTime

  datatype Block = Block(listingId: Id, startAt: Instant, endAt: Instant, reason: Option<string>)

  type Blocks = map<Id, Block>

  datatype UnavailableReason = Blocked | Booked

  /** Half-open overlap with a window. */
  predicate Touches(startAt: Instant, endAt: Instant, from: Instant, to: Instant) {
    startAt < to && from < endAt
  }

  function BlocksTouching(bs: Blocks, listing: Id, from: Instant, to: Instant): set<Id> {
    set i | i in bs && bs[i].listingId == listing && Touches(bs[i].startAt, bs[i].endAt, from, to)
  }

  function BookingsTouching(t: Table, listing: Id, from: Instant, to: Instant): set<Id> {
    set i | i in t && t[i].booking.listingId == listing && OccupiesCalendar(t[i].booking.state)
            && Touches(t[i].booking.startAt, t[i].booking.endAt, from, to)
  }

  /** Blocked is asked first: it is the answer the owner can act on. */
  function ReasonUnavailable(bs: Blocks, t: Table, listing: Id, from: Instant, to: Instant): Option<UnavailableReason> {
    if BlocksTouching(bs, listing, from, to) != {} then Some(Blocked)
    else if BookingsTouching(t, listing, from, to) != {} then Some(Booked)
    else None
  }

  /** The answer, in terms of what is stored: a block of the listing that meets the period, else an
      occupying booking of the listing that does, else none. */
  lemma WhenUnavailable(bs: Blocks, t: Table, listing: Id, from: Instant, to: Instant)
    ensures ReasonUnavailable(bs, t, listing, from, to) == Some(Blocked)
       <==> exists i | i in bs :: bs[i].listingId == listing && bs[i].startAt < to && from < bs[i].endAt
    ensures ReasonUnavailable(bs, t, listing, from, to).None?
       <==> && (forall i | i in bs :: !(bs[i].listingId == listing && bs[i].startAt < to && from < bs[i].endAt))
            && (forall i | i in t :: !(t[i].booking.listingId == listing && OccupiesCalendar(t[i].booking.state)
                                      && t[i].booking.startAt < to && from < t[i].booking.endAt))
  {
    var blocks, bookings := BlocksTouching(bs, listing, from, to), BookingsTouching(t, listing, from, to);
    assert forall i | i in bs && bs[i].listingId == listing && bs[i].startAt < to && from < bs[i].endAt :: i in blocks;
    assert forall i | i in blocks :: i in bs && bs[i].listingId == listing && bs[i].startAt < to && from < bs[i].endAt;
    assert forall i | i in t && t[i].booking.listingId == listing && OccupiesCalendar(t[i].booking.state)
                      && t[i].booking.startAt < to && from < t[i].booking.endAt :: i in bookings;
  }

  // ---- The month page ---------------------------------------------------------------------------

  /** A period as the page draws it: dates, both inclusive. */
  datatype Drawn = Drawn(id: Id, startDate: int, endDate: int)

  function Draw(z: Zone, id: Id, startAt: Instant, endAt: Instant): Drawn
    requires IsZone(z)
  {
    Drawn(id, DayOf(z, startAt), LastDayShown(z, endAt))
  }

  datatype Page = Page(blocks: set<Drawn>, bookings: set<Drawn>)

  function ReadMonth(z: Zone, months: Zone, bs: Blocks, t: Table, listing: Id, month: int): Page
    requires IsZone(z)
  {
    var from, to := z(months(month)), z(months(month + 1));
    Page(set i | i in BlocksTouching(bs, listing, from, to) :: Draw(z, i, bs[i].startAt, bs[i].endAt),
         set i | i in BookingsTouching(t, listing, from, to) ::
           Draw(z, i, t[i].booking.startAt, t[i].booking.endAt))
  }

  /** What is drawn: the listing's blocks and occupying bookings that meet the month, from the day each begins
      to the day of its last instant. */
  lemma WhatAPageDraws(z: Zone, months: Zone, bs: Blocks, t: Table, listing: Id, month: int, p: Drawn)
    requires IsZone(z)
    ensures var page := ReadMonth(z, months, bs, t, listing, month);
            var from, to := z(months(month)), z(months(month + 1));
            && (p in page.blocks <==>
                  && p.id in bs && bs[p.id].listingId == listing
                  && bs[p.id].startAt < to && from < bs[p.id].endAt
                  && p.startDate == DayOf(z, bs[p.id].startAt) && p.endDate == DayOf(z, bs[p.id].endAt - 1))
            && (p in page.bookings <==>
                  && p.id in t && t[p.id].booking.listingId == listing && OccupiesCalendar(t[p.id].booking.state)
                  && t[p.id].booking.startAt < to && from < t[p.id].booking.endAt
                  && p.startDate == DayOf(z, t[p.id].booking.startAt)
                  && p.endDate == DayOf(z, t[p.id].booking.endAt - 1))
  {
    hide DayOf, OccupiesCalendar;
  }

  ghost predicate Shades(drawn: set<Drawn>, d: int) {
    exists p | p in drawn :: p.startDate <= d <= p.endDate
  }

  ghost predicate BlocksAllowed(bs: Blocks) {
    forall i | i in bs :: bs[i].startAt < bs[i].endAt
  }

  /** A month's window holds all of each of its days. */
  lemma WindowHoldsItsDays(z: Zone, months: Zone, d: int)
    requires IsZone(z) && IsZone(months)
    ensures var m := DayOf(months, d); z(months(m)) <= z(d) && z(d + 1) <= z(months(m + 1))
  {
    hide DayOf;
    var m := DayOf(months, d);
    assert months(m) < d ==> z(months(m)) < z(d);
    assert d + 1 < months(m + 1) ==> z(d + 1) < z(months(m + 1));
  }

  /** What touches a day is drawn on the page of the month that holds it, across it. */
  lemma TouchingIsDrawn(z: Zone, months: Zone, startAt: Instant, endAt: Instant, id: Id, d: int)
    requires IsZone(z) && IsZone(months) && startAt < endAt
    ensures var m := DayOf(months, d);
            var p := Draw(z, id, startAt, endAt);
            Touches(startAt, endAt, z(d), z(d + 1))
            <==> Touches(startAt, endAt, z(months(m)), z(months(m + 1))) && p.startDate <= d <= p.endDate
  {
    hide DayOf;
    WindowHoldsItsDays(z, months, d);
    TouchesDay(z, startAt, endAt, d);
  }

  /** On the page of the month that holds it, a day is shaded by exactly the blocks
      that touch it. */
  lemma PageShadesBlocks(z: Zone, months: Zone, bs: Blocks, t: Table, listing: Id, d: int)
    requires IsZone(z) && IsZone(months) && BlocksAllowed(bs)
    ensures Shades(ReadMonth(z, months, bs, t, listing, DayOf(months, d)).blocks, d)
       <==> BlocksTouching(bs, listing, z(d), z(d + 1)) != {}
  {
    hide DayOf, Touches, Draw, IsZone;
    var page := ReadMonth(z, months, bs, t, listing, DayOf(months, d));
    forall i | i in bs
      ensures Touches(bs[i].startAt, bs[i].endAt, z(d), z(d + 1))
         <==> && Touches(bs[i].startAt, bs[i].endAt, z(months(DayOf(months, d))), z(months(DayOf(months, d) + 1)))
              && Draw(z, i, bs[i].startAt, bs[i].endAt).startDate <= d
              && d <= Draw(z, i, bs[i].startAt, bs[i].endAt).endDate
    {
      TouchingIsDrawn(z, months, bs[i].startAt, bs[i].endAt, i, d);
    }
    var touching := BlocksTouching(bs, listing, z(d), z(d + 1));
    if Shades(page.blocks, d) {
      var p :| p in page.blocks && p.startDate <= d <= p.endDate;
      var i :| i in bs && bs[i].listingId == listing && p == Draw(z, i, bs[i].startAt, bs[i].endAt)
               && Touches(bs[i].startAt, bs[i].endAt, z(months(DayOf(months, d))), z(months(DayOf(months, d) + 1)));
      assert i in touching;
    }
    if i :| i in touching {
      assert Draw(z, i, bs[i].startAt, bs[i].endAt) in page.blocks;
    }
  }

  lemma PageShadesBookings(z: Zone, months: Zone, bs: Blocks, t: Table, listing: Id, d: int)
    requires IsZone(z) && IsZone(months) && RowsAllowed(t)
    ensures Shades(ReadMonth(z, months, bs, t, listing, DayOf(months, d)).bookings, d)
       <==> BookingsTouching(t, listing, z(d), z(d + 1)) != {}
  {
    hide DayOf, Touches, Draw, IsZone, OccupiesCalendar;
    var page := ReadMonth(z, months, bs, t, listing, DayOf(months, d));
    forall i | i in t
      ensures Touches(t[i].booking.startAt, t[i].booking.endAt, z(d), z(d + 1))
         <==> && Touches(t[i].booking.startAt, t[i].booking.endAt,
                         z(months(DayOf(months, d))), z(months(DayOf(months, d) + 1)))
              && Draw(z, i, t[i].booking.startAt, t[i].booking.endAt).startDate <= d
              && d <= Draw(z, i, t[i].booking.startAt, t[i].booking.endAt).endDate
    {
      TouchingIsDrawn(z, months, t[i].booking.startAt, t[i].booking.endAt, i, d);
    }
    var touching := BookingsTouching(t, listing, z(d), z(d + 1));
    if Shades(page.bookings, d) {
      var p :| p in page.bookings && p.startDate <= d <= p.endDate;
      var i :| i in t && t[i].booking.listingId == listing && OccupiesCalendar(t[i].booking.state)
               && p == Draw(z, i, t[i].booking.startAt, t[i].booking.endAt)
               && Touches(t[i].booking.startAt, t[i].booking.endAt,
                          z(months(DayOf(months, d))), z(months(DayOf(months, d) + 1)));
      assert i in touching;
    }
    if i :| i in touching {
      assert Draw(z, i, t[i].booking.startAt, t[i].booking.endAt) in page.bookings;
    }
  }

  ghost predicate DayHasBlock(z: Zone, bs: Blocks, listing: Id, d: int) {
    BlocksTouching(bs, listing, z(d), z(d + 1)) != {}
  }

  ghost predicate DayHasBooking(z: Zone, t: Table, listing: Id, d: int) {
    BookingsTouching(t, listing, z(d), z(d + 1)) != {}
  }

  lemma PeriodBlockedByDays(z: Zone, bs: Blocks, listing: Id, first: int, last: int)
    requires IsZone(z) && BlocksAllowed(bs) && first <= last
    ensures BlocksTouching(bs, listing, z(first), z(last + 1)) != {}
       <==> exists d | first <= d <= last :: DayHasBlock(z, bs, listing, d)
  {
    hide Covers;
    if BlocksTouching(bs, listing, z(first), z(last + 1)) != {} {
      var i :| i in BlocksTouching(bs, listing, z(first), z(last + 1));
      TouchesSomeDay(z, bs[i].startAt, bs[i].endAt, first, last);
      var d :| first <= d <= last && Covers(z, bs[i].startAt, bs[i].endAt, d);
      TouchesDay(z, bs[i].startAt, bs[i].endAt, d);
      assert i in BlocksTouching(bs, listing, z(d), z(d + 1));
      assert DayHasBlock(z, bs, listing, d);
    }
    if d :| first <= d <= last && DayHasBlock(z, bs, listing, d) {
      var i :| i in BlocksTouching(bs, listing, z(d), z(d + 1));
      TouchesDay(z, bs[i].startAt, bs[i].endAt, d);
      TouchesSomeDay(z, bs[i].startAt, bs[i].endAt, first, last);
      assert i in BlocksTouching(bs, listing, z(first), z(last + 1));
    }
  }

  lemma PeriodBookedByDays(z: Zone, t: Table, listing: Id, first: int, last: int)
    requires IsZone(z) && RowsAllowed(t) && first <= last
    ensures BookingsTouching(t, listing, z(first), z(last + 1)) != {}
       <==> exists d | first <= d <= last :: DayHasBooking(z, t, listing, d)
  {
    hide Covers, OccupiesCalendar;
    if BookingsTouching(t, listing, z(first), z(last + 1)) != {} {
      var i :| i in BookingsTouching(t, listing, z(first), z(last + 1));
      var b := t[i].booking;
      TouchesSomeDay(z, b.startAt, b.endAt, first, last);
      var d :| first <= d <= last && Covers(z, b.startAt, b.endAt, d);
      TouchesDay(z, b.startAt, b.endAt, d);
      assert i in BookingsTouching(t, listing, z(d), z(d + 1));
      assert DayHasBooking(z, t, listing, d);
    }
    if d :| first <= d <= last && DayHasBooking(z, t, listing, d) {
      var i :| i in BookingsTouching(t, listing, z(d), z(d + 1));
      var b := t[i].booking;
      TouchesDay(z, b.startAt, b.endAt, d);
      TouchesSomeDay(z, b.startAt, b.endAt, first, last);
      assert i in BookingsTouching(t, listing, z(first), z(last + 1));
    }
  }

  /** Some day of the run is shaded by a block on its own month's page. */
  ghost predicate BlockShaded(z: Zone, months: Zone, bs: Blocks, t: Table, listing: Id, first: int, last: int)
    requires IsZone(z) && IsZone(months)
  {
    exists d | first <= d <= last ::
      Shades(ReadMonth(z, months, bs, t, listing, DayOf(months, d)).blocks, d)
  }

  ghost predicate BookingShaded(z: Zone, months: Zone, bs: Blocks, t: Table, listing: Id, first: int, last: int)
    requires IsZone(z) && IsZone(months)
  {
    exists d | first <= d <= last ::
      Shades(ReadMonth(z, months, bs, t, listing, DayOf(months, d)).bookings, d)
  }

  /** The calendar and the request path give one answer: a run of whole days is
      blocked, booked or free just as its days are shaded on their pages. */
  lemma CalendarAgreesWithRequests(z: Zone, months: Zone, bs: Blocks, t: Table, listing: Id, first: int, last: int)
    requires IsZone(z) && IsZone(months) && BlocksAllowed(bs) && RowsAllowed(t) && first <= last
    ensures var p := PeriodFromLocalDates(z, first, last);
            ReasonUnavailable(bs, t, listing, p.startAt, p.endAt)
            == if BlockShaded(z, months, bs, t, listing, first, last) then Some(Blocked)
               else if BookingShaded(z, months, bs, t, listing, first, last) then Some(Booked)
               else None
  {
    hide ReadMonth, BlocksTouching, BookingsTouching, Shades, DayOf;
    PeriodBlockedByDays(z, bs, listing, first, last);
    PeriodBookedByDays(z, t, listing, first, last);
    forall d | first <= d <= last
      ensures Shades(ReadMonth(z, months, bs, t, listing, DayOf(months, d)).blocks, d)
         <==> DayHasBlock(z, bs, listing, d)
      ensures Shades(ReadMonth(z, months, bs, t, listing, DayOf(months, d)).bookings, d)
         <==> DayHasBooking(z, t, listing, d)
    {
      PageShadesBlocks(z, months, bs, t, listing, d);
      PageShadesBookings(z, months, bs, t, listing, d);
    }
  }

  // ---- Declaring and withdrawing a block --------------------------------------------------------

  const MAX_BLOCK_DAYS := 366
  const MAX_BLOCK_HORIZON_DAYS := 730

  /** The dates an owner submits, both inclusive. */
  datatype BlockRequest = BlockRequest(startDate: int, endDate: int, reason: Option<string>)

  datatype BlockOutcome =
    | BlockCreated(drawn: Drawn, reason: Option<string>)
    | NotTheirListing
    | AlreadyFinished | TooFarAhead | TooLong | EndsBeforeStart | RowRefused

  /** `id` is the identifier the database hands out. */
  function BlockStep(z: Zone, owners: Owners, bs: Blocks, listing: Id, owner: Id, request: BlockRequest,
                     now: Instant, id: Id): (Blocks, BlockOutcome)
    requires IsZone(z)
  {
    var p := PeriodFromLocalDates(z, request.startDate, request.endDate);
    var today := DayOf(z, now);
    var days := RentalDayCount(z, p.startAt, p.endAt);
    if listing !in owners || owners[listing] != owner then (bs, NotTheirListing)
    else if request.endDate < today then (bs, AlreadyFinished)
    else if request.startDate > today + MAX_BLOCK_HORIZON_DAYS then (bs, TooFarAhead)
    else if days.EndsBeforeItStarts? then (bs, EndsBeforeStart)
    else if days.count > MAX_BLOCK_DAYS then (bs, TooLong)
    else if p.endAt <= p.startAt || id in bs then (bs, RowRefused)
    else (bs[id := Block(listing, p.startAt, p.endAt, request.reason)],
          BlockCreated(Draw(z, id, p.startAt, p.endAt), request.reason))
  }

  function UnblockStep(owners: Owners, bs: Blocks, listing: Id, owner: Id, id: Id): (Blocks, bool) {
    if listing !in owners || owners[listing] != owner then (bs, false)
    else if id in bs && bs[id].listingId == listing then (bs - {id}, true)
    else (bs, false)
  }

  /** A requested pair of dates, in order or not, as the service measures it. */
  lemma RequestedPeriod(z: Zone, first: int, last: int, id: Id)
    requires IsZone(z)
    ensures z(last + 1) <= z(first) <==> last < first
    ensures RentalDayCount(z, z(first), z(last + 1))
            == if last + 1 < first then EndsBeforeItStarts
               else Days(if last < first then 1 else last - first + 1)
    ensures Draw(z, id, z(first), z(last + 1)) == Drawn(id, first, last)
  {
    hide DayOf;
    assert first <= last ==> z(first) < z(last + 1);
    assert last + 1 < first ==> z(last + 1) < z(first);
    MidnightIsItsDay(z, first);
    MidnightIsItsDay(z, last + 1);
  }

  /** Exactly which requests are accepted, in dates alone; an accepted one is drawn
      back as the dates that were asked for. */
  lemma WhenBlockIsAccepted(z: Zone, owners: Owners, bs: Blocks, listing: Id, owner: Id, request: BlockRequest,
                            now: Instant, id: Id)
    requires IsZone(z)
    ensures var (bs', outcome) := BlockStep(z, owners, bs, listing, owner, request, now, id);
            && (outcome.BlockCreated? <==>
                  && listing in owners && owners[listing] == owner && id !in bs
                  && request.startDate <= request.endDate
                  && DayOf(z, now) <= request.endDate
                  && request.startDate <= DayOf(z, now) + MAX_BLOCK_HORIZON_DAYS
                  && request.endDate - request.startDate + 1 <= MAX_BLOCK_DAYS)
            && (outcome.BlockCreated? ==>
                  && outcome == BlockCreated(Drawn(id, request.startDate, request.endDate), request.reason)
                  && z(request.startDate) < z(request.endDate + 1)
                  && bs' == bs[id := Block(listing, z(request.startDate), z(request.endDate + 1), request.reason)])
            && (!outcome.BlockCreated? ==> bs' == bs)
  {
    hide DayOf, IsZone, RentalDayCount, Draw;
    RequestedPeriod(z, request.startDate, request.endDate, id);
  }

  /** A block takes effect at once, on both sides: every day of it is shaded on its
      page, and any run of days that meets it is refused as blocked. */
  lemma BlockTakesEffect(z: Zone, months: Zone, owners: Owners, bs: Blocks, t: Table, listing: Id, owner: Id,
                         request: BlockRequest, now: Instant, id: Id, first: int, last: int)
    requires IsZone(z) && IsZone(months) && BlocksAllowed(bs)
    requires BlockStep(z, owners, bs, listing, owner, request, now, id).1.BlockCreated?
    requires first <= last && first <= request.endDate && request.startDate <= last
    ensures var bs' := BlockStep(z, owners, bs, listing, owner, request, now, id).0;
            && BlocksAllowed(bs')
            && (forall d | request.startDate <= d <= request.endDate ::
                  Shades(ReadMonth(z, months, bs', t, listing, DayOf(months, d)).blocks, d))
            && ReasonUnavailable(bs', t, listing, z(first), z(last + 1)) == Some(Blocked)
  {
    hide DayOf, BlockStep, ReadMonth, Shades, IsZone;
    WhenBlockIsAccepted(z, owners, bs, listing, owner, request, now, id);
    var bs' := BlockStep(z, owners, bs, listing, owner, request, now, id).0;
    var a, b := request.startDate, request.endDate;
    forall d | a <= d <= b
      ensures Shades(ReadMonth(z, months, bs', t, listing, DayOf(months, d)).blocks, d)
    {
      BlockTouches(z, bs', listing, id, a, b, d, d);
      PageShadesBlocks(z, months, bs', t, listing, d);
    }
    BlockTouches(z, bs', listing, id, a, b, first, last);
  }

  lemma BlockTouches(z: Zone, bs: Blocks, listing: Id, id: Id, a: int, b: int, first: int, last: int)
    requires IsZone(z) && id in bs && bs[id].listingId == listing
    requires bs[id].startAt == z(a) && bs[id].endAt == z(b + 1)
    requires first <= last && first <= b && a <= last
    ensures BlocksTouching(bs, listing, z(first), z(last + 1)) != {}
  {
    assert z(a) < z(last + 1) && z(first) < z(b + 1);
    assert id in BlocksTouching(bs, listing, z(first), z(last + 1));
  }

  /** Withdrawing a new block undoes declaring it. */
  lemma UnblockUndoesBlock(z: Zone, owners: Owners, bs: Blocks, listing: Id, owner: Id, request: BlockRequest,
                           now: Instant, id: Id)
    requires IsZone(z)
    requires BlockStep(z, owners, bs, listing, owner, request, now, id).1.BlockCreated?
    ensures UnblockStep(owners, BlockStep(z, owners, bs, listing, owner, request, now, id).0, listing, owner, id)
            == (bs, true)
  {
    hide DayOf;
    var bs' := BlockStep(z, owners, bs, listing, owner, request, now, id).0;
    assert bs' - {id} == bs;
  }

  /** A block is withdrawn exactly for the owner of the listing it is on, and then alone. */
  lemma WhenUnblockRemoves(owners: Owners, bs: Blocks, listing: Id, owner: Id, id: Id)
    ensures var (bs', removed) := UnblockStep(owners, bs, listing, owner, id);
            && (removed <==> && listing in owners && owners[listing] == owner
                             && id in bs && bs[id].listingId == listing)
            && bs'.Keys == (if removed then bs.Keys - {id} else bs.Keys)
            && forall i | i in bs' :: bs'[i] == bs[i]
  {
  }

  /** Which refusal a block meets, the earlier check answering first. */
  lemma WhyABlockIsRefused(z: Zone, owners: Owners, bs: Blocks, listing: Id, owner: Id, request: BlockRequest,
                           now: Instant, id: Id)
    requires IsZone(z)
    ensures var outcome := BlockStep(z, owners, bs, listing, owner, request, now, id).1;
            var today, first, last := DayOf(z, now), request.startDate, request.endDate;
            var theirs := listing in owners && owners[listing] == owner;
            && (outcome.NotTheirListing? <==> !theirs)
            && (outcome.AlreadyFinished? <==> theirs && last < today)
            && (outcome.TooFarAhead? <==> theirs && today <= last && today + 730 < first)
            && (outcome.EndsBeforeStart? <==> theirs && today <= last && first <= today + 730 && last + 1 < first)
            && (outcome.TooLong? <==> theirs && today <= last && first <= today + 730 && last - first + 1 > 366)
  {
    hide DayOf, IsZone, RentalDayCount, Draw;
    RequestedPeriod(z, request.startDate, request.endDate, id);
  }

  /** The calendar as an object over a fixed zone. */
  class Calendar {
    const z: Zone
    const owners: Owners
    var blocks: Blocks

    constructor (z: Zone, owners: Owners)
      requires IsZone(z)
      ensures this.z == z && this.owners == owners && blocks == map[]
    {
      this.z, this.owners, blocks := z, owners, map[];
    }

    method Declare(listing: Id, owner: Id, request: BlockRequest, now: Instant, id: Id) returns (r: BlockOutcome)
      requires IsZone(z)
      modifies this`blocks
      ensures (blocks, r) == BlockStep(z, owners, old(blocks), listing, owner, request, now, id)
    {
      if listing !in owners || owners[listing] != owner {
        return NotTheirListing;
      }
      var p := PeriodFromLocalDates(z, request.startDate, request.endDate);
      var today := DayOf(z, now);
      if request.endDate < today {
        return AlreadyFinished;
      }
      if request.startDate > today + MAX_BLOCK_HORIZON_DAYS {
        return TooFarAhead;
      }
      var days := RentalDayCount(z, p.startAt, p.endAt);
      if days.EndsBeforeItStarts? {
        return EndsBeforeStart;
      }
      if days.count > MAX_BLOCK_DAYS {
        return TooLong;
      }
      if p.endAt <= p.startAt || id in blocks {
        return RowRefused;
      }
      blocks := blocks[id := Block(listing, p.startAt, p.endAt, request.reason)];
      r := BlockCreated(Draw(z, id, p.startAt, p.endAt), request.reason);
    }

    method Withdraw(listing: Id, owner: Id, id: Id) returns (removed: bool)
      modifies this`blocks
      ensures (blocks, removed) == UnblockStep(owners, old(blocks), listing, owner, id)
    {
      removed := listing in owners && owners[listing] == owner
                 && id in blocks && blocks[id].listingId == listing;
      if removed {
        blocks := blocks - {id};
      }
    }
  }
}
