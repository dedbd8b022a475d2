/** Local calendar days over an abstract timezone.

    A timezone is any strictly increasing assignment of a midnight to each day
    number, so a day may be of any length. Days are numbered; months reuse the
    same idea one level up, as an increasing assignment of first days. */
module LocalTime {

  /** From a day number to the instant it begins. */
  type Zone = int -> int

  ghost predicate IsZone(z: Zone) {
    forall i, j | i < j :: z(i) < z(j)
  }

  function SeekBack(z: Zone, t: int, d: int): (r: int)
    requires IsZone(z) && t < z(d)
    ensures z(r) <= t < z(r + 1)
    decreases z(d) - t
  {
    if z(d - 1) <= t then d - 1 else SeekBack(z, t, d - 1)
  }

  function SeekOn(z: Zone, t: int, d: int): (r: int)
    requires IsZone(z) && z(d) <= t
    ensures z(r) <= t < z(r + 1)
    decreases t - z(d)
  {
    if t < z(d + 1) then d else SeekOn(z, t, d + 1)
  }

  /** The local date of an instant. */
  function DayOf(z: Zone, t: int): (d: int)
    requires IsZone(z)
    ensures z(d) <= t < z(d + 1)
  {
    if t < z(0) then SeekBack(z, t, 0) else SeekOn(z, t, 0)
  }

  /** An instant is on day `d` or later exactly when it is at or after its midnight. */
  lemma DayOfIsAdjoint(z: Zone, t: int, d: int)
    requires IsZone(z)
    ensures d <= DayOf(z, t) <==> z(d) <= t
  {
    hide DayOf;
    var r := DayOf(z, t);
    if d <= r {
      assert d < r ==> z(d) < z(r);
    } else {
      assert r + 1 < d ==> z(r + 1) < z(d);
    }
  }

  lemma MidnightIsItsDay(z: Zone, d: int)
    requires IsZone(z)
    ensures DayOf(z, z(d)) == d && DayOf(z, z(d) - 1) == d - 1
  {
    hide DayOf;
    DayOfIsAdjoint(z, z(d), d);
    DayOfIsAdjoint(z, z(d), d + 1);
    DayOfIsAdjoint(z, z(d) - 1, d);
    DayOfIsAdjoint(z, z(d) - 1, d - 1);
  }

  datatype DayCount = Days(count: int) | EndsBeforeItStarts

  /** Rental duration in local days; a same-day return is one day. */
  function RentalDayCount(z: Zone, start: int, end: int): DayCount
    requires IsZone(z)
  {
    var from, to := DayOf(z, start), DayOf(z, end);
    if to < from then EndsBeforeItStarts
    else Days(if to - from < 1 then 1 else to - from)
  }

  /** The count is of the midnights passed, and one at least; it is refused only for an earlier day. */
  lemma RentalDaysAreMidnights(z: Zone, start: int, end: int)
    requires IsZone(z)
    ensures RentalDayCount(z, start, end).EndsBeforeItStarts? <==> end < z(DayOf(z, start))
    ensures RentalDayCount(z, start, end).Days? ==>
              var n, first := RentalDayCount(z, start, end).count, DayOf(z, start);
              && n >= 1 && end < z(first + n + 1)
              && (if n == 1 then z(first) <= end else z(first + n) <= end)
  {
    hide DayOf;
    DayOfIsAdjoint(z, end, DayOf(z, start));
    assert z(DayOf(z, end)) <= end < z(DayOf(z, end) + 1);
    assert z(DayOf(z, start) + 1) < z(DayOf(z, start) + 2);
  }

  /** A pair of inclusive dates as a half-open pair of instants. */
  datatype Period = Period(startAt: int, endAt: int)

  function PeriodFromLocalDates(z: Zone, first: int, last: int): Period {
    Period(z(first), z(last + 1))
  }

  /** The last date the calendar shows: that of the instant before the bound. */
  function LastDayShown(z: Zone, endAt: int): int
    requires IsZone(z)
  {
    DayOf(z, endAt - 1)
  }

  /** The last date the booking projections state: the bound's date, less a day. */
  function InclusiveEnd(z: Zone, endAt: int): int
    requires IsZone(z)
  {
    DayOf(z, endAt) - 1
  }

  /** Inclusive dates survive storage, and so does their number. */
  lemma DatesSurviveStorage(z: Zone, first: int, last: int)
    requires IsZone(z) && first <= last
    ensures var p := PeriodFromLocalDates(z, first, last);
            && p.startAt < p.endAt
            && DayOf(z, p.startAt) == first
            && LastDayShown(z, p.endAt) == last && InclusiveEnd(z, p.endAt) == last
            && RentalDayCount(z, p.startAt, p.endAt) == Days(last - first + 1)
  {
    hide DayOf;
    MidnightIsItsDay(z, first);
    MidnightIsItsDay(z, last + 1);
    assert z(first) < z(last + 1);
  }

  /** The two readings of a stored end agree exactly at a local midnight; inside a
      day the projections fall one day short of the calendar. */
  lemma InclusiveEndsAgreeAtMidnight(z: Zone, endAt: int)
    requires IsZone(z)
    ensures LastDayShown(z, endAt) == InclusiveEnd(z, endAt) <==> z(DayOf(z, endAt)) == endAt
    ensures z(DayOf(z, endAt)) != endAt ==> LastDayShown(z, endAt) == InclusiveEnd(z, endAt) + 1
  {
    hide DayOf;
    var d := DayOf(z, endAt);
    DayOfIsAdjoint(z, endAt - 1, d);
    DayOfIsAdjoint(z, endAt - 1, d + 1);
    DayOfIsAdjoint(z, endAt - 1, d - 1);
    assert z(d - 1) < z(d);
  }

  /** Day `d` lies between the dates the calendar shows for an interval. */
  predicate Covers(z: Zone, startAt: int, endAt: int, d: int)
    requires IsZone(z)
  {
    DayOf(z, startAt) <= d <= LastDayShown(z, endAt)
  }

  /** A non-empty interval touches a day exactly when the calendar shows it there. */
  lemma TouchesDay(z: Zone, startAt: int, endAt: int, d: int)
    requires IsZone(z) && startAt < endAt
    ensures startAt < z(d + 1) && z(d) < endAt <==> Covers(z, startAt, endAt, d)
  {
    hide DayOf;
    DayOfIsAdjoint(z, startAt, d + 1);
    DayOfIsAdjoint(z, endAt - 1, d);
  }

  /** It touches a run of whole days exactly when it touches one of them. */
  lemma TouchesSomeDay(z: Zone, startAt: int, endAt: int, first: int, last: int)
    requires IsZone(z) && startAt < endAt && first <= last
    ensures startAt < z(last + 1) && z(first) < endAt
       <==> exists d | first <= d <= last :: Covers(z, startAt, endAt, d)
  {
    hide DayOf;
    DayOfIsAdjoint(z, startAt, last + 1);
    DayOfIsAdjoint(z, endAt - 1, first);
    var from, to := DayOf(z, startAt), LastDayShown(z, endAt);
    DayOfIsAdjoint(z, endAt - 1, from);
    if from <= last && first <= to {
      var d := if first < from then from else first;
      assert first <= d <= last && Covers(z, startAt, endAt, d);
    }
  }
}
