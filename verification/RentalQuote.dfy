/** What a hire costs: the cheapest set of the owner's rate units that covers at least the days asked for. */
module RentalQuote {
  import opened Basics

  const WEEKEND_START_WEEKDAY := 5
  const DAYS_IN_WEEKEND := 3
  const DAYS_IN_WEEK := 7

  /** The owner's rates in minor units; every rate that is set is at least zero. */
  datatype RateCard = RateCard(daily: Option<nat>, weekend: Option<nat>, weekly: Option<nat>)

  /** The rates that may be used for one hire. */
  datatype Rates = Rates(day: nat, weekend: Option<nat>, week: Option<nat>)

  datatype Counts = Counts(day: nat, weekend: nat, week: nat)

  datatype LineItem = LineItem(days: nat, count: nat, unitPrice: nat, subtotal: nat)

  datatype RentalUnits = RentalUnits(lineItems: seq<LineItem>, itemCharge: nat)

  function Price(rate: Option<nat>): nat {
    if rate.Some? then rate.value else 0
  }

  function CostOf(rates: Rates, c: Counts): nat {
    c.week * Price(rates.week) + c.weekend * Price(rates.weekend) + c.day * rates.day
  }

  /** Units whose rate the owner set, with at most one weekend. */
  predicate Allowed(rates: Rates, c: Counts) {
    c.weekend <= WeekendLimit(rates) && (rates.week.None? ==> c.week == 0)
  }

  function WeekendLimit(rates: Rates): nat {
    if rates.weekend.Some? then 1 else 0
  }

  predicate Covers(c: Counts, days: nat) {
    days <= c.day + DAYS_IN_WEEKEND * c.weekend + DAYS_IN_WEEK * c.week
  }

  ghost predicate IsCheapest(rates: Rates, days: nat, best: Counts) {
    && Allowed(rates, best) && Covers(best, days)
    && forall c | Allowed(rates, c) && Covers(c, days) :: CostOf(rates, best) <= CostOf(rates, c)
  }

  // ---- The search -------------------------------------------------------------------------------

  function Left(days: int): nat {
    if days > 0 then days else 0
  }

  function WeekLimit(rates: Rates, days: nat, weekends: nat): nat {
    if rates.week.None? then 0 else (Left(days - weekends * DAYS_IN_WEEKEND) + DAYS_IN_WEEK - 1) / DAYS_IN_WEEK
  }

  /** Without a weekly price no weeks are tried; with one, as many as it takes to cover what the weekends leave. */
  lemma WeekLimitIs(rates: Rates, days: nat, weekends: nat, left: nat)
    requires left == if days > 3 * weekends then days - 3 * weekends else 0
    ensures rates.week.None? ==> WeekLimit(rates, days, weekends) == 0
    ensures rates.week.Some? ==>
              left <= 7 * WeekLimit(rates, days, weekends) < left + 7
  {
  }

  /** So many weekends and weeks, and whatever they leave by the day. */
  function Candidate(days: nat, weekends: nat, weeks: nat): Counts {
    Counts(Left(Left(days - weekends * DAYS_IN_WEEKEND) - weeks * DAYS_IN_WEEK), weekends, weeks)
  }

  /** The candidates met before `weeks` in the turn for `weekends`. */
  predicate IsTried(rates: Rates, days: nat, weekends: int, weeks: int, we: nat, w: nat) {
    && we <= WeekendLimit(rates) && w <= WeekLimit(rates, days, we)
    && (we > weekends || (we == weekends && w > weeks))
  }

  /** The best of those tried, an earlier one winning a tie. */
  ghost predicate BestSoFar(rates: Rates, days: nat, weekends: int, weeks: int, best: Counts) {
    && best == Candidate(days, best.weekend, best.week)
    && IsTried(rates, days, weekends, weeks, best.weekend, best.week)
    && forall we, w | IsTried(rates, days, weekends, weeks, we, w) ::
         IsNoBetter(rates, days, best, we, w)
  }

  /** Dearer, or as dear and made of smaller units. */
  predicate IsNoBetter(rates: Rates, days: nat, best: Counts, we: nat, w: nat) {
    var cost, other := CostOf(rates, best), CostOf(rates, Candidate(days, we, w));
    cost < other || (cost == other && (we < best.weekend || (we == best.weekend && w <= best.week)))
  }

  lemma TryFirst(rates: Rates, days: nat)
    ensures var we := WeekendLimit(rates); var w := WeekLimit(rates, days, we);
            BestSoFar(rates, days, we, w - 1, Candidate(days, we, w))
  {
    hide WeekLimit, CostOf, Left;
  }

  lemma TryNext(rates: Rates, days: nat, weekends: nat, weeks: nat, best: Counts)
    requires weekends <= WeekendLimit(rates) && weeks <= WeekLimit(rates, days, weekends)
    requires BestSoFar(rates, days, weekends, weeks, best)
    ensures var counts := Candidate(days, weekends, weeks);
            BestSoFar(rates, days, weekends, weeks - 1,
                      if CostOf(rates, counts) < CostOf(rates, best) then counts else best)
  {
    hide WeekLimit, CostOf, Left;
    var counts := Candidate(days, weekends, weeks);
    var next := if CostOf(rates, counts) < CostOf(rates, best) then counts else best;
    forall we, w | IsTried(rates, days, weekends, weeks - 1, we, w)
      ensures IsNoBetter(rates, days, next, we, w)
    {
      if we != weekends || w != weeks {
        assert IsTried(rates, days, weekends, weeks, we, w);
        assert IsNoBetter(rates, days, best, we, w);
      }
    }
  }

  lemma NextWeekends(rates: Rates, days: nat, weekends: nat, best: Counts)
    requires BestSoFar(rates, days, weekends, -1, best)
    ensures BestSoFar(rates, days, weekends - 1, WeekLimit(rates, days, Left(weekends - 1)), best)
  {
    hide WeekLimit, CostOf;
  }

  lemma LastWeekends(rates: Rates, days: nat, weeks: int, best: Counts)
    requires BestSoFar(rates, days, -1, weeks, best)
    ensures BestSoFar(rates, days, -1, -1, best)
  {
    hide WeekLimit, CostOf, Left;
  }

  method CheapestCombination(days: nat, rates: Rates) returns (best: Counts)
    requires days >= 1
    ensures IsCheapest(rates, days, best)
    ensures BestSoFar(rates, days, -1, -1, best)
  {
    hide BestSoFar, CostOf, Candidate, WeekLimit, IsCheapest;
    var found := false;
    best := Counts(0, 0, 0);
    var weekends: int := WeekendLimit(rates);
    while weekends >= 0
      invariant -1 <= weekends <= WeekendLimit(rates)
      invariant found || weekends == WeekendLimit(rates)
      invariant found ==> BestSoFar(rates, days, weekends, WeekLimit(rates, days, Left(weekends)), best)
    {
      var weeks: int := WeekLimit(rates, days, weekends);
      while weeks >= 0
        invariant -1 <= weeks <= WeekLimit(rates, days, weekends)
        invariant found || (weekends == WeekendLimit(rates) && weeks == WeekLimit(rates, days, weekends))
        invariant found ==> BestSoFar(rates, days, weekends, weeks, best)
      {
        var counts := Candidate(days, weekends, weeks);
        if !found { TryFirst(rates, days); } else { TryNext(rates, days, weekends, weeks, best); }
        if !found || CostOf(rates, counts) < CostOf(rates, best) {
          best, found := counts, true;
        }
        weeks := weeks - 1;
      }
      NextWeekends(rates, days, weekends, best);
      weekends := weekends - 1;
    }
    LastWeekends(rates, days, WeekLimit(rates, days, Left(weekends)), best);
    SearchFindsTheCheapest(rates, days, best);
  }

  // ---- Trying so few is enough ------------------------------------------------------------------

  lemma CostGrows(rates: Rates, a: Counts, b: Counts)
    requires a.day <= b.day && a.weekend == b.weekend && a.week <= b.week
    ensures CostOf(rates, a) <= CostOf(rates, b)
  {
    ProductGrows(rates.day, a.day, b.day);
    ProductGrows(Price(rates.week), a.week, b.week);
  }

  /** Whatever covers the hire, one of the candidates costs no more. */
  lemma SomeCandidateIsNoDearer(rates: Rates, days: nat, c: Counts) returns (w: nat)
    requires Allowed(rates, c) && Covers(c, days)
    ensures w <= WeekLimit(rates, days, c.weekend)
    ensures CostOf(rates, Candidate(days, c.weekend, w)) <= CostOf(rates, c)
  {
    var limit := WeekLimit(rates, days, c.weekend);
    w := if c.week <= limit then c.week else limit;
    hide CostOf;
    CostGrows(rates, Candidate(days, c.weekend, w), c);
  }

  lemma CandidateCovers(rates: Rates, days: nat, we: nat, w: nat)
    requires we <= WeekendLimit(rates) && w <= WeekLimit(rates, days, we)
    ensures Allowed(rates, Candidate(days, we, w)) && Covers(Candidate(days, we, w), days)
  {
  }

  lemma SearchFindsTheCheapest(rates: Rates, days: nat, best: Counts)
    requires BestSoFar(rates, days, -1, -1, best)
    ensures IsCheapest(rates, days, best)
  {
    CandidateCovers(rates, days, best.weekend, best.week);
    hide CostOf, Candidate, WeekLimit, Covers;
    forall c | Allowed(rates, c) && Covers(c, days)
      ensures CostOf(rates, best) <= CostOf(rates, c)
    {
      var w := SomeCandidateIsNoDearer(rates, days, c);
      assert IsTried(rates, days, -1, -1, c.weekend, w);
      assert IsNoBetter(rates, days, best, c.weekend, w);
    }
  }

  // ---- What renters are promised ----------------------------------------------------------------

  /** Hiring for longer never costs less, whatever the rates. */
  lemma LongerIsNeverCheaper(rates: Rates, days: nat, longer: nat, best: Counts, bestLonger: Counts)
    requires days <= longer && IsCheapest(rates, days, best) && IsCheapest(rates, longer, bestLonger)
    ensures CostOf(rates, best) <= CostOf(rates, bestLonger)
  {
    hide CostOf;
    assert Covers(bestLonger, days);
  }

  /** Never dearer than the days at the daily rate, nor than the next whole week at the weekly one. */
  lemma NeverDearerThanDaily(rates: Rates, days: nat, best: Counts, weeks: nat)
    requires IsCheapest(rates, days, best)
    ensures CostOf(rates, best) <= days * rates.day
    ensures rates.week.Some? && days <= DAYS_IN_WEEK * weeks ==> CostOf(rates, best) <= weeks * rates.week.value
  {
    var daily, weekly := Counts(days, 0, 0), Counts(0, 0, weeks);
    assert CostOf(rates, daily) == days * rates.day;
    assert Covers(daily, days);
    assert Allowed(rates, daily);
    if rates.week.Some? && days <= DAYS_IN_WEEK * weeks {
      assert CostOf(rates, weekly) == weeks * rates.week.value;
      assert Allowed(rates, weekly) && Covers(weekly, days);
    }
  }

  /** The rates a hire may use: the weekend rate only when it starts on a Friday. */
  function AvailableRates(card: RateCard, startsOnWeekday: nat): Rates
    requires card.daily.Some?
  {
    Rates(card.daily.value,
          if startsOnWeekday == WEEKEND_START_WEEKDAY then card.weekend else None,
          card.weekly)
  }

  function Item(days: nat, count: nat, price: nat): seq<LineItem> {
    if count > 0 then [LineItem(days, count, price, count * price)] else []
  }

  function LineItems(rates: Rates, c: Counts): seq<LineItem> {
    Item(DAYS_IN_WEEK, c.week, Price(rates.week)) + Item(DAYS_IN_WEEKEND, c.weekend, Price(rates.weekend))
    + Item(1, c.day, rates.day)
  }

  function Subtotals(items: seq<LineItem>): nat {
    if items == [] then 0 else items[0].subtotal + Subtotals(items[1..])
  }

  function DaysBought(items: seq<LineItem>): nat {
    if items == [] then 0 else items[0].days * items[0].count + DaysBought(items[1..])
  }

  lemma {:induction false} TotalsOfConcat(a: seq<LineItem>, b: seq<LineItem>)
    ensures Subtotals(a + b) == Subtotals(a) + Subtotals(b)
    ensures DaysBought(a + b) == DaysBought(a) + DaysBought(b)
  {
    if a == [] {
      assert a + b == b;
    } else {
      assert (a + b)[1..] == a[1..] + b;
      TotalsOfConcat(a[1..], b);
    }
  }

  lemma TotalsOfItem(days: nat, count: nat, price: nat)
    ensures Subtotals(Item(days, count, price)) == count * price
    ensures DaysBought(Item(days, count, price)) == days * count
  {
    if count > 0 { assert Item(days, count, price)[1..] == []; }
  }

  /** The breakdown adds up to the charge and accounts for every day of the cover. */
  lemma BreakdownAddsUp(rates: Rates, c: Counts)
    ensures Subtotals(LineItems(rates, c)) == CostOf(rates, c)
    ensures DaysBought(LineItems(rates, c)) == c.day + DAYS_IN_WEEKEND * c.weekend + DAYS_IN_WEEK * c.week
  {
    var w, e, d := Item(DAYS_IN_WEEK, c.week, Price(rates.week)),
        Item(DAYS_IN_WEEKEND, c.weekend, Price(rates.weekend)), Item(1, c.day, rates.day);
    TotalsOfItem(DAYS_IN_WEEK, c.week, Price(rates.week));
    TotalsOfItem(DAYS_IN_WEEKEND, c.weekend, Price(rates.weekend));
    TotalsOfItem(1, c.day, rates.day);
    hide Item, Subtotals, DaysBought;
    TotalsOfConcat(w, e);
    TotalsOfConcat(w + e, d);
  }

  /** The breakdown reads largest unit first, and has no line for a unit that is not used. */
  lemma LargestUnitFirst(rates: Rates, c: Counts, i: nat)
    requires i < |LineItems(rates, c)|
    ensures LineItems(rates, c)[i].count > 0
    ensures LineItems(rates, c)[i].subtotal == LineItems(rates, c)[i].count * LineItems(rates, c)[i].unitPrice
    ensures i > 0 ==> LineItems(rates, c)[i - 1].days > LineItems(rates, c)[i].days
  {
  }

  /** So many days, weekends and weeks at the prices on the card. */
  function Charge(card: RateCard, d: nat, e: nat, w: nat): nat {
    d * Price(card.daily) + e * Price(card.weekend) + w * Price(card.weekly)
  }

  /** They cover the hire, a weekend only from a Friday and only one, and nothing the card has no price for. */
  predicate IsCover(card: RateCard, weekday: nat, days: int, d: nat, e: nat, w: nat) {
    && days <= d + 3 * e + 7 * w
    && (e == 0 || (e == 1 && weekday == 5 && card.weekend.Some?)) && (w == 0 || card.weekly.Some?)
  }

  lemma CoverOnTheCard(card: RateCard, weekday: nat, days: nat, d: nat, e: nat, w: nat)
    requires card.daily.Some?
    ensures var rates := AvailableRates(card, weekday);
            && (IsCover(card, weekday, days, d, e, w)
                <==> Allowed(rates, Counts(d, e, w)) && Covers(Counts(d, e, w), days))
            && (IsCover(card, weekday, days, d, e, w)
                ==> CostOf(rates, Counts(d, e, w)) == Charge(card, d, e, w))
  {
    if e == 0 { assert e * Price(card.weekend) == 0 && e * Price(AvailableRates(card, weekday).weekend) == 0; }
  }

  method ChooseCheapestUnits(days: int, startsOnWeekday: nat, card: RateCard) returns (units: Option<RentalUnits>)
    ensures units.None? <==> card.daily.None? || days < 1
    ensures units.Some? ==>
              && Subtotals(units.value.lineItems) == units.value.itemCharge
              && DaysBought(units.value.lineItems) >= days
              && (forall d, e, w | IsCover(card, startsOnWeekday, days, d, e, w) ::
                    units.value.itemCharge <= Charge(card, d, e, w))
              && (exists d, e, w :: IsCover(card, startsOnWeekday, days, d, e, w)
                                    && units.value.itemCharge == Charge(card, d, e, w))
  {
    if card.daily.None? || days < 1 { return None; }
    var rates := AvailableRates(card, startsOnWeekday);
    var best := CheapestCombination(days, rates);
    hide CostOf, LineItems, BestSoFar;
    BreakdownAddsUp(rates, best);
    forall d: nat, e: nat, w: nat
      ensures var c := Counts(d, e, w);
              && (IsCover(card, startsOnWeekday, days, d, e, w) <==> Allowed(rates, c) && Covers(c, days))
              && (IsCover(card, startsOnWeekday, days, d, e, w) ==> CostOf(rates, c) == Charge(card, d, e, w))
    {
      CoverOnTheCard(card, startsOnWeekday, days, d, e, w);
    }
    assert best == Counts(best.day, best.weekend, best.week);
    assert IsCover(card, startsOnWeekday, days, best.day, best.weekend, best.week);
    return Some(RentalUnits(LineItems(rates, best), CostOf(rates, best)));
  }
}
