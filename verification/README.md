# Verified model of the rental platform's core

A Dafny model of the parts of the platform whose correctness is hard to see from
any one function, with machine-checked proofs about them. `dafny verify
dfyconfig.toml` checks everything.

**Bookings.** The booking store is a class over a table of bookings with their
histories. Each store method is one atomic step with the guard the database gives
it: the exclusion constraint on occupying bookings, the unique quote, the
compare-and-swap on the state. Clients call the steps in any order, any number of
times, and the theorems are about every such run: dates are held once, quotes are
used once, histories are linked and only grow, racing advances have one winner,
sweeps drain the backlog in order, and an acceptance is all or nothing. The
transition table is modelled on its own, and the two meet in `BookingDoor`: because
the table has one edge into the occupying set, the exclusion constraint can fire
only at an insert and on that edge.

**The calendar.** A timezone is any strictly increasing function from day numbers
to midnights, so days need not be 24 hours long, and months are any increasing
first days. The owner's calendar and the check a request makes are proved to give
one answer.

**Arithmetic and text.** Splitting money, reading and printing decimals, validating
category answers, suggesting transport from weight, and choosing the cheapest cover
of a hire, each over unbounded exact integers with the safe-integer limit explicit.

**Logs and processes.** The bounded merge of an audit trail, the canonical form
behind a state digest, redaction over object graphs that share and cycle, and the
timed shutdown sequence.

`Ordering` is the theory of bounded, ordered reads that several of these share.
Where the source updates something step by step (the store's methods, the loops of
`allocate`, validation, parsing, the redaction recursion, the shutdown handler) the
model is a method or a class, proved against a specification function; everything
else is functions and lemmas.

## What the code does that its documentation does not say

- `packages/contracts/src/booking.ts:33` speaks of twenty-two states; the array
  below it has twenty-three, and the model follows the array.
- The number of conflicts shown before an acceptance counts only requests still
  within their deadline, but the acceptance declines overdue ones too. The two
  numbers agree exactly when no overlapping request was overdue when the count was
  shown (`ConflictCountIsExactUnlessOverdue`).
- The exclusion constraint is partial: it looks only at occupying rows, and only
  when the row being written is itself occupying. A booking inserted as a request
  over held dates is not refused (`WhenDatesRefuseAnInsert`); accepting it is
  (`RequestOverHeldDates`).
- With a limit of zero a sweep reports that it did not reach its limit while the
  backlog stands. For a positive limit the report is exact.
- The calendar and the booking projections compute the inclusive last day in
  different ways. They agree exactly when the stored end is a local midnight.
- The store orders the audit reads by time alone, so which entries of one
  millisecond fall before the cut is its choice. The merge is right up to that
  choice, exact if the store broke ties by id, and the same whatever it does exactly
  when no tie is broken at the cut (`WhenThePageIsDetermined`).
- The complaint about a refused list of choices depends on its order exactly when the
  list has both faults, although what is stored never does
  (`WhenTheComplaintIsSettled`).
- A shared object with no cycle in sight is logged as `[circular]` from the second
  time on. The shape of a value is kept exactly when no object stands at two visible
  positions and no shown record holds `__proto__` (`TreeKeepsItsShape`).
- With bounds that reach the backstop, a hanging sequence calls `exit(1)` and, if
  the injected `exit` returns, later `exit(0)` as well.
- Publication reads `attributes[key]` without asking whether the object has that key,
  so a required attribute named `constructor`, which the key pattern admits, is taken
  as answered on an empty form. It is the only such name
  (`RequiredBlocksExactlyWhenAbsent`, `OnlyConstructorIsAKey`).
- Redaction builds its output with `output[key] = ...`, so an own key `__proto__`, which
  parsed JSON can carry, leaves no entry, and an object under it is met without being
  shown. Shape and count hold exactly when that does not happen.
- A timer delay below 1 or above 2147483647 milliseconds becomes 1, so a shutdown
  backstop configured beyond that range fires at once. The budget theorem is about
  the delays as waited, which within the range are the configured ones.

## Model

| member | source | states |
|---|---|---|
| `BookingStates.AssertedMovesAreRuns` | apps/api/src/booking/booking-state-machine.ts:133-175 | asking for one move after another goes through exactly when the states form a run of the table, and ends in the state last asked for |
| `BookingStates.RefusalNamesTheBadMove` | apps/api/src/booking/booking-state-machine.ts:152-175 | a refusal names both states of the first move that is not an edge, all moves before it having gone through |
| `BookingStates.TableReadBackwards` | apps/api/src/booking/booking-state-machine.ts:44-69 | a move is among a state's exits exactly when the state is among the target's sources, listed the other way round |
| `BookingStates.OneDoorIntoTheCalendar` | apps/api/src/booking/booking-state-machine.ts:44-107 | the only edge of the table that enters the nine occupying states is `REQUESTED` to `ACCEPTED` |
| `BookingStates.RankFalls` | apps/api/src/booking/booking-state-machine.ts:44-69 | a rank strictly falls along every edge that is not one of the two retries |
| `BookingStates.RunBoundedByRetries` | apps/api/src/booking/booking-state-machine.ts:44-69 | every run is no longer than the fall in rank plus two moves for each retry it takes |
| `BookingStates.LongestWayRuns` | apps/api/src/booking/booking-state-machine.ts:44-69 | the bound is met: a retry-free run from `DRAFT` takes the full rank in moves |
| `BookingStates.TowardsTheEnd` | apps/api/src/booking/booking-state-machine.ts:44-69 | every state that is not terminal has a move, not a retry, that brings it nearer to an end |
| `BookingStates.WayOut` | apps/api/src/booking/booking-state-machine.ts:114-130 | every state can reach a terminal one, by a run without retries |
| `BookingStates.LeavingIsForGood` | apps/api/src/booking/booking-state-machine.ts:44-107 | once the dates are let go no edge leads back to holding them |
| `BookingStates.OneStretchOnTheCalendar` | apps/api/src/booking/booking-state-machine.ts:44-107 | the occupying states of any run are contiguous and never re-entered |
| `BookingStates.OccupyingBetweenAcceptanceAndReturn` | apps/api/src/booking/booking-state-machine.ts:71-107 | the occupying states are exactly those an accepted booking can be in with the return of the item still ahead of it |
| `BookingStates.LevelNeverRises` | apps/api/src/booking/booking-state-machine.ts:44-69 | with each retry loop folded into one level, no edge climbs |
| `BookingStates.VisitedOnce` | apps/api/src/booking/booking-state-machine.ts:44-69 | outside the two retry loops no run visits a state twice |
| `BookingStore.BookingTable.Write` | apps/api/src/booking/booking-store.ts:265-297 | `create` and `createWithEvent`: refused on an overlap or a used quote with nothing written, otherwise the row and its first event together and no other change |
| `BookingStore.BookingTable.Accept` | apps/api/src/booking/booking-store.ts:184-229 | the lock-first transaction refines the one-step acceptance: the chosen request accepted, the overlapping requests declined, or no change and the reason |
| `BookingStore.BookingTable.Decline` | apps/api/src/booking/booking-store.ts:408-416 | the request declined with one event, or no change and the reason; allowed after the deadline |
| `BookingStore.BookingTable.ExpireRequests` | apps/api/src/booking/booking-store.ts:418-447 | one bounded sweep refines the specification: exactly the oldest overdue requests move, one event each |
| `BookingStore.BookingTable.Advance` | apps/api/src/booking/booking-store.ts:449-482 | compare-and-swap: the row moves with one event exactly when it is in `from`, otherwise nothing changes |
| `BookingStore.BookingTable.FindPendingRequests` | apps/api/src/booking/booking-store.ts:363-379 | the owner's pending requests in start order, each with the number of other pending requests across its dates |
| `BookingStore.ShowRows` | apps/api/src/booking/prisma-booking-store.ts:251-285 | one line for each pending row, in order, each with its own conflict count |
| `BookingStore.LockThenDecline` | apps/api/src/booking/prisma-booking-store.ts:287-406 | reading the losers after the lock row is written finds the same losers as before it |
| `BookingOutcomes.WhenInsertSucceeds` | apps/api/src/booking/prisma-booking-store.ts:169-249 | in row fields alone: an insert succeeds exactly when its checks hold, no other occupying booking of the listing overlaps an occupying row and no row has its quote; the table then holds the booking given, with its event |
| `BookingOutcomes.WhenTheQuoteRefusesAnInsert` | apps/api/src/booking/booking-store.ts:160-182 | with the dates no reason, an insert is refused for its quote exactly when a row already has it |
| `BookingOutcomes.WhenAcceptSucceeds` | apps/api/src/booking/prisma-booking-store.ts:287-406 | each answer of an acceptance, as an equivalence in row fields: not the owner's, no longer a request in time, dates taken, or done |
| `BookingOutcomes.WhenDeclineSucceeds` | apps/api/src/booking/prisma-booking-store.ts:408-449 | each answer of a decline, as an equivalence in row fields, and the row it writes |
| `BookingOutcomes.WhenAdvanceSucceeds` | apps/api/src/booking/prisma-booking-store.ts:451-498 | each answer of an advance, as an equivalence in row fields, and the row it writes |
| `BookingOutcomes.WhatAnOwnerIsShown` | apps/api/src/booking/prisma-booking-store.ts:251-285 | the lines shown are exactly the owner's own requests of that listing still in time, by start then id, each with the exact number of other such requests across its dates |
| `BookingOutcomes.NobodyIsDoubleBooked` | apps/api/src/booking/booking-store.ts:264-482 | in every run, of two bookings of a listing that hold dates one ends before the other starts, and no two share a quote |
| `BookingRuns.EveryStepFollows` | apps/api/src/booking/booking-store.ts:264-482 | every step fixes all but the state of each existing row and only extends histories |
| `BookingRuns.StepKeepsDates` | apps/api/src/booking/booking-store.ts:264-482 | every step keeps the no-overlap invariant, including sweeps and acceptances over many rows |
| `BookingRuns.StepKeepsRest` | apps/api/src/booking/booking-store.ts:160-182 | every step keeps quotes unique and rows within the table's checks |
| `BookingRuns.SweepTakesOnlyOverdue` | apps/api/src/booking/booking-store.ts:418-447 | a row a sweep changes was a request past its deadline |
| `BookingRuns.EveryRunIsSound` | apps/api/src/booking/booking-store.ts:160-182 | in every interleaving of any length, no two occupying bookings of one listing overlap and no quote backs two bookings |
| `BookingDoor.ConstraintNeverFires` | apps/api/src/booking/booking-state-machine.ts:44-107 | on a sound table, `advance` along any edge but the one into the occupying set behaves the same with no exclusion constraint behind it |
| `BookingDoor.DoorNeedsTheConstraint` | apps/api/src/booking/booking-store.ts:449-482 | in any table, for any two overlapping requests of one listing, bare compare-and-swaps on that one edge let both hold the dates, and the constraint refuses the second |
| `BookingDoor.WhenDatesRefuseAnInsert` | apps/api/src/booking/booking-store.ts:264-277 | an insert is refused for its dates if and only if the row would itself hold them and an occupying booking of the listing overlaps |
| `BookingDoor.RequestOverHeldDates` | apps/api/src/booking/booking-store.ts:184-229 | a request over held dates is written, and accepting it, in time and by the owner, is refused as overlapping with nothing changed |
| `BookingDoor.GuardingTheDoorIsEnough` | apps/api/src/booking/booking-store.ts:264-482 | guarding only inserts and acceptances gives the same table, and the same safety, for every run that advances along other edges |
| `BookingHistories.HowARowMoves` | apps/api/src/booking/booking-store.ts:83-118 | any step leaves a booking alone or moves it along one edge of the table, adding exactly one matching event |
| `BookingHistories.EveryRunIsLinked` | apps/api/src/booking/booking-store.ts:83-118 | in every run each event starts where the last ended, along an edge, and the last one ends in the current state |
| `BookingHistories.HistoryOnlyGrows` | apps/api/src/booking/booking-store.ts:83-118 | between any two moments of a run no event is edited or removed and no booking's facts change |
| `BookingHistories.HistoryExplainsTheBooking` | apps/api/src/booking/booking-store.ts:279-297 | a booking made by `createWithEvent` has, ever after, a non-empty linked history whose first `fromState` is null |
| `BookingHistories.PathIsRun` | apps/api/src/booking/booking-state-machine.ts:44-69 | the states a history records form a run through the table |
| `BookingHistories.DeparturesMatchVisits` | apps/api/src/booking/booking-store.ts:449-482 | conservation: departures from a state equal entries into it, less one if the booking is there now |
| `BookingHistories.EveryBookingWalksTheTable` | apps/api/src/booking/booking-state-machine.ts:44-107 | in every run each booking's life is bounded by its retries and holds the calendar for one stretch at most |
| `BookingHistories.WinsAreDepartures` | apps/api/src/booking/booking-store.ts:449-482 | successful `advance` calls out of a state are never more than the recorded departures |
| `BookingHistories.RacingAdvances` | apps/api/src/booking/booking-store.ts:449-482 | successes out of a state never exceed entries into it, so outside the retry loops at most one call ever succeeds |
| `BookingAcceptance.AcceptIsAllOrNothing` | apps/api/src/booking/booking-store.ts:381-406 | on success the ids returned are exactly the other requests of that listing that overlap, the rows changed are those and the chosen one, one event each; on refusal the table is unchanged |
| `BookingAcceptance.NoRequestSurvivesAgainstIt` | apps/api/src/booking/booking-store.ts:184-229 | after an acceptance no other request for overlapping dates of that listing remains |
| `BookingAcceptance.ConflictCountIsExactUnlessOverdue` | apps/api/src/booking/booking-store.ts:363-406 | the count shown at one moment never exceeds the number declined at a later one, and equals it if and only if no overlapping request was already overdue when it was shown |
| `BookingAcceptance.OverdueRequestIsDeclinedUncounted` | apps/api/src/booking/prisma-booking-store.ts:251-285 | a concrete table where one overdue request makes the two numbers differ |
| `BookingSweeps.SweepChangesItsBatch` | apps/api/src/booking/booking-store.ts:231-262 | a sweep changes exactly its batch, each an overdue request, each moved to expired with one event |
| `BookingSweeps.BacklogLosesTheBatch` | apps/api/src/booking/booking-store.ts:418-447 | the overdue set loses exactly the batch, so its size falls by the batch's |
| `BookingSweeps.NotReachedMeansDrained` | apps/api/src/booking/booking-store.ts:244-262 | with a positive limit, `reachedLimit` false leaves no overdue request; with limit zero it says nothing |
| `BookingSweeps.WhatASweepDoes` | apps/api/src/booking/prisma-booking-store.ts:500-581 | a row a sweep changes was a request whose deadline had come, and becomes expired with one event naming no actor |
| `BookingSweeps.WhatASweepReports` | apps/api/src/booking/prisma-booking-store.ts:500-581 | the rows reported are exactly the rows changed, in deadline order |
| `BookingSweeps.OldestFirst` | apps/api/src/booking/prisma-booking-store.ts:500-581 | no request left waiting has an earlier deadline than one that was taken, ties going to the lower id |
| `BookingSweeps.WhenTheLimitIsReached` | apps/api/src/booking/booking-store.ts:244-262 | the flag is up exactly when a positive limit was filled, and down with a positive limit no request is left past its deadline |
| `BookingSweeps.SweepsDrainInOrder` | apps/api/src/booking/booking-store.ts:418-447 | k sweeps together take the first k times limit of the backlog in deadline order, in disjoint batches, and leave the rest in order |
| `BookingSweeps.EnoughSweepsDrain` | apps/api/src/booking/booking-store.ts:418-447 | as many sweeps as the backlog needs leave nothing overdue |
| `BookingSweeps.WhenTheBacklogGrows` | apps/api/src/booking/booking-store.ts:264-482 | of all the store's steps, exactly one that inserts an already overdue request, or turns a booking into one, adds to the backlog |
| `BookingSweeps.SweepsDrainAmongOthers` | apps/api/src/booking/booking-store.ts:418-447 | with any steps of other clients between the sweeps, short of those, the backlog gains nothing and falls by the limit at every sweep until it is empty |
| `LocalTime.DayOf` | packages/core/src/time.ts:293-301 | the day whose midnight is at or before the instant and whose next midnight is after it, for any increasing zone |
| `LocalTime.DayOfIsAdjoint` | packages/core/src/time.ts:205-231 | an instant is on day d or later exactly when it is at or after d's midnight |
| `LocalTime.RentalDaysAreMidnights` | packages/core/src/time.ts:139-160 | a day count is the midnights passed, one at least, and is refused only for an end on an earlier day |
| `LocalTime.DatesSurviveStorage` | apps/api/src/booking/availability.service.ts:123-165 | inclusive dates stored as two midnights come back as the same dates, with the right number of rental days |
| `LocalTime.InclusiveEndsAgreeAtMidnight` | apps/api/src/booking/booking-data.service.ts:116-118 | the calendar's and the projection's inclusive ends agree if and only if the stored end is a local midnight, else differ by one day |
| `LocalTime.TouchesDay` | apps/api/src/booking/availability.service.ts:259-288 | a non-empty interval touches a day exactly when the calendar draws it across that day |
| `LocalTime.TouchesSomeDay` | apps/api/src/booking/availability-store.ts:100-146 | an interval touches a run of whole days exactly when it touches one of them |
| `Availability.WhenUnavailable` | apps/api/src/booking/prisma-availability-store.ts:132-165 | blocked exactly when a block of that listing meets the period, and free exactly when in addition no occupying booking of it does |
| `Availability.WhatAPageDraws` | apps/api/src/booking/availability.service.ts:67-115 | a page draws exactly the listing's blocks and occupying bookings that meet the month, from the day each begins to the day of its last instant |
| `Availability.PageShadesBlocks` | apps/api/src/booking/availability.service.ts:67-115 | on the page of its month, a day is shaded by exactly the blocks that touch it |
| `Availability.PageShadesBookings` | apps/api/src/booking/availability.service.ts:67-115 | and by exactly the occupying bookings that touch it |
| `Availability.PeriodBlockedByDays` | apps/api/src/booking/prisma-availability-store.ts:132-165 | a whole-day period is blocked exactly when one of its days is |
| `Availability.PeriodBookedByDays` | apps/api/src/booking/prisma-availability-store.ts:132-165 | a whole-day period is booked exactly when one of its days is |
| `Availability.CalendarAgreesWithRequests` | apps/api/src/booking/availability-store.ts:100-146 | `reasonUnavailable` is the answer read off the month pages, day by day: null iff no day is shaded, blocked before booked |
| `Availability.WhenBlockIsAccepted` | apps/api/src/booking/availability.service.ts:123-228 | the exact condition, in dates alone, under which a block is accepted, and that it is then drawn with those dates |
| `Availability.WhyABlockIsRefused` | apps/api/src/booking/availability.service.ts:188-229 | each refusal of a block as an equivalence in dates, the earlier check answering first |
| `Availability.BlockTakesEffect` | apps/api/src/booking/availability.service.ts:123-165 | an accepted block shades every day of it and makes every period that meets it unavailable as blocked |
| `Availability.WhenUnblockRemoves` | apps/api/src/booking/availability.service.ts:181-186 | a block is withdrawn exactly for the owner of the listing it is on, and nothing else changes |
| `Availability.UnblockUndoesBlock` | apps/api/src/booking/availability.service.ts:181-186 | withdrawing a new block restores the calendar exactly |
| `Availability.Calendar.Declare` | apps/api/src/booking/availability.service.ts:123-165 | the stored blocks become those of the specified step, refusals in the source's order |
| `Availability.Calendar.Withdraw` | apps/api/src/booking/availability.service.ts:181-186 | removes the block only for the owner of its listing and reports whether it did |
| `Money.Allocate` | packages/core/src/money.ts:157-196 | the loops return the specified shares; the three refusals happen exactly on their conditions |
| `Money.RoundShares` | packages/core/src/money.ts:171-180 | the first loop yields every share rounded towards zero and what that leaves |
| `Money.HandOut` | packages/core/src/money.ts:182-193 | the second loop gives one unit each to the largest ratios, first given first |
| `Money.LeftoverNeverWraps` | packages/core/src/money.ts:188-193 | the leftover is smaller than the number of positive ratios and has the amount's sign, so the index never wraps |
| `Money.BumpedAt` | packages/core/src/money.ts:188-193 | a favoured share gets exactly one unit, any other none |
| `Money.NothingLostOrInvented` | packages/core/src/money.ts:150-157 | the shares sum to the amount |
| `Money.WithinOneUnit` | packages/core/src/money.ts:157-196 | each share is within one minor unit of its exact proportion and never of the opposite sign |
| `Money.ZeroRatioGetsNothing` | packages/core/src/money.ts:157-196 | a zero ratio gets zero, even from the leftover |
| `Money.LargerRatioGetsNoLess` | packages/core/src/money.ts:182-193 | a larger ratio never gets a smaller magnitude |
| `Money.RefundMirrorsCharge` | packages/core/src/money.ts:174-177 | negating the amount negates every share |
| `Money.SharesStayWithinTheAmount` | packages/core/src/money.ts:195-195 | no share is larger than the amount, so the safe-integer check on a share of a safe amount never refuses |
| `Money.OnlyProportionsMatter` | packages/core/src/money.ts:165-180 | multiplying every ratio by the same positive number changes no share, so exact fractional ratios split as the whole numbers in their proportion |
| `Decimal.MatchSound` | packages/core/src/scaled.ts:70-75 | what the pattern matches is exactly the text it was read from |
| `Decimal.MatchComplete` | packages/core/src/scaled.ts:70-75 | every well-formed numeral matches, in one way only |
| `Decimal.TrimTakesSpaces` | packages/core/src/scaled.ts:70-70 | trimming takes spaces off both ends and nothing else |
| `Decimal.SpacesAre` | packages/core/src/scaled.ts:70-70 | the characters that count as spaces, by code point |
| `Decimal.ReadsTheNumberWritten` | packages/core/src/scaled.ts:67-101 | the integer read is the number written, counted in units of the last place |
| `Decimal.WhyADecimalIsRefused` | packages/core/src/scaled.ts:67-101 | each refusal as an equivalence: scale, text, places, size |
| `Decimal.WhenADecimalIsPrinted` | packages/core/src/scaled.ts:109-116 | printing answers exactly at a scale from 0 to 9 for a safe integer, and each refusal has its reason |
| `Decimal.PrintThenParse` | packages/core/src/scaled.ts:67-125 | every safe integer survives printing and reading at every scale from 0 to 9 |
| `Decimal.ParseThenPrint` | packages/core/src/scaled.ts:67-125 | printing what was read gives the trimmed text back if and only if it was typed canonically |
| `Decimal.StoredValueIsAFixedPoint` | packages/core/src/scaled.ts:67-125 | for any accepted text, storing, showing and reading again keeps the value |
| `Decimal.ParsersAgree` | packages/core/src/money.ts:71-89 | `fromMajor` and `fromDecimalString` at two places give the same result or refusal on every string |
| `Decimal.PrintersAgree` | packages/core/src/money.ts:242-250 | `toMajorString` and `toDecimalString` at two places print every safe amount alike |
| `Decimal.RescaleKeepsTheNumber` | packages/core/src/scaled.ts:67-101 | reading the same text at more places multiplies the value by that power of ten |
| `AttributeValues.ReadMany` | packages/contracts/src/attribute-values.ts:205-237 | the loop over ticked choices: the first fault in order, or the offered values chosen, in the definition's order |
| `AttributeValues.WhenTextIsRead` | packages/contracts/src/attribute-values.ts:117-138 | text is read trimmed, exactly when it is then not blank, not too long in UTF-16 units and holds nothing unsafe |
| `AttributeValues.WhenAChoiceIsRead` | packages/contracts/src/attribute-values.ts:191-203 | a single choice is read exactly when it is one of the offered values |
| `AttributeValues.WhenChoicesAreRead` | packages/contracts/src/attribute-values.ts:205-237 | accepted exactly when the list is not empty, holds only options and repeats none |
| `AttributeValues.ChoiceOrderIsImmaterial` | packages/contracts/src/attribute-values.ts:230-236 | permuting the submitted choices changes neither acceptance nor the stored value |
| `AttributeValues.WhenTheComplaintIsSettled` | packages/contracts/src/attribute-values.ts:211-225 | the result is the same in every submitted order if and only if the list does not hold both an entry that is no option and an option more than once |
| `AttributeValues.StrangerFirst` | packages/contracts/src/attribute-values.ts:211-217 | any list with an entry that is no option can be ordered to be refused for it |
| `AttributeValues.RepeatFirst` | packages/contracts/src/attribute-values.ts:218-224 | any list with an option more than once can be ordered to be refused for that |
| `AttributeValues.ComplaintDependsOnOrder` | packages/contracts/src/attribute-values.ts:211-225 | a list with both, in two orders, with the two complaints |
| `AttributeValues.NumberReads` | packages/contracts/src/attribute-values.ts:140-189 | the pattern test in front of the parser refuses nothing the parser accepts |
| `AttributeValues.AnswerReadsBack` | packages/contracts/src/attribute-values.ts:112-240 | a stored answer of any type, shown and submitted again, is stored the same, and is never a blank shape |
| `AttributeValues.FindUnknown` | packages/contracts/src/attribute-values.ts:288-298 | the loop over submitted keys reports each one the category does not have, in order |
| `AttributeValues.ReadAnswers` | packages/contracts/src/attribute-values.ts:300-316 | the loop over definitions reads each supplied field into the values or the issues |
| `AttributeValues.ValidateAttributeValues` | packages/contracts/src/attribute-values.ts:257-319 | the bounds and the two loops compute the specified values or list of issues |
| `AttributeValues.WhenAnswersAreValid` | packages/contracts/src/attribute-values.ts:257-319 | the exact condition for acceptance, and that each definition alone decides its own stored value |
| `AttributeValues.WhatIsComplainedOf` | packages/contracts/src/attribute-values.ts:288-319 | a refused set of answers is told of each unknown key and each bad answer, with its problem, and nothing else |
| `AttributeValues.WhenNothingIsWalked` | packages/contracts/src/attribute-values.ts:261-286 | what is not an object, or has more than twelve keys, is refused with one issue |
| `AttributeValues.StoredAnswersAreAFixedPoint` | packages/contracts/src/attribute-values.ts:257-319 | rendering accepted values to text, in any key order, validates to the same values |
| `AttributeValues.AttributeBlockers` | packages/contracts/src/publication.ts:129-144 | the loop lists the required attributes that are not answered, in form order, a lookup reading through to inherited names |
| `AttributeValues.WhatBlocks` | packages/contracts/src/publication.ts:129-144 | whatever is stored, a field blocks exactly when a required definition of it finds nothing, an empty text or an empty list there |
| `AttributeValues.RequiredBlocksExactlyWhenAbsent` | packages/contracts/src/publication.ts:129-144 | for validated values a required attribute is a blocker if and only if its key is absent and is not `constructor` |
| `AttributeValues.OnlyConstructorIsAKey` | packages/contracts/src/catalogue.ts:212-220 | of the names every object inherits, the key pattern admits `constructor` and no other |
| `AttributeValues.ConstructorIsNeverMissing` | packages/contracts/src/publication.ts:132-136 | a required attribute of that name, unanswered on an empty form, raises no blocker |
| `Transport.FindRepeats` | packages/contracts/src/transport.ts:189-202 | the `seen` loop reports each repeat of a requirement |
| `Transport.FindFalls` | packages/contracts/src/transport.ts:208-225 | the `previous` loop reports each threshold not above the last one |
| `Transport.ParseCategoryTransportOptions` | packages/contracts/src/transport.ts:183-232 | bounds, repeats, falls, then display order |
| `Transport.NoFalls` | packages/contracts/src/transport.ts:208-225 | comparing each threshold with the one before is enough for all of them to rise |
| `Transport.WhenOptionsAreAccepted` | packages/contracts/src/transport.ts:183-228 | accepted exactly when every pair of options is consistent, whatever the order; what is stored is then a strictly rising ladder of the same options |
| `Transport.WhenOptionsAreMalformed` | packages/contracts/src/transport.ts:129-146 | malformed exactly with more than five options or a threshold outside 1 to 2000 |
| `Transport.WhatOptionsAreRefusedFor` | packages/contracts/src/transport.ts:183-225 | a refused configuration is told of exactly the requirements offered twice and the thresholds not above the one before |
| `Transport.SubmittedOrderIsImmaterial` | packages/contracts/src/transport.ts:157-166 | permuting the submitted options changes neither acceptance nor what is stored |
| `Transport.SuggestTransportRequirement` | packages/contracts/src/transport.ts:292-317 | the loop with `heaviestOffered` and `anyThreshold` computes the suggestion |
| `Transport.SuggestsTheLeastCover` | packages/contracts/src/transport.ts:262-317 | the option with the least covering threshold, else the last option, and none exactly when no threshold exists |
| `Transport.SuggestionIsMonotone` | packages/contracts/src/transport.ts:292-317 | a heavier item, at any two scales, is never suggested a less demanding option |
| `Transport.SameWeightSameSuggestion` | packages/contracts/src/transport.ts:246-260 | only the real weight matters, not the scale |
| `Transport.RescalingChangesNothing` | packages/contracts/src/transport.ts:246-260 | re-expressing a weight at more decimal places changes nothing |
| `Transport.EveryThresholdIsReached` | packages/contracts/src/transport.ts:168-173 | every option with a threshold is suggested for some weight |
| `Transport.FormAgreesWithValidation` | packages/contracts/src/item-weight.ts:38-76 | the form sees a weight exactly when submitting it would store that value and it is not negative |
| `Transport.PrecisionDoesNotMatter` | packages/contracts/src/item-weight.ts:38-76 | categories that declare different precision suggest the same for the same typed weight |
| `AuditTrail.AuditLog.Record` | apps/api/src/audit/prisma-audit-log.ts:26-40 | the log grows by that entry and nothing in it changes |
| `AuditTrail.AuditLog.ListForActor` | apps/api/src/audit/prisma-audit-log.ts:42-79 | some newest entries by the actor, newest first, ties left to the store |
| `AuditTrail.AuditLog.ListForSubject` | apps/api/src/audit/prisma-audit-log.ts:81-122 | some newest entries about the subject by anybody else or nobody, with no address or session read |
| `AuditTrail.WhatATrailHolds` | apps/api/src/audit/prisma-audit-log.ts:42-122 | a trail is exactly the entries the person made or that were made about them |
| `AuditTrail.WhatIsServed` | apps/api/src/audit/audit.service.ts:222-268 | every record served comes from an entry the person made or that was made about them, with its facts |
| `AuditTrail.NewestComesFirst` | apps/api/src/audit/audit.service.ts:270-283 | on a page, later entries come first and the higher id breaks a tie |
| `AuditTrail.NothingNewerIsLeftOut` | apps/api/src/audit/audit.service.ts:177-184 | an entry of the trail that is not on a page is no newer than any on it, and the page is full |
| `AuditTrail.SidesAreDisjoint` | apps/api/src/audit/prisma-audit-log.ts:84-96 | no entry is on both sides of one person's trail, even if the sides are read at two moments |
| `AuditTrail.MergeReads` | apps/api/src/audit/audit.service.ts:226-232 | the merge of two reads of the log, at one moment or two: ordered, complete, and its first n the newest n of what the two sides held when read |
| `AuditTrail.BetweenTheTrails` | apps/api/src/audit/audit.service.ts:226-229 | reading the sides at two moments gives a trail between those of the two moments |
| `AuditTrail.ActivityFor` | apps/api/src/audit/audit.service.ts:222-233 | the merge is ordered, holds both reads in full, and its first n are the newest n of the whole trail |
| `AuditTrail.MergeIsNewest` | apps/api/src/audit/audit.service.ts:172-175 | the newest n of each side, however the store breaks ties, hold a newest n of both together |
| `AuditTrail.MergeIsExact` | apps/api/src/audit/audit.service.ts:270-283 | if the store breaks ties as the service does, the page is the one page there is |
| `AuditTrail.PagesDifferOnlyAtTheCut` | apps/api/src/audit/audit.service.ts:270-283 | two readings show the same instants in the same places and differ only in entries of the last instant |
| `AuditTrail.WhenThePageIsDetermined` | apps/api/src/audit/prisma-audit-log.ts:42-50 | every page the store may lead to is the same if and only if no entry left out has the instant of the last one kept |
| `AuditTrail.ListActivityFor` | apps/api/src/audit/audit.service.ts:177-184 | the page: the newest of the trail up to the clamped limit, each entry once, strictly ordered |
| `AuditTrail.ExportActivityFor` | apps/api/src/audit/audit.service.ts:205-208 | truncated if and only if the whole trail exceeds 1000, and carrying the newest 1000 |
| `AuditTrail.BoundedLimit` | packages/core/src/paging.ts:55-58 | within range always; a usable request is truncated, never rounded up |
| `AuditTrail.SeenKeepsTheFacts` | apps/api/src/audit/audit.service.ts:252-268 | a served record keeps the entry's id, instant, action, target type and reason, and a person's own address and session |
| `AuditTrail.OthersStayAnonymous` | apps/api/src/audit/audit.service.ts:256-268 | what is shown of somebody else's entry does not depend on its address or session and holds neither |
| `AuditTrail.ShownByOthersIsAnonymous` | apps/api/src/audit/audit.service.ts:81-92 | on a served record, not by the subject means no address and no session; by the subject means their own entry |
| `StateDigest.ObjectForm` | apps/api/src/audit/state-digest.ts:69-74 | a canonical object holds exactly the defined members made canonical, in the one enumeration order |
| `StateDigest.TextLessMeans` | apps/api/src/audit/state-digest.ts:72-72 | keys are ordered by the first place at which they part, a prefix first |
| `StateDigest.IndexKeysAre` | apps/api/src/audit/state-digest.ts:69-74 | the keys an object enumerates by number are the numbers up to 4294967294 as they are written |
| `StateDigest.FromEntriesAscends` | apps/api/src/audit/state-digest.ts:69-74 | an object built in text order enumerates index keys by number and then the others by text |
| `StateDigest.CanonicalFormsDecide` | apps/api/src/audit/state-digest.ts:52-75 | equal canonical forms if and only if equal up to key order, undefined members and a date against its ISO text, array order kept |
| `StateDigest.CanonicalIsWellFormed` | apps/api/src/audit/state-digest.ts:52-75 | a canonical form has each key once, and is undefined only for undefined |
| `StateDigest.CanonicaliseIsIdempotent` | apps/api/src/audit/state-digest.ts:52-75 | canonicalising twice is canonicalising once |
| `SensitiveKeys.SensitiveInAnyGuise` | packages/observability/src/redaction.ts:92-97 | a key holding a pattern in any case, split by any separators, with anything around it, is sensitive |
| `SensitiveKeys.LowerByAlphabet` | packages/observability/src/redaction.ts:93-93 | capitals become the small letter at the same place in the alphabet and nothing else changes |
| `SensitiveKeys.SecretsAreCaught` | packages/observability/src/redaction.ts:20-77 | every credential, payment, identity and location word is caught in any spelling and surroundings |
| `SensitiveKeys.ErrorKeysArePlain` | packages/observability/src/redaction.ts:120-127 | the four keys an error is shown under are not sensitive |
| `SensitiveKeys.ProtoIsPlain` | packages/observability/src/redaction.ts:92-97 | `__proto__` is not a sensitive key, so what it holds is visited |
| `Redaction.Redact` | packages/observability/src/redaction.ts:112-138 | the recursion over the shared `seen` set, terminating on every finite heap, logs what the specification says and leaves `seen` as it says |
| `Redaction.RedactAll` | packages/observability/src/redaction.ts:129-137 | the loops over entries: the marker under a sensitive key, else the recursion, in order |
| `Redaction.WalkMeets` | packages/observability/src/redaction.ts:117-118 | which objects are met does not depend on how text is masked |
| `Redaction.WalkCounts` | packages/observability/src/redaction.ts:117-137 | objects shown plus those seen before never exceed those seen after, and equal them if and only if no object is met first under an own `__proto__` |
| `Redaction.ReachableObjectsOnceEach` | packages/observability/src/redaction.ts:112-138 | a whole redaction meets exactly the objects visibly reachable from the value, the least closed set, and shows each at most once; all of them exactly when none is lost that way |
| `Redaction.EverythingReachableIsShown` | packages/observability/src/redaction.ts:112-138 | if no visibly reachable record holds an object under `__proto__`, every reachable object is shown once |
| `Redaction.ProtoEntryIsLost` | packages/observability/src/redaction.ts:133-137 | a concrete heap whose object under `__proto__` is met and not shown |
| `Redaction.WalkIsClean` | packages/observability/src/redaction.ts:133-137 | every entry under a sensitive key, at any depth of the output, is the marker |
| `Redaction.SharedObjectIsCalledCircular` | packages/observability/src/redaction.ts:117-117 | a concrete heap with sharing and no cycle whose second sight is logged as circular |
| `RedactionTrees.ShapeKeptUnlessProto` | packages/observability/src/redaction.ts:133-137 | what is logged of a tree without sharing differs from its redaction exactly when a shown record holds an own `__proto__` |
| `RedactionTrees.ApartByCount` | packages/observability/src/redaction.ts:117-118 | a drawn value has as many objects as visible positions for them exactly when no object stands at two |
| `RedactionTrees.WalkMeetsRefs` | packages/observability/src/redaction.ts:112-138 | what is met is exactly what stands at the visible positions, however often |
| `RedactionTrees.TreeKeepsItsShape` | packages/observability/src/redaction.ts:112-138 | any value that can be drawn as a tree of objects, arrays and errors is logged as its address-free redaction if and only if no object stands at two visible positions and no shown record holds an own `__proto__` |
| `RedactionTrees.SharedObjectsAreShownOnce` | packages/observability/src/redaction.ts:117-118 | short of that key each drawn object is shown exactly once, so every further sight of it is not |
| `Shutdown.Handler.NextTurn` | packages/runtime/src/shutdown.ts:109-130 | one turn of the loop: the next close begins, or the backstop is cleared and exit 0 called |
| `Shutdown.Handler.OnSignal` | packages/runtime/src/shutdown.ts:95-107 | the first signal starts the sequence and arms the backstop; later ones do nothing |
| `Shutdown.Handler.OnOutcome` | packages/runtime/src/shutdown.ts:74-89 | a close that resolves, rejects or outlasts its bound ends that wait, with a warning unless it resolved |
| `Shutdown.Handler.OnBackstop` | packages/runtime/src/shutdown.ts:103-106 | exit 1, if the backstop is still armed |
| `Shutdown.WhatCanHappen` | packages/runtime/src/shutdown.ts:74-107 | the environment: signals and late settlements at any time, settlements while awaited, each timer exactly when due and pending |
| `Shutdown.EveryStepKeepsInv` | packages/runtime/src/shutdown.ts:91-133 | attempts, clock, timers and exit codes stay in step through every event |
| `Shutdown.EveryRunIsOrderly` | packages/runtime/src/shutdown.ts:109-130 | in every run: one attempt each, in order, finished within the bounds added up, and exit 0 called exactly on finishing |
| `Shutdown.IgnoredEventsLeaveNoTrace` | packages/runtime/src/shutdown.ts:95-99 | dropping a later signal or a late settlement from a run leaves the same run |
| `Shutdown.NeverStuck` | packages/runtime/src/shutdown.ts:74-89 | while a close is awaited some timer can fire |
| `Shutdown.WarnedWhenNotClosed` | packages/runtime/src/shutdown.ts:110-126 | a wait that ends without the resource closing is warned of by its number, and no other is |
| `Shutdown.EveryWaitIsAccountedFor` | packages/runtime/src/shutdown.ts:109-126 | in every run the waits that are over are those resolved plus those warned of |
| `Shutdown.OwnBoundGoesFirst` | packages/runtime/src/shutdown.ts:36-40 | a resource's own bound goes before the default, and a bound out of the timer's range is one millisecond |
| `Shutdown.BudgetMeansCleanExit` | packages/runtime/src/shutdown.ts:41-49 | if the bounds stay below the backstop every run exits once at most, with 0 |
| `Shutdown.OverBudgetCanForceExit` | packages/runtime/src/shutdown.ts:101-107 | otherwise there is a run, everything hanging, whose first exit code is 1 |
| `Shutdown.EveryRunCanFinish` | packages/runtime/src/shutdown.ts:109-130 | every run extends to a finished one that has handed over exit code 0, and only that within budget |
| `Shutdown.ExitedInTime` | packages/runtime/src/shutdown.ts:41-49 | within budget, a run whose clock has passed the bounds added up has exited once, with 0 |
| `Shutdown.BudgetAsConfigured` | packages/runtime/src/shutdown.ts:41-61 | with every delay in the timer's range, the budget is the sum of the configured numbers against `timeoutMs` |
| `Shutdown.HugeBackstopFiresAtOnce` | packages/runtime/src/shutdown.ts:103-107 | a backstop beyond the timer's range becomes one millisecond, so a sum below it is no protection |
| `Shutdown.CleanExitIffWithinBudget` | packages/runtime/src/shutdown.ts:91-133 | every run exits cleanly if and only if there is nothing to close or the delays waited add up to less than the backstop's |
| `RentalQuote.CheapestCombination` | apps/api/src/pricing/rental-quote.ts:167-200 | the bounded search finds a cover cheapest among all covers, not only those tried, and breaks ties towards larger units |
| `RentalQuote.WeekLimitIs` | apps/api/src/pricing/rental-quote.ts:178-181 | with a weekly price, as many weeks are tried as it takes to cover what the weekends leave, and no more |
| `RentalQuote.SomeCandidateIsNoDearer` | apps/api/src/pricing/rental-quote.ts:150-166 | whatever covers the hire, some candidate the loops try costs no more |
| `RentalQuote.LongerIsNeverCheaper` | apps/api/src/pricing/rental-quote.ts:45-48 | hiring for longer never costs less, whatever the rates |
| `RentalQuote.NeverDearerThanDaily` | apps/api/src/pricing/rental-quote.ts:41-44 | never dearer than the daily total, nor than the weeks that cover the hire |
| `RentalQuote.BreakdownAddsUp` | apps/api/src/pricing/rental-quote.ts:237-254 | the line items sum to the charge and account for the days of the cover |
| `RentalQuote.LargestUnitFirst` | apps/api/src/pricing/rental-quote.ts:228-254 | the breakdown reads largest unit first and has no line for a unit not used |
| `RentalQuote.ChooseCheapestUnits` | apps/api/src/pricing/rental-quote.ts:101-113 | null exactly without a daily rate or for less than a day; otherwise the least charge, at the card's own prices, over every number of days, weeks and at most one weekend from a Friday that covers the hire, with a breakdown that adds up |

## Left out

- Database mechanics: deadlock retries, transactions, locking and the text of the constraints. Each store method is one atomic step with its guard.
- Ids, the clock and listing ownership are parameters: ids are numbers handed in by the caller, instants are integers, and a listing's owner is fixed while a run lasts.
- BookingStore.BookingTable.Write: when a row would both overlap and reuse a quote the model reports the overlap; the database does not say which it reports.
- BookingStore.BookingTable.Accept: the ids of the auto-declined are a set, because the source reads them in no stated order.
- BookingStore.BookingTable.ExpireRequests: the expired are listed oldest deadline first as the port promises; the adapter's update does not pin that order.
- BookingHistories.HistoryExplainsTheBooking: holds for callers that assert the transition before `advance` and record the created state, as the services do; the store itself checks neither.
- Order of events across different bookings: each booking carries its own history, oldest first.
- LocalTime.DayOf: real zone data and date text are replaced by any increasing midnight function and integer days; month text is replaced by consecutive non-empty windows.
- Availability.WhenBlockIsAccepted: the wording of refusals is reduced to which refusal it is.
- Money.Allocate: arithmetic is exact, so binary rounding and negative zero are not modelled; ratios are whole numbers, standing for any in the same proportion (`OnlyProportionsMatter`).
- Rounding modes, percentages and the other money operations: easy members beside `allocate`.
- Decimal.ParsersAgree: the value of `fromMajor("-0")` is zero here, where the source yields negative zero; GBP is the only currency.
- AttributeValues.ReadValue: which characters are unsafe is a parameter, unpaired surrogates have no place in the model's text, and messages are reduced to which complaint it is.
- AttributeValues.ValidateAttributeValues: stored values are a map, so the key order of the stored object is not modelled.
- AttributeValues.AttributeBlockers: the other publication blockers (description, transport, rates, owner, location) are independent one-line checks and are not modelled.
- Transport.ParseCategoryTransportOptions: a list with an out-of-range threshold or too many options is one `Malformed` answer; the wording of issues is reduced to the options they name.
- AuditTrail.AuditLog.Record: the before and after digests are not stored in the model, since neither read selects them; ids are numbers compared as numbers.
- StateDigest.CanonicalFormsDecide: covers the canonical form only; key derivation, the keyed hash, `JSON.stringify`, invalid dates and class instances other than dates are not modelled, and keys compare by code point where the source compares UTF-16 units.
- SensitiveKeys.SensitiveInAnyGuise: lower-casing is ASCII only.
- Redaction.Redact: masking inside strings is any function from text to text; getters, inherited members of an input and class instances other than errors are not modelled, and a prototype that `__proto__` puts behind an output is not part of what is logged.
- Shutdown.EveryRunIsOrderly: timers fire exactly when due and ties go either way; a busy event loop that delays a timer is not modelled.
- RentalQuote.CheapestCombination: rates are non-negative whole minor units; the platform fee, the minimum booking total and the maximum length of a hire are not modelled.
- Payments, the ledger, damage excess, listings, search, media, identity, phone and postcode parsing, environment loading, controllers, queues and the web application: not part of this model.
