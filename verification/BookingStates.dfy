/** The booking state machine: the transition table, the states that hold a
    listing's dates, and what the shape of the table promises about whole runs. */
module BookingStates {

  datatype State =
    | Draft | Abandoned | Requested | Accepted | AwaitingPayment | PaymentFailed
    | Reserved | ReadyForCollection | SecurityFailed | NoShow | Collected
    | ReturnDue | Late | ReturnedPendingConfirmation | Completed | ReviewWindow
    | Disputed | Refunded | PartiallyRefunded | Declined | Expired | Cancelled
    | Closed

  function Transitions(s: State): seq<State> {
    match s
    case Draft => [Requested, Abandoned]
    case Abandoned => []
    case Requested => [Accepted, Declined, Expired, Cancelled]
    case Accepted => [AwaitingPayment, Reserved]
    case AwaitingPayment => [Reserved, PaymentFailed, Expired]
    case PaymentFailed => [AwaitingPayment, Expired, Cancelled]
    case Reserved => [ReadyForCollection, Cancelled, Disputed]
    case ReadyForCollection => [Collected, NoShow, Cancelled, SecurityFailed]
    case SecurityFailed => [ReadyForCollection, Cancelled, Disputed]
    case NoShow => [Cancelled, Disputed, Closed]
    case Collected => [ReturnDue, ReturnedPendingConfirmation, Disputed]
    case ReturnDue => [ReturnedPendingConfirmation, Late]
    case Late => [ReturnedPendingConfirmation, Disputed]
    case ReturnedPendingConfirmation => [Completed, Disputed]
    case Completed => [ReviewWindow]
    case ReviewWindow => [Closed]
    case Disputed => [Completed, Refunded, PartiallyRefunded, Closed]
    case Refunded => [Closed]
    case PartiallyRefunded => [Closed]
    case Declined => [Closed]
    case Expired => [Closed]
    case Cancelled => [Closed]
    case Closed => []
  }

  const CALENDAR_OCCUPYING_STATES: set<State> :=
    {Accepted, AwaitingPayment, PaymentFailed, Reserved, ReadyForCollection,
     SecurityFailed, Collected, ReturnDue, Late}

  predicate OccupiesCalendar(s: State) {
    s in CALENDAR_OCCUPYING_STATES
  }

  predicate IsTerminal(s: State) {
    |Transitions(s)| == 0
  }

  predicate CanTransition(from: State, to: State) {
    to in Transitions(from)
  }

  datatype Move = Moved(state: State) | InvalidTransition(from: State, to: State)

  function AssertTransition(from: State, to: State): (m: Move)
    ensures m.Moved? <==> CanTransition(from, to)
    ensures m.Moved? ==> m.state == to
    ensures m.InvalidTransition? ==> m.from == from && m.to == to
  {
    if !CanTransition(from, to) then InvalidTransition(from, to) else Moved(to)
  }

  /** The table has one edge into the occupying set. */
  lemma OneDoorIntoTheCalendar(from: State, to: State)
    ensures CanTransition(from, to) && !OccupiesCalendar(from) && OccupiesCalendar(to)
       <==> from == Requested && to == Accepted
  {
  }

  /** The table read the other way: the states a booking can have come from. */
  function Sources(s: State): set<State> {
    match s
    case Draft => {}
    case Abandoned => {Draft}
    case Requested => {Draft}
    case Accepted => {Requested}
    case AwaitingPayment => {Accepted, PaymentFailed}
    case PaymentFailed => {AwaitingPayment}
    case Reserved => {Accepted, AwaitingPayment}
    case ReadyForCollection => {Reserved, SecurityFailed}
    case SecurityFailed => {ReadyForCollection}
    case NoShow => {ReadyForCollection}
    case Collected => {ReadyForCollection}
    case ReturnDue => {Collected}
    case Late => {ReturnDue}
    case ReturnedPendingConfirmation => {Collected, ReturnDue, Late}
    case Completed => {ReturnedPendingConfirmation, Disputed}
    case ReviewWindow => {Completed}
    case Disputed => {Reserved, SecurityFailed, NoShow, Collected, Late, ReturnedPendingConfirmation}
    case Refunded => {Disputed}
    case PartiallyRefunded => {Disputed}
    case Declined => {Requested}
    case Expired => {Requested, AwaitingPayment, PaymentFailed}
    case Cancelled => {Requested, PaymentFailed, Reserved, ReadyForCollection, SecurityFailed, NoShow}
    case Closed =>
      {NoShow, ReviewWindow, Disputed, Refunded, PartiallyRefunded, Declined, Expired, Cancelled}
  }

  lemma ExitsHaveSources(from: State, to: State)
    requires CanTransition(from, to)
    ensures from in Sources(to)
  {
  }

  predicate HasManySources(s: State) {
    s in {Disputed, Cancelled, Closed}
  }

  lemma SourcesOfClosed(from: State)
    requires from in Sources(Closed)
    ensures CanTransition(from, Closed)
  {
    var exits := Transitions(from);
    assert exits[|exits| - 1] == Closed;
  }

  lemma SourcesOfDisputed(from: State)
    requires from in Sources(Disputed)
    ensures CanTransition(from, Disputed)
  {
    var exits := Transitions(from);
    assert exits[if from == NoShow then 1 else |exits| - 1] == Disputed;
  }

  lemma SourcesOfCancelled(from: State)
    requires from in Sources(Cancelled)
    ensures CanTransition(from, Cancelled)
  {
  }

  lemma FewSourcesHaveExits(from: State, to: State)
    requires from in Sources(to) && !HasManySources(to)
    ensures CanTransition(from, to)
  {
  }

  /** A move is in a state's list of exits exactly when the state is among the target's sources. */
  lemma TableReadBackwards(from: State, to: State)
    ensures CanTransition(from, to) <==> from in Sources(to)
  {
    hide CanTransition, Sources;
    if CanTransition(from, to) { ExitsHaveSources(from, to); }
    if from in Sources(to) {
      match to
      case Closed => SourcesOfClosed(from);
      case Disputed => SourcesOfDisputed(from);
      case Cancelled => SourcesOfCancelled(from);
      case _ => FewSourcesHaveExits(from, to);
    }
  }

  // ---- Runs through the table -------------------------------------------------------------------

  ghost predicate IsRun(p: seq<State>) {
    forall i | 0 < i < |p| :: CanTransition(p[i - 1], p[i])
  }

  /** Asking for one move after another, until one is refused. */
  function Take(from: State, targets: seq<State>): Move
    decreases |targets|
  {
    if targets == [] then Moved(from)
    else
      match AssertTransition(from, targets[0])
      case Moved(s) => Take(s, targets[1..])
      case InvalidTransition(a, b) => InvalidTransition(a, b)
  }

  /** What goes through is exactly a run of the table, and ends where it was asked to. */
  lemma {:induction false} AssertedMovesAreRuns(from: State, targets: seq<State>)
    ensures Take(from, targets).Moved? <==> IsRun([from] + targets)
    ensures Take(from, targets).Moved? ==> Take(from, targets).state == ([from] + targets)[|targets|]
    decreases |targets|
  {
    hide CanTransition;
    if targets != [] {
      var rest := [targets[0]] + targets[1..];
      assert targets == rest;
      if CanTransition(from, targets[0]) {
        AssertedMovesAreRuns(targets[0], targets[1..]);
        PrependedRun(from, rest);
      } else {
        var p := [from] + targets;
        assert !CanTransition(p[1 - 1], p[1]);
      }
    }
  }

  /** A refusal names the first pair of states that is not an edge. */
  lemma {:induction false} RefusalNamesTheBadMove(from: State, targets: seq<State>) returns (i: nat)
    requires Take(from, targets).InvalidTransition?
    ensures i < |targets| && !CanTransition(([from] + targets)[i], targets[i])
    ensures Take(from, targets) == InvalidTransition(([from] + targets)[i], targets[i])
    ensures Take(from, targets[..i]).Moved?
    decreases |targets|
  {
    hide CanTransition;
    if CanTransition(from, targets[0]) {
      var k := RefusalNamesTheBadMove(targets[0], targets[1..]);
      i := k + 1;
      assert targets[..i][1..] == targets[1..][..k];
    } else {
      i := 0;
    }
  }

  lemma PrependedRun(from: State, p: seq<State>)
    requires p != [] && CanTransition(from, p[0])
    ensures IsRun([from] + p) <==> IsRun(p)
  {
    hide CanTransition;
    var q := [from] + p;
    assert forall i | 0 < i < |p| :: q[i] == p[i - 1] && q[i + 1] == p[i];
    if IsRun(q) {
      forall i | 0 < i < |p|
        ensures CanTransition(p[i - 1], p[i])
      {
        assert CanTransition(q[i + 1 - 1], q[i + 1]);
      }
    }
    if IsRun(p) {
      forall i | 0 < i < |q|
        ensures CanTransition(q[i - 1], q[i])
      {
        if i > 1 { assert CanTransition(p[i - 1 - 1], p[i - 1]); }
      }
    }
  }

  predicate IsRetry(from: State, to: State) {
    || (from == PaymentFailed && to == AwaitingPayment)
    || (from == SecurityFailed && to == ReadyForCollection)
  }

  /** The longest a booking can still go on without a retry. */
  function Rank(s: State): nat {
    match s
    case Draft => 13
    case Requested => 12
    case Accepted => 11
    case AwaitingPayment => 10
    case PaymentFailed => 9
    case Reserved => 9
    case ReadyForCollection => 8
    case SecurityFailed => 7
    case Collected => 7
    case ReturnDue => 6
    case Late => 5
    case ReturnedPendingConfirmation => 4
    case NoShow => 4
    case Disputed => 3
    case Completed => 2
    case ReviewWindow | Refunded | PartiallyRefunded | Declined | Expired | Cancelled => 1
    case Abandoned | Closed => 0
  }

  predicate BeforeCollection(s: State) {
    s in {Draft, Requested, Accepted, AwaitingPayment, PaymentFailed, Reserved, ReadyForCollection, SecurityFailed}
  }

  lemma RankFallsEarly(from: State, to: State)
    requires CanTransition(from, to) && BeforeCollection(from)
    ensures if IsRetry(from, to) then Rank(to) == Rank(from) + 1 else Rank(to) < Rank(from)
  {
  }

  lemma RankFallsLate(from: State, to: State)
    requires CanTransition(from, to) && !BeforeCollection(from)
    ensures !IsRetry(from, to) && Rank(to) < Rank(from)
  {
  }

  lemma RankFalls(from: State, to: State)
    requires CanTransition(from, to)
    ensures if IsRetry(from, to) then Rank(to) == Rank(from) + 1 else Rank(to) < Rank(from)
  {
    hide CanTransition, Rank, IsRetry;
    if BeforeCollection(from) { RankFallsEarly(from, to); } else { RankFallsLate(from, to); }
  }

  function Retries(p: seq<State>): nat {
    if |p| < 2 then 0
    else Retries(p[1..]) + if IsRetry(p[0], p[1]) then 1 else 0
  }

  /** A run from anywhere takes at most its rank in moves, plus two for every
      retry it made, less what its end could still have taken. */
  lemma {:induction false} RunBoundedByRetries(p: seq<State>)
    requires IsRun(p) && p != []
    ensures |p| - 1 + Rank(p[|p| - 1]) <= Rank(p[0]) + 2 * Retries(p)
  {
    if |p| > 1 {
      assert CanTransition(p[1 - 1], p[1]);
      RankFalls(p[0], p[1]);
      RunTail(p);
      RunBoundedByRetries(p[1..]);
    }
  }

  lemma RunTail(p: seq<State>)
    requires IsRun(p) && p != []
    ensures IsRun(p[1..])
  {
    var rest := p[1..];
    forall i | 0 < i < |rest|
      ensures CanTransition(rest[i - 1], rest[i])
    {
      assert CanTransition(p[i + 1 - 1], p[i + 1]);
    }
  }

  /** The states of the longest run, from the end: the n-th has rank n + 1. */
  function OnLongestWay(n: nat): State
    requires n <= 12
  {
    match n
    case 0 => ReviewWindow
    case 1 => Completed
    case 2 => Disputed
    case 3 => ReturnedPendingConfirmation
    case 4 => Late
    case 5 => ReturnDue
    case 6 => Collected
    case 7 => ReadyForCollection
    case 8 => Reserved
    case 9 => AwaitingPayment
    case 10 => Accepted
    case 11 => Requested
    case _ => Draft
  }

  function LongestWay(n: nat): (p: seq<State>)
    requires n <= 12
    ensures |p| == n + 2 && p[0] == OnLongestWay(n) && p[n + 1] == Closed
  {
    [OnLongestWay(n)] + if n == 0 then [Closed] else LongestWay(n - 1)
  }

  /** The bound is met: from Draft there is a run of thirteen moves with no retry. */
  lemma {:induction false} LongestWayRuns(n: nat)
    requires n <= 12
    ensures IsRun(LongestWay(n)) && Retries(LongestWay(n)) == 0
    ensures |LongestWay(n)| - 1 == Rank(OnLongestWay(n)) == n + 1
  {
    var rest := if n == 0 then [Closed] else LongestWay(n - 1);
    LongestWayEdge(n);
    if n > 0 { LongestWayRuns(n - 1); }
    ConsRun(OnLongestWay(n), rest);
  }

  lemma LongestWayEdge(n: nat)
    requires n <= 12
    ensures var next := if n == 0 then Closed else OnLongestWay(n - 1);
            CanTransition(OnLongestWay(n), next) && !IsRetry(OnLongestWay(n), next)
    ensures Rank(OnLongestWay(n)) == n + 1
  {
  }

  /** A move towards an end that is not a retry. */
  function TowardsTheEnd(s: State): (next: State)
    requires !IsTerminal(s)
    ensures CanTransition(s, next) && !IsRetry(s, next) && Rank(next) < Rank(s)
  {
    match s
    case Draft => Abandoned
    case Accepted => Reserved
    case AwaitingPayment => Expired
    case Collected | ReturnDue | Late => ReturnedPendingConfirmation
    case ReturnedPendingConfirmation => Completed
    case Completed => ReviewWindow
    case Requested | PaymentFailed | Reserved | ReadyForCollection | SecurityFailed => Cancelled
    case _ => Closed
  }

  /** Every state can reach a terminal one, and without a retry. */
  ghost function WayOut(s: State): (p: seq<State>)
    ensures p != [] && p[0] == s && IsTerminal(p[|p| - 1]) && IsRun(p) && Retries(p) == 0
    decreases Rank(s)
  {
    hide IsTerminal, CanTransition, IsRetry, Rank, TowardsTheEnd;
    if IsTerminal(s) then
      [s]
    else
      var rest := WayOut(TowardsTheEnd(s));
      ConsRun(s, rest);
      [s] + rest
  }

  lemma ConsRun(s: State, p: seq<State>)
    requires p != [] && IsRun(p) && CanTransition(s, p[0])
    ensures IsRun([s] + p)
    ensures Retries([s] + p) == Retries(p) + if IsRetry(s, p[0]) then 1 else 0
  {
    var q := [s] + p;
    assert q[1..] == p;
    forall i | 0 < i < |q|
      ensures CanTransition(q[i - 1], q[i])
    {
      if i > 1 { assert CanTransition(p[i - 1 - 1], p[i - 1]); }
    }
  }

  // ---- One stretch on the calendar --------------------------------------------------------------

  /** States a booking can be in once it has let the dates go. */
  predicate AfterCalendar(s: State) {
    !OccupiesCalendar(s) && s != Draft && s != Requested
  }

  lemma LeavingIsForGood(from: State, to: State)
    requires CanTransition(from, to)
    ensures OccupiesCalendar(from) ==> OccupiesCalendar(to) || AfterCalendar(to)
    ensures AfterCalendar(from) ==> AfterCalendar(to)
  {
  }

  lemma {:induction false} StaysAfter(p: seq<State>, i: nat, k: nat)
    requires IsRun(p) && i <= k < |p| && AfterCalendar(p[i])
    ensures AfterCalendar(p[k])
    decreases k - i
  {
    hide CanTransition;
    if i < k {
      assert CanTransition(p[i], p[i + 1]) by { assert CanTransition(p[i + 1 - 1], p[i + 1]); }
      LeavingIsForGood(p[i], p[i + 1]);
      StaysAfter(p, i + 1, k);
    }
  }

  /** The occupying states of any run are one contiguous stretch. */
  lemma {:induction false} OneStretchOnTheCalendar(p: seq<State>, i: nat, j: nat, k: nat)
    requires IsRun(p) && i <= j <= k < |p|
    requires OccupiesCalendar(p[i]) && OccupiesCalendar(p[k])
    ensures OccupiesCalendar(p[j])
    decreases j - i
  {
    if i < j {
      assert CanTransition(p[i + 1 - 1], p[i + 1]);
      LeavingIsForGood(p[i], p[i + 1]);
      if AfterCalendar(p[i + 1]) {
        StaysAfter(p, i + 1, k);
        assert false;
      }
      OneStretchOnTheCalendar(p, i + 1, j, k);
    }
  }

  // ---- Which states those are -------------------------------------------------------------------

  ghost predicate Leads(p: seq<State>, from: State, to: State) {
    p != [] && IsRun(p) && p[0] == from && p[|p| - 1] == to
  }

  /** How an occupying state is come by. */
  function Before(s: State): State {
    match s
    case AwaitingPayment | Reserved => Accepted
    case PaymentFailed => AwaitingPayment
    case ReadyForCollection => Reserved
    case SecurityFailed | Collected => ReadyForCollection
    case ReturnDue => Collected
    case _ => ReturnDue
  }

  lemma BeforeIsHeldToo(s: State)
    requires OccupiesCalendar(s) && s != Accepted
    ensures CanTransition(Before(s), s) && OccupiesCalendar(Before(s)) && Rank(s) < Rank(Before(s)) <= 11
  {
  }

  lemma {:induction false} ReachedFromAccepted(s: State) returns (p: seq<State>)
    requires OccupiesCalendar(s)
    ensures Leads(p, Accepted, s)
    decreases 13 - Rank(s)
  {
    hide CanTransition, OccupiesCalendar;
    if s == Accepted {
      p := [s];
    } else {
      BeforeIsHeldToo(s);
      var q := ReachedFromAccepted(Before(s));
      p := q + [s];
      forall i | 0 < i < |p|
        ensures CanTransition(p[i - 1], p[i])
      {
        if i < |q| { assert CanTransition(q[i - 1], q[i]); }
      }
    }
  }

  /** The way from an occupying state to the item coming back. */
  function Onwards(s: State): State {
    match s
    case Accepted | AwaitingPayment => Reserved
    case PaymentFailed => AwaitingPayment
    case Reserved | SecurityFailed => ReadyForCollection
    case ReadyForCollection => Collected
    case _ => ReturnedPendingConfirmation
  }

  /** How many moves that way takes. */
  function Distance(s: State): nat {
    match s
    case PaymentFailed => 5
    case Accepted | AwaitingPayment => 4
    case Reserved | SecurityFailed => 3
    case ReadyForCollection => 2
    case _ => 1
  }

  lemma OnwardsIsAMove(s: State)
    requires OccupiesCalendar(s)
    ensures CanTransition(s, Onwards(s))
    ensures if Distance(s) == 1 then Onwards(s) == ReturnedPendingConfirmation
            else OccupiesCalendar(Onwards(s)) && Distance(Onwards(s)) == Distance(s) - 1
  {
  }

  lemma {:induction false} LeadsToReturn(s: State) returns (p: seq<State>)
    requires OccupiesCalendar(s)
    ensures Leads(p, s, ReturnedPendingConfirmation) && |p| > 1
    decreases Distance(s)
  {
    hide CanTransition, OccupiesCalendar;
    OnwardsIsAMove(s);
    var q := [ReturnedPendingConfirmation];
    if Distance(s) > 1 { q := LeadsToReturn(Onwards(s)); }
    PrependedRun(s, q);
    p := [s] + q;
  }

  /** After an acceptance a booking is holding its dates or past holding them. */
  lemma {:induction false} HoldingOrPast(p: seq<State>, i: nat)
    requires IsRun(p) && i < |p| && p[0] == Accepted
    ensures OccupiesCalendar(p[i]) || AfterCalendar(p[i])
  {
    hide CanTransition;
    if i > 0 {
      HoldingOrPast(p, i - 1);
      assert CanTransition(p[i - 1], p[i]);
      LeavingIsForGood(p[i - 1], p[i]);
    }
  }

  lemma BeforeTheReturn(s: State)
    requires CanTransition(s, ReturnedPendingConfirmation)
    ensures OccupiesCalendar(s)
  {
  }

  /** The occupying states are exactly those an accepted booking can be in with the return still ahead of it. */
  lemma OccupyingBetweenAcceptanceAndReturn(s: State)
    ensures OccupiesCalendar(s)
       <==> && (exists p :: Leads(p, Accepted, s))
            && (exists p :: Leads(p, s, ReturnedPendingConfirmation) && |p| > 1)
  {
    if OccupiesCalendar(s) {
      var p := ReachedFromAccepted(s);
      var q := LeadsToReturn(s);
    } else if (exists p :: Leads(p, Accepted, s)) && exists p :: Leads(p, s, ReturnedPendingConfirmation) && |p| > 1 {
      var p :| Leads(p, Accepted, s);
      var q :| Leads(q, s, ReturnedPendingConfirmation) && |q| > 1;
      hide CanTransition, OccupiesCalendar;
      HoldingOrPast(p, |p| - 1);
      StaysAfter(q, 0, |q| - 2);
      assert CanTransition(q[|q| - 1 - 1], q[|q| - 1]);
      BeforeTheReturn(q[|q| - 2]);
    }
  }

  // ---- Visiting a state twice -------------------------------------------------------------------

  predicate InRetryLoop(s: State) {
    s in {AwaitingPayment, PaymentFailed, ReadyForCollection, SecurityFailed}
  }

  /** The rank with each retry loop folded to one level. */
  function Level(s: State): nat {
    match s
    case PaymentFailed => 10
    case SecurityFailed => 8
    case _ => Rank(s)
  }

  /** Each failure can only come from the state whose loop it closes. */
  lemma IntoFailure(from: State, to: State)
    requires CanTransition(from, to)
    ensures to == PaymentFailed ==> from == AwaitingPayment
    ensures to == SecurityFailed ==> from == ReadyForCollection
  {
  }

  lemma RanksInTheLoops()
    ensures Rank(PaymentFailed) < Rank(AwaitingPayment) == Level(PaymentFailed)
    ensures Rank(SecurityFailed) < Rank(ReadyForCollection) == Level(SecurityFailed)
  {
  }

  lemma LevelNeverRises(from: State, to: State)
    requires CanTransition(from, to)
    ensures Level(to) <= Level(from)
    ensures Level(to) == Level(from) ==> InRetryLoop(from) && InRetryLoop(to)
  {
    hide CanTransition, Rank;
    IntoFailure(from, to);
    RanksInTheLoops();
    if !IsRetry(from, to) { RankFalls(from, to); }
  }

  lemma {:induction false} LevelAlongRun(p: seq<State>, i: nat, j: nat)
    requires IsRun(p) && i <= j < |p|
    ensures Level(p[j]) <= Level(p[i])
    decreases j - i
  {
    hide CanTransition, Level;
    if i < j {
      LevelAlongRun(p, i, j - 1);
      assert CanTransition(p[j - 1], p[j]);
      LevelNeverRises(p[j - 1], p[j]);
    }
  }

  /** Outside the two retry loops no run visits a state twice. */
  lemma VisitedOnce(p: seq<State>, i: nat, j: nat)
    requires IsRun(p) && i < j < |p| && p[i] == p[j]
    ensures InRetryLoop(p[i])
  {
    hide CanTransition, Level;
    assert CanTransition(p[i + 1 - 1], p[i + 1]);
    LevelNeverRises(p[i], p[i + 1]);
    LevelAlongRun(p, i + 1, j);
  }
}
