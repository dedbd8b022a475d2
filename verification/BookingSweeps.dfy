/** Draining the backlog of overdue requests. */
module BookingSweeps {
  import opened Basics
  import opened BookingStates
  import opened BookingStore
  import opened BookingRuns
  import opened Ordering

  /** What a sweep changes: exactly its batch, each an overdue request, each moved
      to `Expired` with one event that names no actor. */
  lemma SweepChangesItsBatch(t: Table, now: Instant, limit: nat, o: Id)
    requires o in t
    ensures var t' := SweepStep(t, now, limit).table;
            var taken := Key(t[o].booking.requestExpiresAt, o) in Batch(t, now, limit);
            && t'.Keys == t.Keys
            && t'[o] == (if taken then WithState(t[o], StateChanged, Expired, None) else t[o])
            && (taken ==> IsOverdue(t[o].booking, now))
  {
    if !IsOverdue(t[o].booking, now) {
      SweepTakesOnlyOverdue(t, now, limit, o);
      var all := Ordered(OverdueKeys(t, now));
      assert forall k | k in Batch(t, now, limit) :: k in Elements(all);
    }
  }

  /** The backlog loses exactly the batch. */
  lemma BacklogLosesTheBatch(t: Table, now: Instant, limit: nat)
    ensures var t' := SweepStep(t, now, limit).table;
            var batch := Batch(t, now, limit);
            && Elements(batch) <= OverdueKeys(t, now)
            && OverdueKeys(t', now) == OverdueKeys(t, now) - Elements(batch)
            && |OverdueKeys(t', now)| == |OverdueKeys(t, now)| - |batch|
            && Ordered(OverdueKeys(t', now)) == Ordered(OverdueKeys(t, now))[|batch|..]
  {
    var backlog := OverdueKeys(t, now);
    var n := AtMost(limit, |backlog|);
    OrderedRest(backlog, n);
    ExpiredAreNotOverdue(t, Elements(Batch(t, now, limit)), now);
    var left := backlog - Elements(Ordered(backlog)[..n]);
    assert |Ordered(left)| == |left|;
  }

  lemma ExpiredAreNotOverdue(t: Table, keys: set<Key>, now: Instant)
    ensures OverdueKeys(Expire(t, keys), now) == OverdueKeys(t, now) - keys
  {
    var t' := Expire(t, keys);
    forall o | o in t
      ensures IsOverdue(t'[o].booking, now)
         <==> IsOverdue(t[o].booking, now) && Key(t[o].booking.requestExpiresAt, o) !in keys
      ensures t'[o].booking.requestExpiresAt == t[o].booking.requestExpiresAt
    {
    }
    forall k | k in OverdueKeys(t, now) - keys
      ensures k in OverdueKeys(t', now)
    {
      assert k == Key(t'[k.minor].booking.requestExpiresAt, k.minor);
    }
    forall k | k in OverdueKeys(t', now)
      ensures k in OverdueKeys(t, now) - keys
    {
      assert k == Key(t[k.minor].booking.requestExpiresAt, k.minor);
    }
  }

  /** A bound not reached means nothing is left, unless the bound was zero. */
  lemma NotReachedMeansDrained(t: Table, now: Instant, limit: nat)
    ensures var step := SweepStep(t, now, limit);
            !step.outcome.value.reachedLimit ==>
              (OverdueKeys(step.table, now) == {} <==> limit > 0 || OverdueKeys(t, now) == {})
  {
    BacklogLosesTheBatch(t, now, limit);
  }

  // ---- In terms of the rows ---------------------------------------------------------------------

  /** The ids of the requests whose deadline has come. */
  ghost function Waiting(t: Table, now: Instant): set<Id> {
    set o | o in t && t[o].booking.state == Requested && t[o].booking.requestExpiresAt <= now
  }

  ghost function DeadlineKeys(t: Table, ids: set<Id>): set<Key>
    requires ids <= t.Keys
  {
    set o | o in ids :: Key(t[o].booking.requestExpiresAt, o)
  }

  lemma {:induction false} DeadlinesCount(t: Table, ids: set<Id>)
    requires ids <= t.Keys
    ensures |DeadlineKeys(t, ids)| == |ids|
    decreases ids
  {
    if ids == {} {
      assert DeadlineKeys(t, ids) == {};
    } else {
      var x :| x in ids;
      DeadlinesCount(t, ids - {x});
      assert DeadlineKeys(t, ids) == DeadlineKeys(t, ids - {x}) + {Key(t[x].booking.requestExpiresAt, x)};
    }
  }

  lemma BacklogIsWaiting(t: Table, now: Instant)
    ensures |OverdueKeys(t, now)| == |Waiting(t, now)|
    ensures forall o | o in t :: Key(t[o].booking.requestExpiresAt, o) in OverdueKeys(t, now) <==> o in Waiting(t, now)
  {
    assert OverdueKeys(t, now) == DeadlineKeys(t, Waiting(t, now));
    DeadlinesCount(t, Waiting(t, now));
  }

  /** A row is changed only if it was a request whose deadline had come, and then to this. */
  lemma WhatASweepDoes(t: Table, now: Instant, limit: nat, o: Id)
    requires o in t
    ensures var t' := SweepStep(t, now, limit).table;
            && t'.Keys == t.Keys
            && (t'[o] != t[o] ==>
                  && t[o].booking.state == Requested && t[o].booking.requestExpiresAt <= now
                  && t'[o] == Row(t[o].booking.(state := Expired),
                                  t[o].events + [Event(StateChanged, Some(Requested), Some(Expired), None)]))
  {
    SweepChangesItsBatch(t, now, limit, o);
  }

  /** The rows it reports, in the order of their deadlines, are the rows it changed. */
  lemma WhatASweepReports(t: Table, now: Instant, limit: nat)
    ensures var step := SweepStep(t, now, limit);
            && (forall o | o in t :: step.table[o] != t[o]
                  <==> Key(t[o].booking.requestExpiresAt, o) in step.outcome.value.expired)
            && (forall k | k in step.outcome.value.expired ::
                  k.minor in t && k.major == t[k.minor].booking.requestExpiresAt)
            && Ascending(step.outcome.value.expired)
  {
    var step := SweepStep(t, now, limit);
    var backlog := OverdueKeys(t, now);
    CutListing(Ordered(backlog), AtMost(limit, |backlog|));
    forall o | o in t
      ensures step.table[o] != t[o] <==> Key(t[o].booking.requestExpiresAt, o) in Batch(t, now, limit)
    {
      SweepChangesItsBatch(t, now, limit, o);
      assert |WithState(t[o], StateChanged, Expired, None).events| > |t[o].events|;
    }
    forall k | k in Batch(t, now, limit)
      ensures k in backlog
    {
      assert k in Elements(Ordered(backlog));
    }
  }

  /** None left waiting has an earlier deadline than one that was taken. */
  lemma OldestFirst(t: Table, now: Instant, limit: nat, o: Id, p: Id)
    requires var t' := SweepStep(t, now, limit).table;
             o in t && p in t && t'[o] != t[o] && t'[p] == t[p]
    requires t[p].booking.state == Requested && t[p].booking.requestExpiresAt <= now
    ensures t[o].booking.requestExpiresAt <= t[p].booking.requestExpiresAt
    ensures t[o].booking.requestExpiresAt == t[p].booking.requestExpiresAt ==> o < p
  {
    var backlog := OverdueKeys(t, now);
    var n := AtMost(limit, |backlog|);
    var ko, kp := Key(t[o].booking.requestExpiresAt, o), Key(t[p].booking.requestExpiresAt, p);
    WhatASweepReports(t, now, limit);
    BacklogIsWaiting(t, now);
    hide SweepStep, OverdueKeys, Ordered, Ascending;
    CutSeparates(backlog, n, ko, kp);
  }

  /** The flag is up exactly when a positive limit was filled; down, it means nothing is left waiting. */
  lemma WhenTheLimitIsReached(t: Table, now: Instant, limit: nat)
    ensures var step := SweepStep(t, now, limit);
            && step.outcome.Done?
            && (step.outcome.value.reachedLimit <==> 0 < limit <= |Waiting(t, now)|)
            && |step.outcome.value.expired| == AtMost(limit, |Waiting(t, now)|)
            && (!step.outcome.value.reachedLimit && limit > 0 ==> Waiting(step.table, now) == {})
  {
    BacklogIsWaiting(t, now);
    var step := SweepStep(t, now, limit);
    BacklogIsWaiting(step.table, now);
    hide OverdueKeys, Ordered;
    NotReachedMeansDrained(t, now, limit);
  }

  // ---- Sweeping again and again -----------------------------------------------------------------

  ghost function SweepTimes(t: Table, now: Instant, limit: nat, k: nat): Table {
    if k == 0 then t else SweepTimes(SweepStep(t, now, limit).table, now, limit, k - 1)
  }

  /** The batches of `k` sweeps, one after another. */
  ghost function Batches(t: Table, now: Instant, limit: nat, k: nat): seq<Key> {
    if k == 0 then []
    else Batch(t, now, limit) + Batches(SweepStep(t, now, limit).table, now, limit, k - 1)
  }

  /** The backlog, oldest deadline first. */
  ghost function InOrder(t: Table, now: Instant): seq<Key> {
    Ordered(OverdueKeys(t, now))
  }

  lemma OneSweep(t: Table, now: Instant, limit: nat)
    ensures var first := AtMost(limit, |InOrder(t, now)|);
            && Batch(t, now, limit) == InOrder(t, now)[..first]
            && InOrder(SweepStep(t, now, limit).table, now) == InOrder(t, now)[first..]
  {
    BacklogLosesTheBatch(t, now, limit);
  }

  /** What `k` sweeps may take between them. */
  function Budget(k: nat, limit: nat): nat {
    if k == 0 then 0 else limit + Budget(k - 1, limit)
  }

  lemma {:induction false} BudgetIsProduct(k: nat, limit: nat)
    ensures Budget(k, limit) == k * limit
  {
    if k > 0 {
      BudgetIsProduct(k - 1, limit);
      Distribute(limit, k - 1, 1);
    }
  }

  /** Together the batches are the backlog in order of deadline, cut where the
      sweeps stopped: no request is taken twice and none is overtaken. */
  lemma {:induction false} SweepsDrainInOrder(t: Table, now: Instant, limit: nat, k: nat)
    ensures var done := AtMost(Budget(k, limit), |InOrder(t, now)|);
            && Batches(t, now, limit, k) == InOrder(t, now)[..done]
            && InOrder(SweepTimes(t, now, limit, k), now) == InOrder(t, now)[done..]
    decreases k
  {
    hide InOrder, SweepStep, Batch;
    var all := InOrder(t, now);
    if k == 0 {
      assert all[..0] == [] && all[0..] == all;
    } else {
      FirstOfMany(t, now, limit, k);
      hide Batches, SweepTimes, Budget, AtMost;
      OneSweep(t, now, limit);
      SweepsDrainInOrder(SweepStep(t, now, limit).table, now, limit, k - 1);
      JoinCuts(all, limit, Budget(k - 1, limit));
    }
  }

  lemma FirstOfMany(t: Table, now: Instant, limit: nat, k: nat)
    requires k > 0
    ensures var t' := SweepStep(t, now, limit).table;
            && Budget(k, limit) == limit + Budget(k - 1, limit)
            && Batches(t, now, limit, k) == Batch(t, now, limit) + Batches(t', now, limit, k - 1)
            && SweepTimes(t, now, limit, k) == SweepTimes(t', now, limit, k - 1)
  {
    hide SweepStep, Batch;
  }

  /** Cutting n off and then m is cutting n + m off. */
  lemma JoinCuts(all: seq<Key>, n: nat, m: nat)
    ensures var first := AtMost(n, |all|);
            var rest := all[first..];
            var later, done := AtMost(m, |rest|), AtMost(n + m, |all|);
            && all[..first] + rest[..later] == all[..done]
            && rest[later..] == all[done..]
  {
  }

  /** Enough sweeps leave no overdue request at all. */
  lemma EnoughSweepsDrain(t: Table, now: Instant, limit: nat, k: nat)
    requires |InOrder(t, now)| <= k * limit
    ensures OverdueKeys(SweepTimes(t, now, limit, k), now) == {}
    ensures Batches(t, now, limit, k) == InOrder(t, now)
  {
    SweepsDrainInOrder(t, now, limit, k);
    BudgetIsProduct(k, limit);
    assert |InOrder(SweepTimes(t, now, limit, k), now)| == 0;
  }

  // ---- Sweeping while others work ---------------------------------------------------------------

  /** The step puts a request on the table whose deadline has already passed: a new one, or a
      draft turned into one. */
  ghost predicate AddsOverdue(owners: Owners, t: Table, op: Op, now: Instant) {
    match op
    case Create(id, b) => InsertStep(t, owners, id, b, None).outcome.Done? && IsOverdue(b, now)
    case CreateWithEvent(id, b, first) =>
      InsertStep(t, owners, id, b, Some(first)).outcome.Done? && IsOverdue(b, now)
    case Advance(id, from, to, actor) =>
      && AdvanceStep(t, id, from, to, actor).outcome.Done?
      && from != Requested && IsOverdue(t[id].booking.(state := to), now)
    case _ => false
  }

  /** Where the overdue requests are, by id. */
  lemma OverdueById(t: Table, t': Table, now: Instant)
    requires Follows(t, t')
    requires forall o | o in t' && IsOverdue(t'[o].booking, now) :: o in t && IsOverdue(t[o].booking, now)
    ensures OverdueKeys(t', now) <= OverdueKeys(t, now)
  {
  }

  lemma NewlyOverdue(t: Table, t': Table, now: Instant, o: Id)
    requires o in t' && IsOverdue(t'[o].booking, now) && !(o in t && IsOverdue(t[o].booking, now))
    ensures !(OverdueKeys(t', now) <= OverdueKeys(t, now))
  {
    assert Key(t'[o].booking.requestExpiresAt, o) in OverdueKeys(t', now);
  }

  lemma OnlyMovesAway(owners: Owners, t: Table, op: Op, now: Instant)
    requires op.Accept? || op.Decline? || op.SweepExpired?
    ensures OverdueKeys(Apply(owners, t, op), now) <= OverdueKeys(t, now)
  {
    var t' := Apply(owners, t, op);
    EveryStepFollows(owners, t, op);
    forall o | o in t' && IsOverdue(t'[o].booking, now)
      ensures o in t && IsOverdue(t[o].booking, now)
    {
    }
    hide Apply, AcceptStep, DeclineStep, SweepStep;
    OverdueById(t, t', now);
  }

  lemma InsertAdds(owners: Owners, t: Table, op: Op, now: Instant)
    requires op.Create? || op.CreateWithEvent?
    ensures OverdueKeys(Apply(owners, t, op), now) <= OverdueKeys(t, now) <==> !AddsOverdue(owners, t, op, now)
  {
    var t' := Apply(owners, t, op);
    EveryStepFollows(owners, t, op);
    if AddsOverdue(owners, t, op, now) {
      NewlyOverdue(t, t', now, op.id);
    } else {
      OverdueById(t, t', now);
    }
  }

  lemma AdvanceAdds(owners: Owners, t: Table, op: Op, now: Instant)
    requires op.Advance?
    ensures OverdueKeys(Apply(owners, t, op), now) <= OverdueKeys(t, now) <==> !AddsOverdue(owners, t, op, now)
  {
    var t' := Apply(owners, t, op);
    EveryStepFollows(owners, t, op);
    if AddsOverdue(owners, t, op, now) {
      NewlyOverdue(t, t', now, op.id);
    } else {
      OverdueById(t, t', now);
    }
  }

  /** The backlog gains nothing from a step exactly when the step adds no overdue request. */
  lemma WhenTheBacklogGrows(owners: Owners, t: Table, op: Op, now: Instant)
    ensures OverdueKeys(Apply(owners, t, op), now) <= OverdueKeys(t, now) <==> !AddsOverdue(owners, t, op, now)
  {
    match op
    case Create(_, _) | CreateWithEvent(_, _, _) => InsertAdds(owners, t, op, now);
    case Advance(_, _, _, _) => AdvanceAdds(owners, t, op, now);
    case _ => OnlyMovesAway(owners, t, op, now);
  }

  ghost function RunFrom(owners: Owners, t: Table, ops: seq<Op>): Table
    decreases |ops|
  {
    if ops == [] then t else RunFrom(owners, Apply(owners, t, ops[0]), ops[1..])
  }

  /** No step of the run adds an overdue request where it stands. */
  ghost predicate AddsNone(owners: Owners, t: Table, ops: seq<Op>, now: Instant)
    decreases |ops|
  {
    ops == []
    || (!AddsOverdue(owners, t, ops[0], now) && AddsNone(owners, Apply(owners, t, ops[0]), ops[1..], now))
  }

  predicate IsSweep(op: Op, now: Instant, limit: nat) {
    op.SweepExpired? && op.now == now && op.limit == limit
  }

  /** What those sweeps among the steps may take between them. */
  function Allowance(ops: seq<Op>, now: Instant, limit: nat): nat {
    if ops == [] then 0
    else Allowance(ops[1..], now, limit) + if IsSweep(ops[0], now, limit) then limit else 0
  }

  /** Whatever other clients do between the sweeps, short of adding overdue requests, the backlog
      falls by every sweep's share until it is gone. */
  lemma {:induction false} SweepsDrainAmongOthers(
    owners: Owners, t: Table, ops: seq<Op>, now: Instant, limit: nat)
    requires AddsNone(owners, t, ops, now)
    ensures OverdueKeys(RunFrom(owners, t, ops), now) <= OverdueKeys(t, now)
    ensures var left := |OverdueKeys(RunFrom(owners, t, ops), now)|;
            left == 0 || left + Allowance(ops, now, limit) <= |OverdueKeys(t, now)|
    decreases |ops|
  {
    if ops != [] {
      FirstOfRun(owners, t, ops, now, limit);
      hide *;
      var t' := Apply(owners, t, ops[0]);
      WhenTheBacklogGrows(owners, t, ops[0], now);
      Cardinality(OverdueKeys(t', now), OverdueKeys(t, now));
      if IsSweep(ops[0], now, limit) { SweepTakesItsShare(owners, t, ops[0], now, limit); }
      SweepsDrainAmongOthers(owners, t', ops[1..], now, limit);
    }
  }

  lemma FirstOfRun(owners: Owners, t: Table, ops: seq<Op>, now: Instant, limit: nat)
    requires ops != [] && AddsNone(owners, t, ops, now)
    ensures var t' := Apply(owners, t, ops[0]);
            && !AddsOverdue(owners, t, ops[0], now) && AddsNone(owners, t', ops[1..], now)
            && RunFrom(owners, t, ops) == RunFrom(owners, t', ops[1..])
            && Allowance(ops, now, limit)
               == Allowance(ops[1..], now, limit) + if IsSweep(ops[0], now, limit) then limit else 0
  {
    hide Apply, AddsOverdue, IsSweep;
  }

  lemma SweepTakesItsShare(owners: Owners, t: Table, op: Op, now: Instant, limit: nat)
    requires IsSweep(op, now, limit)
    ensures var left := |OverdueKeys(Apply(owners, t, op), now)|;
            left == 0 || left + limit <= |OverdueKeys(t, now)|
  {
    hide OverdueKeys, Ordered, Elements, SweepStep;
    BacklogLosesTheBatch(t, now, limit);
    assert |Batch(t, now, limit)| == AtMost(limit, |OverdueKeys(t, now)|);
  }
}
