/** How an item travels: the options a category offers, and the one its weight suggests. */
module Transport {
  import opened Basics
  import opened Ordering
  import opened Decimal
  import AttributeValues

  datatype Requirement = HandCarryable | CarBoot | EstateOrHatchback | VanRequired | TrailerRequired

  function Rank(r: Requirement): nat {
    match r
    case HandCarryable => 0
    case CarBoot => 1
    case EstateOrHatchback => 2
    case VanRequired => 3
    case TrailerRequired => 4
  }

  /** Least demanding first. */
  const DISPLAY_ORDER := [HandCarryable, CarBoot, EstateOrHatchback, VanRequired, TrailerRequired]

  lemma RankIsPosition(r: Requirement)
    ensures Rank(r) < |DISPLAY_ORDER| && DISPLAY_ORDER[Rank(r)] == r
  {
  }

  const REQUIREMENTS := 5
  const MIN_KG := 1
  const MAX_KG := 2000

  /** One option a category offers, and the weight it is suggested up to, if any. */
  datatype Offer = Offer(requirement: Requirement, upToKg: Option<int>)

  datatype Issue = OfferedTwice(requirement: Requirement) | NotMoreThan(lighter: Offer, heavier: Offer)

  datatype Parsed = Options(options: seq<Offer>) | Malformed | Refused(issues: seq<Issue>)

  predicate InBounds(o: Offer) {
    o.upToKg.Some? ==> MIN_KG <= o.upToKg.value <= MAX_KG
  }

  // ---- Display order ----------------------------------------------------------------------------

  function RankKeys(offers: seq<Offer>): (keys: seq<Key>)
    ensures |keys| == |offers|
  {
    seq(|offers|, i requires 0 <= i < |offers| => Key(Rank(offers[i].requirement), i))
  }

  lemma {:induction false} RankKeysAreDistinct(offers: seq<Offer>)
    ensures |Elements(RankKeys(offers))| == |offers|
  {
    if offers != [] {
      var n := |offers| - 1;
      var keys, front := RankKeys(offers), RankKeys(offers[..n]);
      RankKeysAreDistinct(offers[..n]);
      assert keys == front + [keys[n]];
      ElementsOfConcat(front, [keys[n]]);
      assert keys[n] !in front;
      assert Elements([keys[n]]) == {keys[n]};
    }
  }

  lemma SortedKeysAreIndices(offers: seq<Offer>, i: nat)
    requires i < |offers|
    ensures var k := Sort(RankKeys(offers))[i];
            0 <= k.minor < |offers| && k.major == Rank(offers[k.minor].requirement)
  {
    var keys := Sort(RankKeys(offers));
    assert keys[i] in Elements(keys);
    assert keys[i] in RankKeys(offers);
  }

  /** A stable sort into display order. */
  function InDisplayOrder(offers: seq<Offer>): (sorted: seq<Offer>)
    ensures |sorted| == |offers|
  {
    var keys := Sort(RankKeys(offers));
    seq(|offers|, i requires 0 <= i < |offers| => SortedKeysAreIndices(offers, i); offers[keys[i].minor])
  }

  lemma DisplayOrderHolds(offers: seq<Offer>, o: Offer)
    ensures o in InDisplayOrder(offers) <==> o in offers
  {
    var sorted, keys := InDisplayOrder(offers), Sort(RankKeys(offers));
    if o in sorted {
      var i :| 0 <= i < |sorted| && sorted[i] == o;
      SortedKeysAreIndices(offers, i);
    }
    if o in offers {
      var j :| 0 <= j < |offers| && offers[j] == o;
      var k := RankKeys(offers)[j];
      assert k in Elements(RankKeys(offers));
      assert k in keys;
      var i :| 0 <= i < |keys| && keys[i] == k;
      assert sorted[i] == o;
    }
  }

  // ---- Checking a configuration -----------------------------------------------------------------

  /** Requirements already offered further up the list. */
  function Repeats(offers: seq<Offer>): seq<Issue> {
    if offers == [] then []
    else
      var n := |offers| - 1;
      Repeats(offers[..n])
      + if exists i | 0 <= i < n :: offers[i].requirement == offers[n].requirement
        then [OfferedTwice(offers[n].requirement)] else []
  }

  /** The last option with a threshold. */
  function LastThreshold(sorted: seq<Offer>): (o: Option<Offer>)
    ensures o.Some? ==> o.value in sorted && o.value.upToKg.Some?
    ensures o.None? ==> forall x | x in sorted :: x.upToKg.None?
  {
    if sorted == [] then None
    else if sorted[|sorted| - 1].upToKg.Some? then Some(sorted[|sorted| - 1])
    else LastThreshold(sorted[..|sorted| - 1])
  }

  predicate NotMore(previous: Option<Offer>, o: Offer)
    requires previous.Some? ==> previous.value.upToKg.Some?
    requires o.upToKg.Some?
  {
    previous.Some? && o.upToKg.value <= previous.value.upToKg.value
  }

  function Falls(sorted: seq<Offer>): seq<Issue> {
    if sorted == [] then []
    else
      var n := |sorted| - 1;
      var o, previous := sorted[n], LastThreshold(sorted[..n]);
      Falls(sorted[..n])
      + if o.upToKg.Some? && NotMore(previous, o) then [NotMoreThan(previous.value, o)] else []
  }

  function ParseOffers(offers: seq<Offer>): Parsed {
    if |offers| > REQUIREMENTS || exists i | 0 <= i < |offers| :: !InBounds(offers[i]) then Malformed
    else
      var issues := Repeats(offers) + Falls(InDisplayOrder(offers));
      if issues != [] then Refused(issues) else Options(InDisplayOrder(offers))
  }

  method FindRepeats(offers: seq<Offer>) returns (issues: seq<Issue>)
    ensures issues == Repeats(offers)
  {
    issues := [];
    var seen: set<Requirement> := {};
    for i := 0 to |offers|
      invariant forall r :: r in seen <==> exists j | 0 <= j < i :: offers[j].requirement == r
      invariant issues == Repeats(offers[..i])
    {
      assert offers[..i + 1][..i] == offers[..i];
      if offers[i].requirement in seen { issues := issues + [OfferedTwice(offers[i].requirement)]; }
      seen := seen + {offers[i].requirement};
    }
    assert offers[..|offers|] == offers;
  }

  method FindFalls(ordered: seq<Offer>) returns (issues: seq<Issue>)
    ensures issues == Falls(ordered)
  {
    issues := [];
    var previous: Option<Offer> := None;
    for i := 0 to |ordered|
      invariant previous == LastThreshold(ordered[..i])
      invariant issues == Falls(ordered[..i])
    {
      assert ordered[..i + 1][..i] == ordered[..i];
      if ordered[i].upToKg.None? { continue; }
      if NotMore(previous, ordered[i]) { issues := issues + [NotMoreThan(previous.value, ordered[i])]; }
      previous := Some(ordered[i]);
    }
    assert ordered[..|ordered|] == ordered;
  }

  method ParseCategoryTransportOptions(offers: seq<Offer>) returns (parsed: Parsed)
    ensures parsed == ParseOffers(offers)
  {
    if |offers| > REQUIREMENTS || exists i | 0 <= i < |offers| :: !InBounds(offers[i]) { return Malformed; }
    var ordered := InDisplayOrder(offers);
    hide InDisplayOrder;
    var repeats := FindRepeats(offers);
    var falls := FindFalls(ordered);
    return if repeats + falls != [] then Refused(repeats + falls) else Options(ordered);
  }

  // ---- What a parsed configuration is -----------------------------------------------------------

  /** Display order, each requirement once, thresholds rising. */
  ghost predicate Ladder(xs: seq<Offer>) {
    forall i, j | 0 <= i < j < |xs| ::
      && Rank(xs[i].requirement) < Rank(xs[j].requirement)
      && (xs[i].upToKg.Some? && xs[j].upToKg.Some? ==> xs[i].upToKg.value < xs[j].upToKg.value)
  }

  ghost function Requirements(offers: seq<Offer>): set<Requirement> {
    set i | 0 <= i < |offers| :: offers[i].requirement
  }

  /** The same, said of the options in whatever order they were submitted. */
  ghost predicate Acceptable(offers: seq<Offer>) {
    && |offers| <= 5
    && (forall o | o in offers && o.upToKg.Some? :: 1 <= o.upToKg.value <= 2000)
    && |Requirements(offers)| == |offers|
    && (forall a, b | a in offers && b in offers :: Consistent(a, b))
  }

  ghost predicate Consistent(a: Offer, b: Offer) {
    Rank(a.requirement) < Rank(b.requirement) && a.upToKg.Some? && b.upToKg.Some?
    ==> a.upToKg.value < b.upToKg.value
  }

  ghost predicate Distinct(offers: seq<Offer>) {
    forall i, j | 0 <= i < j < |offers| :: offers[i].requirement != offers[j].requirement
  }

  lemma OneMoreRequirement(front: seq<Offer>, o: Offer)
    ensures Requirements(front + [o]) == Requirements(front) + {o.requirement}
  {
    var offers := front + [o];
    assert offers[|front|] == o;
    assert forall i | 0 <= i < |front| :: offers[i] == front[i];
  }

  lemma DistinctOfLonger(front: seq<Offer>, o: Offer)
    ensures Distinct(front + [o]) <==> Distinct(front) && o.requirement !in Requirements(front)
  {
    var offers := front + [o];
    assert offers[|front|] == o;
    assert forall i | 0 <= i < |front| :: offers[i] == front[i];
  }

  lemma {:induction false} DistinctByCount(offers: seq<Offer>)
    ensures |Requirements(offers)| <= |offers|
    ensures Distinct(offers) <==> |Requirements(offers)| == |offers|
  {
    if offers != [] {
      var n := |offers| - 1;
      var front, r := offers[..n], offers[n].requirement;
      DistinctByCount(front);
      OneMoreRequirement(front, offers[n]);
      DistinctOfLonger(front, offers[n]);
      assert offers == front + [offers[n]];
      hide Requirements, Distinct;
    }
  }

  lemma {:induction false} NoRepeats(offers: seq<Offer>)
    ensures Repeats(offers) == [] <==> Distinct(offers)
  {
    if offers != [] { NoRepeats(offers[..|offers| - 1]); }
  }

  ghost predicate Rising(sorted: seq<Offer>) {
    forall i, j | 0 <= i < j < |sorted| && sorted[i].upToKg.Some? && sorted[j].upToKg.Some? ::
      sorted[i].upToKg.value < sorted[j].upToKg.value
  }

  /** In a rising list the last threshold is the greatest. */
  lemma {:induction false} LastIsGreatest(sorted: seq<Offer>)
    requires Rising(sorted)
    ensures LastThreshold(sorted).Some?
        ==> forall x | x in sorted && x.upToKg.Some? ::
              x.upToKg.value <= LastThreshold(sorted).value.upToKg.value
  {
    if sorted != [] {
      var n := |sorted| - 1;
      LastIsGreatest(sorted[..n]);
      assert sorted == sorted[..n] + [sorted[n]];
    }
  }

  lemma RisingOfLonger(front: seq<Offer>, o: Offer)
    ensures Rising(front + [o])
       <==> Rising(front)
            && (o.upToKg.Some? ==> forall x | x in front && x.upToKg.Some? :: x.upToKg.value < o.upToKg.value)
  {
    var xs := front + [o];
    if Rising(xs) {
      forall i, j | 0 <= i < j < |front| && front[i].upToKg.Some? && front[j].upToKg.Some?
        ensures front[i].upToKg.value < front[j].upToKg.value
      {
        assert xs[i] == front[i] && xs[j] == front[j];
      }
      forall x | x in front && x.upToKg.Some? && o.upToKg.Some?
        ensures x.upToKg.value < o.upToKg.value
      {
        var i :| 0 <= i < |front| && front[i] == x;
        assert xs[i] == x && xs[|front|] == o;
      }
    }
  }

  /** Comparing neighbours is enough. */
  lemma {:induction false} NoFalls(sorted: seq<Offer>)
    ensures Falls(sorted) == [] <==> Rising(sorted)
  {
    if sorted != [] {
      var n := |sorted| - 1;
      var front, o := sorted[..n], sorted[n];
      hide Rising;
      NoFalls(front);
      if Rising(front) { LastIsGreatest(front); }
      assert sorted == front + [o];
      RisingOfLonger(front, o);
    }
  }

  /** Strictly ordered lists of the same options are the same list. */
  lemma {:induction false} LadderUnique(xs: seq<Offer>, ys: seq<Offer>)
    requires Ladder(xs) && Ladder(ys) && forall o :: o in xs <==> o in ys
    ensures xs == ys
  {
    assert xs == [] || xs[0] in xs;
    assert ys == [] || ys[0] in ys;
    if xs != [] {
      LadderHead(xs, ys);
      LadderTail(xs);
      LadderTail(ys);
      LadderUnique(xs[1..], ys[1..]);
      assert xs == [xs[0]] + xs[1..] && ys == [ys[0]] + ys[1..];
    }
  }

  lemma LadderHead(xs: seq<Offer>, ys: seq<Offer>)
    requires Ladder(xs) && Ladder(ys) && (forall o :: o in xs <==> o in ys) && xs != [] && ys != []
    ensures xs[0] == ys[0]
  {
    assert ys[0] in xs && xs[0] in ys;
    var i :| 0 <= i < |xs| && xs[i] == ys[0];
    var j :| 0 <= j < |ys| && ys[j] == xs[0];
  }

  lemma LadderTail(xs: seq<Offer>)
    requires Ladder(xs) && xs != []
    ensures Ladder(xs[1..]) && forall o :: o in xs[1..] <==> o in xs && o != xs[0]
  {
    assert xs == [xs[0]] + xs[1..];
    hide Rank;
  }

  lemma DisplayOrderIsStrict(offers: seq<Offer>, i: nat, j: nat)
    requires Distinct(offers) && i < j < |offers|
    ensures Rank(InDisplayOrder(offers)[i].requirement) < Rank(InDisplayOrder(offers)[j].requirement)
  {
    RankKeysAreDistinct(offers);
    SortedKeysAreIndices(offers, i);
    SortedKeysAreIndices(offers, j);
    var keys := Sort(RankKeys(offers));
    hide Sort;
    assert Less(keys[i], keys[j]);
    assert keys[i].minor != keys[j].minor;
  }

  /** In display order, consistency pair by pair is a ladder. */
  lemma OrderedOffers(offers: seq<Offer>)
    requires Distinct(offers)
    ensures Rising(InDisplayOrder(offers)) <==> forall a, b | a in offers && b in offers :: Consistent(a, b)
    ensures Rising(InDisplayOrder(offers)) ==> Ladder(InDisplayOrder(offers))
  {
    var sorted := InDisplayOrder(offers);
    forall o
      ensures o in sorted <==> o in offers
    {
      DisplayOrderHolds(offers, o);
    }
    forall i, j | 0 <= i < j < |sorted|
      ensures Rank(sorted[i].requirement) < Rank(sorted[j].requirement)
    {
      DisplayOrderIsStrict(offers, i, j);
    }
    hide InDisplayOrder, Rank, Distinct;
    RisingByRank(sorted);
  }

  lemma RisingByRank(sorted: seq<Offer>)
    requires forall i, j | 0 <= i < j < |sorted| :: Rank(sorted[i].requirement) < Rank(sorted[j].requirement)
    ensures Rising(sorted) <==> forall a, b | a in sorted && b in sorted :: Consistent(a, b)
  {
    hide Rank;
    if Rising(sorted) {
      forall a, b | a in sorted && b in sorted
        ensures Consistent(a, b)
      {
        var i :| 0 <= i < |sorted| && sorted[i] == a;
        var j :| 0 <= j < |sorted| && sorted[j] == b;
      }
    } else {
      var i, j :| 0 <= i < j < |sorted| && sorted[i].upToKg.Some? && sorted[j].upToKg.Some?
                  && sorted[i].upToKg.value >= sorted[j].upToKg.value;
      assert !Consistent(sorted[i], sorted[j]);
    }
  }

  lemma BoundsByMembership(offers: seq<Offer>)
    ensures (forall i | 0 <= i < |offers| :: InBounds(offers[i]))
       <==> (forall o | o in offers && o.upToKg.Some? :: 1 <= o.upToKg.value <= 2000)
  {
    if forall o | o in offers && o.upToKg.Some? :: 1 <= o.upToKg.value <= 2000 {
      assert forall i | 0 <= i < |offers| :: offers[i] in offers;
    }
  }

  /** When a configuration is accepted, and what is then stored. */
  lemma WhenOptionsAreAccepted(offers: seq<Offer>)
    ensures ParseOffers(offers).Options? <==> Acceptable(offers)
    ensures ParseOffers(offers).Options?
        ==> var stored := ParseOffers(offers).options;
            Ladder(stored) && forall o :: o in stored <==> o in offers
  {
    hide InDisplayOrder, Ladder, Repeats, Falls, Distinct, Consistent, Rising, Requirements, InBounds;
    BoundsByMembership(offers);
    NoRepeats(offers);
    DistinctByCount(offers);
    NoFalls(InDisplayOrder(offers));
    if Distinct(offers) { OrderedOffers(offers); }
    forall o
      ensures o in InDisplayOrder(offers) <==> o in offers
    {
      DisplayOrderHolds(offers, o);
    }
  }

  lemma SameRequirements(a: seq<Offer>, b: seq<Offer>)
    requires multiset(a) == multiset(b)
    ensures |a| == |b| && Requirements(a) == Requirements(b) && forall o :: o in a <==> o in b
  {
    assert |multiset(a)| == |a| && |multiset(b)| == |b|;
    assert forall o :: o in a <==> o in multiset(a);
    assert forall o :: o in b <==> o in multiset(b);
    RequirementsByMembership(a);
    RequirementsByMembership(b);
  }

  lemma RequirementsByMembership(offers: seq<Offer>)
    ensures forall r :: r in Requirements(offers) <==> exists o :: o in offers && o.requirement == r
  {
  }

  /** Ticking the same boxes in another order is the same configuration. */
  lemma SubmittedOrderIsImmaterial(a: seq<Offer>, b: seq<Offer>)
    requires multiset(a) == multiset(b)
    ensures ParseOffers(a).Options? <==> ParseOffers(b).Options?
    ensures ParseOffers(a).Options? ==> ParseOffers(a) == ParseOffers(b)
  {
    hide ParseOffers, Ladder, Requirements, Consistent;
    SameRequirements(a, b);
    WhenOptionsAreAccepted(a);
    WhenOptionsAreAccepted(b);
    if ParseOffers(a).Options? { LadderUnique(ParseOffers(a).options, ParseOffers(b).options); }
  }

  // ---- What a refused configuration is told -----------------------------------------------------

  lemma WhenOptionsAreMalformed(offers: seq<Offer>)
    ensures ParseOffers(offers).Malformed?
       <==> |offers| > 5
            || exists i | 0 <= i < |offers| :: offers[i].upToKg.Some? && !(1 <= offers[i].upToKg.value <= 2000)
  {
    hide InDisplayOrder, Repeats, Falls;
  }

  ghost predicate OffersTwice(offers: seq<Offer>, r: Requirement) {
    exists i, j | 0 <= i < j < |offers| :: offers[i].requirement == offers[j].requirement == r
  }

  lemma {:induction false} RepeatsAre(offers: seq<Offer>, issue: Issue)
    ensures issue in Repeats(offers) <==> issue.OfferedTwice? && OffersTwice(offers, issue.requirement)
  {
    if offers != [] {
      var n := |offers| - 1;
      RepeatsAre(offers[..n], issue);
      if issue.OfferedTwice? { TwiceInLonger(offers, issue.requirement); }
      hide OffersTwice;
    }
  }

  lemma TwiceInLonger(offers: seq<Offer>, r: Requirement)
    requires offers != []
    ensures var n := |offers| - 1;
            OffersTwice(offers, r)
            <==> || OffersTwice(offers[..n], r)
                 || (offers[n].requirement == r && exists i | 0 <= i < n :: offers[i].requirement == r)
  {
    var n := |offers| - 1;
    if OffersTwice(offers[..n], r) {
      var i, j :| 0 <= i < j < n && offers[..n][i].requirement == offers[..n][j].requirement == r;
      assert offers[i].requirement == offers[j].requirement == r;
    }
    if OffersTwice(offers, r) {
      var i, j :| 0 <= i < j < |offers| && offers[i].requirement == offers[j].requirement == r;
      if j < n { assert offers[..n][i].requirement == offers[..n][j].requirement == r; }
    }
  }

  /** `j` has a threshold, the one before it is at `i`, it is not higher than that, and the issue says so. */
  ghost predicate FallsAt(sorted: seq<Offer>, i: nat, j: nat, issue: Issue) {
    && i < j < |sorted| && sorted[i].upToKg.Some? && sorted[j].upToKg.Some?
    && (forall k | i < k < j :: sorted[k].upToKg.None?)
    && sorted[j].upToKg.value <= sorted[i].upToKg.value
    && issue == NotMoreThan(sorted[i], sorted[j])
  }

  ghost predicate IsFall(sorted: seq<Offer>, issue: Issue) {
    exists i: nat, j: nat :: FallsAt(sorted, i, j, issue)
  }

  lemma {:induction false} LastThresholdIs(sorted: seq<Offer>) returns (i: nat)
    requires LastThreshold(sorted).Some?
    ensures i < |sorted| && sorted[i] == LastThreshold(sorted).value
    ensures forall k | i < k < |sorted| :: sorted[k].upToKg.None?
  {
    var n := |sorted| - 1;
    i := n;
    if sorted[n].upToKg.None? {
      i := LastThresholdIs(sorted[..n]);
      assert forall k | 0 <= k < n :: sorted[k] == sorted[..n][k];
    }
  }

  lemma LastThresholdIsUnique(sorted: seq<Offer>, i: nat)
    requires i < |sorted| && sorted[i].upToKg.Some? && forall k | i < k < |sorted| :: sorted[k].upToKg.None?
    ensures LastThreshold(sorted) == Some(sorted[i])
  {
    assert sorted[i] in sorted;
    var j := LastThresholdIs(sorted);
    hide LastThreshold;
  }

  lemma FallAtTheEnd(front: seq<Offer>, o: Offer, issue: Issue)
    ensures (exists i: nat :: FallsAt(front + [o], i, |front|, issue))
       <==> && o.upToKg.Some? && NotMore(LastThreshold(front), o)
            && issue == NotMoreThan(LastThreshold(front).value, o)
  {
    hide LastThreshold;
    var sorted := front + [o];
    assert forall k | 0 <= k < |front| :: sorted[k] == front[k];
    if i: nat :| FallsAt(sorted, i, |front|, issue) {
      LastThresholdIsUnique(front, i);
    }
    if o.upToKg.Some? && NotMore(LastThreshold(front), o) && issue == NotMoreThan(LastThreshold(front).value, o) {
      var i := LastThresholdIs(front);
      assert FallsAt(sorted, i, |front|, issue);
    }
  }

  lemma FallBefore(front: seq<Offer>, o: Offer, i: nat, j: nat, issue: Issue)
    requires j < |front|
    ensures FallsAt(front + [o], i, j, issue) <==> FallsAt(front, i, j, issue)
  {
    assert forall k | 0 <= k < |front| :: (front + [o])[k] == front[k];
  }

  lemma FallInLonger(front: seq<Offer>, o: Offer, issue: Issue)
    ensures IsFall(front + [o], issue)
       <==> IsFall(front, issue) || exists i: nat :: FallsAt(front + [o], i, |front|, issue)
  {
    if i: nat, j: nat :| FallsAt(front, i, j, issue) { FallBefore(front, o, i, j, issue); }
    if i: nat, j: nat :| FallsAt(front + [o], i, j, issue) {
      if j < |front| { FallBefore(front, o, i, j, issue); }
    }
  }

  /** Each complaint names a threshold and the one just above it on the list that it does not exceed. */
  lemma {:induction false} FallsAre(sorted: seq<Offer>, issue: Issue)
    ensures issue in Falls(sorted) <==> IsFall(sorted, issue)
  {
    if sorted != [] {
      var n := |sorted| - 1;
      var front, o := sorted[..n], sorted[n];
      assert sorted == front + [o];
      FallsAre(front, issue);
      FallInLonger(front, o, issue);
      FallAtTheEnd(front, o, issue);
      hide IsFall, FallsAt;
    }
  }

  /** A refused configuration is told of exactly these. */
  lemma WhatOptionsAreRefusedFor(offers: seq<Offer>, issue: Issue)
    requires ParseOffers(offers).Refused?
    ensures var sorted := InDisplayOrder(offers);
            issue in ParseOffers(offers).issues
            <==> || (issue.OfferedTwice? && OffersTwice(offers, issue.requirement))
                 || IsFall(sorted, issue)
  {
    hide InDisplayOrder, Repeats, Falls, OffersTwice, IsFall;
    RepeatsAre(offers, issue);
    FallsAre(InDisplayOrder(offers), issue);
  }

  // ---- The suggestion ---------------------------------------------------------------------------

  /** An integer scaled by `decimalPlaces`: 25 at one place is 2.5 kg. */
  datatype Weight = Weight(scaled: int, decimalPlaces: nat)

  predicate Covers(o: Offer, w: Weight) {
    o.upToKg.Some? && w.scaled <= o.upToKg.value * Pow10(w.decimalPlaces)
  }

  function FirstCover(options: seq<Offer>, w: Weight, i: nat): (k: nat)
    requires i <= |options|
    ensures i <= k <= |options|
    ensures forall j | i <= j < k :: !Covers(options[j], w)
    ensures k < |options| ==> Covers(options[k], w)
    decreases |options| - i
  {
    if i == |options| || Covers(options[i], w) then i else FirstCover(options, w, i + 1)
  }

  predicate Offers(options: seq<Offer>) {
    exists i | 0 <= i < |options| :: options[i].upToKg.Some?
  }

  function Suggestion(options: seq<Offer>, weight: Option<Weight>): Option<Requirement> {
    if weight.None? then None
    else
      var k := FirstCover(options, weight.value, 0);
      if k < |options| then Some(options[k].requirement)
      else if Offers(options) then Some(options[|options| - 1].requirement)
      else None
  }

  method SuggestTransportRequirement(options: seq<Offer>, weight: Option<Weight>)
    returns (suggestion: Option<Requirement>)
    ensures suggestion == Suggestion(options, weight)
  {
    if weight.None? || |options| == 0 { return None; }
    var w := weight.value;
    var scale := Pow10(w.decimalPlaces);
    var heaviestOffered: Option<Requirement> := None;
    var anyThreshold := false;
    for i := 0 to |options|
      invariant i == 0 || heaviestOffered == Some(options[i - 1].requirement)
      invariant anyThreshold <==> exists j | 0 <= j < i :: options[j].upToKg.Some?
      invariant FirstCover(options, w, 0) == FirstCover(options, w, i)
    {
      var option := options[i];
      heaviestOffered := Some(option.requirement);
      if option.upToKg.None? { continue; }
      anyThreshold := true;
      if w.scaled <= option.upToKg.value * scale { return Some(option.requirement); }
    }
    return if anyThreshold then heaviestOffered else None;
  }

  /** On a stored configuration the first cover is the least covering threshold. */
  lemma SuggestsTheLeastCover(options: seq<Offer>, w: Weight)
    requires Ladder(options)
    ensures (forall o | o in options :: o.upToKg.None?) <==> Suggestion(options, Some(w)) == None
    ensures Offers(options) && (forall o | o in options :: !Covers(o, w))
        ==> Suggestion(options, Some(w)) == Some(options[|options| - 1].requirement)
    ensures forall o | o in options && Covers(o, w)
                    && (forall p | p in options && Covers(p, w) :: o.upToKg.value <= p.upToKg.value) ::
              Suggestion(options, Some(w)) == Some(o.requirement)
  {
    var k := FirstCover(options, w, 0);
    hide Covers, Rank;
    assert k < |options| ==> options[k] in options;
    forall o | o in options && Covers(o, w)
            && (forall p | p in options && Covers(p, w) :: o.upToKg.value <= p.upToKg.value)
      ensures Suggestion(options, Some(w)) == Some(o.requirement)
    {
      var i :| 0 <= i < |options| && options[i] == o;
    }
  }

  // ---- Weights on different scales --------------------------------------------------------------

  /** `a` weighs no more than `b`, whatever places each is written at. */
  predicate NoHeavier(a: Weight, b: Weight) {
    a.scaled * Pow10(b.decimalPlaces) <= b.scaled * Pow10(a.decimalPlaces)
  }

  lemma ScaleCancels(a: int, b: int, kg: int, pa: int, pb: int)
    requires pa > 0 && pb > 0 && a * pb <= b * pa && b <= kg * pb
    ensures a <= kg * pa
  {
    assert b * pa <= (kg * pb) * pa;
    assert (kg * pb) * pa == (kg * pa) * pb;
    assert a * pb <= (kg * pa) * pb;
    assert a > kg * pa ==> (a - kg * pa) * pb > 0;
  }

  lemma LighterIsCovered(o: Offer, a: Weight, b: Weight)
    requires NoHeavier(a, b) && Covers(o, b)
    ensures Covers(o, a)
  {
    ScaleCancels(a.scaled, b.scaled, o.upToKg.value, Pow10(a.decimalPlaces), Pow10(b.decimalPlaces));
  }

  /** A heavier item is never suggested a less demanding way to travel. */
  lemma SuggestionIsMonotone(options: seq<Offer>, a: Weight, b: Weight)
    requires Ladder(options) && NoHeavier(a, b)
    ensures Suggestion(options, Some(a)).Some? <==> Suggestion(options, Some(b)).Some?
    ensures Suggestion(options, Some(a)).Some?
        ==> Rank(Suggestion(options, Some(a)).value) <= Rank(Suggestion(options, Some(b)).value)
  {
    var i, j := FirstCover(options, a, 0), FirstCover(options, b, 0);
    if j < |options| { LighterIsCovered(options[j], a, b); }
    hide Covers, NoHeavier;
    assert i <= j;
    if i < |options| { CoverIsOffered(options, a); }
    if j < |options| { CoverIsOffered(options, b); }
  }

  lemma CoverIsOffered(options: seq<Offer>, w: Weight)
    requires FirstCover(options, w, 0) < |options|
    ensures Offers(options)
  {
    assert Covers(options[FirstCover(options, w, 0)], w);
  }

  lemma RankIsInjective(a: Requirement, b: Requirement)
    requires Rank(a) == Rank(b)
    ensures a == b
  {
  }

  /** Only the real weight matters, not the scale it is written at. */
  lemma SameWeightSameSuggestion(options: seq<Offer>, a: Weight, b: Weight)
    requires Ladder(options) && NoHeavier(a, b) && NoHeavier(b, a)
    ensures Suggestion(options, Some(a)) == Suggestion(options, Some(b))
  {
    SuggestionIsMonotone(options, a, b);
    SuggestionIsMonotone(options, b, a);
    hide Suggestion;
    if Suggestion(options, Some(a)).Some? {
      RankIsInjective(Suggestion(options, Some(a)).value, Suggestion(options, Some(b)).value);
    }
  }

  lemma {:induction false} PowersAdd(a: nat, b: nat)
    ensures Pow10(a + b) == Pow10(a) * Pow10(b)
  {
    if b > 0 {
      PowersAdd(a, b - 1);
      assert Pow10(a + b) == 10 * Pow10(a + (b - 1));
      assert Pow10(a) * Pow10(b) == 10 * (Pow10(a) * Pow10(b - 1));
    }
  }

  /** Re-expressing the weight at more decimal places changes nothing. */
  lemma RescalingChangesNothing(options: seq<Offer>, w: Weight, more: nat)
    requires Ladder(options)
    ensures Suggestion(options, Some(Weight(w.scaled * Pow10(more), w.decimalPlaces + more)))
         == Suggestion(options, Some(w))
  {
    var again := Weight(w.scaled * Pow10(more), w.decimalPlaces + more);
    PowersAdd(w.decimalPlaces, more);
    Regroup(w.scaled, Pow10(more), Pow10(w.decimalPlaces));
    hide Pow10, Suggestion;
    SameWeightSameSuggestion(options, again, w);
  }

  lemma Regroup(s: int, p: int, q: int)
    ensures (s * p) * q == s * (q * p)
  {
  }

  /** No threshold is idle: each option that has one is suggested for some weight. */
  lemma EveryThresholdIsReached(options: seq<Offer>, i: nat)
    requires Ladder(options) && i < |options| && options[i].upToKg.Some?
    ensures Suggestion(options, Some(Weight(options[i].upToKg.value, 0))) == Some(options[i].requirement)
  {
    var w := Weight(options[i].upToKg.value, 0);
    assert Pow10(0) == 1;
    assert Covers(options[i], w);
    assert forall j | 0 <= j < i :: !Covers(options[j], w);
    assert FirstCover(options, w, 0) == i;
  }

  // ---- Reading the weight off the form ----------------------------------------------------------

  const WEIGHT_ATTRIBUTE_KEY := "weight_kg"

  function Find(attributes: seq<AttributeValues.Attribute>, key: string): Option<AttributeValues.Attribute> {
    if attributes == [] then None
    else if attributes[0].key == key then Some(attributes[0])
    else Find(attributes[1..], key)
  }

  function ReadItemWeight(attributes: seq<AttributeValues.Attribute>, answers: map<string, AttributeValues.Raw>)
    : Option<Weight>
  {
    match Find(attributes, WEIGHT_ATTRIBUTE_KEY)
    case None => None
    case Some(a) =>
      if !a.kind.Number? || WEIGHT_ATTRIBUTE_KEY !in answers || !answers[WEIGHT_ATTRIBUTE_KEY].Typed? then None
      else
        var typed := Trim(answers[WEIGHT_ATTRIBUTE_KEY].text);
        if typed == "" || Match(typed).None? then None
        else
          match FromDecimalString(typed, a.kind.decimalPlaces)
          case Err(_) => None
          case Ok(scaled) => if scaled < 0 then None else
            assert a.kind.decimalPlaces >= 0;
            Some(Weight(scaled, a.kind.decimalPlaces))
  }

  /** The live form sees a weight exactly when submitting it would store one that is not negative. */
  lemma FormAgreesWithValidation(
    unsafe: char -> bool, attributes: seq<AttributeValues.Attribute>,
    answers: map<string, AttributeValues.Raw>, w: Weight)
    ensures ReadItemWeight(attributes, answers) == Some(w)
       <==> var found := Find(attributes, "weight_kg");
            && found.Some? && found.value.kind.Number? && found.value.kind.decimalPlaces == w.decimalPlaces
            && "weight_kg" in answers && w.scaled >= 0
            && AttributeValues.Reads(unsafe, found.value.kind, answers["weight_kg"])
               == AttributeValues.Read(AttributeValues.NumberValue(w.scaled))
  {
    hide Match, Trim, FromDecimalString;
  }

  /** Two categories that declare different precision suggest the same for the same typed weight. */
  lemma PrecisionDoesNotMatter(options: seq<Offer>, typed: string, places: nat, more: nat)
    requires Ladder(options)
    requires FromDecimalString(typed, places).Ok? && FromDecimalString(typed, places + more).Ok?
    ensures Suggestion(options, Some(Weight(FromDecimalString(typed, places + more).value, places + more)))
         == Suggestion(options, Some(Weight(FromDecimalString(typed, places).value, places)))
  {
    hide FromDecimalString, Suggestion;
    RescaleKeepsTheNumber(typed, places, more);
    RescalingChangesNothing(options, Weight(FromDecimalString(typed, places).value, places), more);
  }
}
