/** Splitting money into weighted shares, in exact minor units. */
module Money {
  import opened Basics
  import opened Ordering

  function Sum(xs: seq<int>): int {
    if xs == [] then 0 else Sum(xs[..|xs| - 1]) + xs[|xs| - 1]
  }

  function Magnitude(n: int): nat {
    if n < 0 then -n else n
  }

  function Sign(n: int): int {
    if n < 0 then -1 else if n == 0 then 0 else 1
  }

  /** Division rounded towards zero. */
  function TruncDiv(n: int, d: int): int
    requires d > 0
  {
    if n < 0 then -((-n) / d) else n / d
  }

  /** Each ratio's share before the leftover is handed out. */
  function BaseShares(amount: int, ratios: seq<int>, total: int): (bases: seq<int>)
    requires total > 0
    ensures |bases| == |ratios|
  {
    seq(|ratios|, i requires 0 <= i < |ratios| => TruncDiv(amount * ratios[i], total))
  }

  /** Sort keys for the ratios, largest first and then in the order given. */
  function RatioKeys(ratios: seq<int>): (keys: seq<Key>)
    ensures |keys| == |ratios|
  {
    seq(|ratios|, i requires 0 <= i < |ratios| => Key(-ratios[i], i))
  }

  lemma {:induction false} KeysAreDistinct(ratios: seq<int>)
    ensures |Elements(RatioKeys(ratios))| == |ratios|
  {
    if ratios != [] {
      var n := |ratios| - 1;
      var keys, front := RatioKeys(ratios), RatioKeys(ratios[..n]);
      KeysAreDistinct(ratios[..n]);
      assert keys == front + [keys[n]];
      ElementsOfConcat(front, [keys[n]]);
      assert keys[n] !in front;
      assert Elements([keys[n]]) == {keys[n]};
    }
  }

  /** The indices of the ratios in the order in which the leftover reaches them. */
  function Order(ratios: seq<int>): (order: seq<int>)
    ensures |order| == |ratios|
  {
    var sorted := Sort(RatioKeys(ratios));
    seq(|ratios|, i requires 0 <= i < |ratios| => sorted[i].minor)
  }

  ghost predicate Before(ratios: seq<int>, i: int, j: int) {
    0 <= i < |ratios| && 0 <= j < |ratios|
    && (ratios[i] > ratios[j] || (ratios[i] == ratios[j] && i < j))
  }

  lemma OrderIsLargestFirst(ratios: seq<int>)
    ensures forall a, b | 0 <= a < b < |ratios| :: Before(ratios, Order(ratios)[a], Order(ratios)[b])
  {
    KeysAreDistinct(ratios);
    var keys := RatioKeys(ratios);
    var sorted := Sort(keys);
    forall a, b | 0 <= a < b < |ratios|
      ensures Before(ratios, sorted[a].minor, sorted[b].minor)
    {
      assert sorted[a] in Elements(sorted) && sorted[b] in Elements(sorted);
      assert sorted[a] in keys && sorted[b] in keys;
      assert Less(sorted[a], sorted[b]);
    }
  }

  lemma OrderReaches(ratios: seq<int>, i: nat)
    requires i < |ratios|
    ensures i in Order(ratios)
  {
    KeysAreDistinct(ratios);
    var k := RatioKeys(ratios)[i];
    assert k in Elements(RatioKeys(ratios));
    assert k in Sort(RatioKeys(ratios));
    var a :| 0 <= a < |ratios| && Sort(RatioKeys(ratios))[a] == k;
    assert Order(ratios)[a] == i;
  }

  lemma OrderInRange(ratios: seq<int>, a: nat)
    requires a < |ratios|
    ensures 0 <= Order(ratios)[a] < |ratios| && Order(ratios)[a] !in Order(ratios)[..a]
  {
    OrderIsLargestFirst(ratios);
    if |ratios| == 1 {
      OrderReaches(ratios, 0);
    } else {
      assert if a == 0 then Before(ratios, Order(ratios)[0], Order(ratios)[1])
             else Before(ratios, Order(ratios)[0], Order(ratios)[a]);
    }
  }

  /** The shares after the first `r` ratios in that order have had one unit each. */
  ghost function Bumped(bases: seq<int>, ratios: seq<int>, step: int, r: nat): (shares: seq<int>)
    requires |bases| == |ratios| && r <= |ratios|
    ensures |shares| == |ratios|
  {
    if r == 0 then bases
    else
      var before := Bumped(bases, ratios, step, r - 1);
      var i := Order(ratios)[r - 1];
      OrderInRange(ratios, r - 1);
      before[i := before[i] + step]
  }

  /** What rounding down left over. */
  function Leftover(amount: int, ratios: seq<int>, total: int): int
    requires total > 0
  {
    amount - Sum(BaseShares(amount, ratios, total))
  }

  predicate AllNonNegative(ratios: seq<int>) {
    forall i | 0 <= i < |ratios| :: ratios[i] >= 0
  }

  datatype Allocation = Shares(shares: seq<int>) | NoRatios | NegativeRatio | RatiosSumToZero

  // ---- The leftover is smaller than the number of ratios that count -----------------------------

  function Positive(ratios: seq<int>): nat {
    if ratios == [] then 0
    else Positive(ratios[..|ratios| - 1]) + if ratios[|ratios| - 1] > 0 then 1 else 0
  }

  lemma DivBounds(m: nat, r: nat, d: nat)
    requires d > 0
    ensures (m * r) / d >= 0
    ensures 0 <= m * r - d * ((m * r) / d) < d
    ensures r == 0 ==> m * r - d * ((m * r) / d) == 0
  {
    assert m * r >= 0;
    if r == 0 { assert m * r == 0; }
  }

  lemma BasesOfPrefix(amount: int, ratios: seq<int>, total: int)
    requires total > 0 && ratios != []
    ensures var n := |ratios| - 1;
            Sum(BaseShares(amount, ratios, total))
            == Sum(BaseShares(amount, ratios[..n], total)) + TruncDiv(amount * ratios[n], total)
  {
    var n := |ratios| - 1;
    assert BaseShares(amount, ratios, total)[..n] == BaseShares(amount, ratios[..n], total);
  }

  /** Over any prefix, the parts lost to rounding are under one unit per positive ratio. */
  lemma {:induction false} RoundingLoss(m: nat, ratios: seq<int>, total: nat)
    requires AllNonNegative(ratios) && total > 0
    ensures 0 <= m * Sum(ratios) - total * Sum(BaseShares(m, ratios, total)) <= (total - 1) * Positive(ratios)
  {
    if ratios != [] {
      var n := |ratios| - 1;
      var front, r := ratios[..n], ratios[n];
      RoundingLoss(m, front, total);
      BasesOfPrefix(m, ratios, total);
      DivBounds(m, r, total);
      hide BaseShares;
      LossGrows(m, total, Sum(front), r, Sum(BaseShares(m, front, total)), (m * r) / total, Positive(front));
    }
  }

  lemma LossGrows(m: nat, total: nat, sum: int, r: nat, bases: int, base: int, positive: nat)
    requires total > 0
    requires 0 <= m * sum - total * bases <= (total - 1) * positive
    requires 0 <= m * r - total * base < total && (r == 0 ==> m * r - total * base == 0)
    ensures 0 <= m * (sum + r) - total * (bases + base)
              <= (total - 1) * (positive + if r > 0 then 1 else 0)
  {
    Distribute(m, sum, r);
    Distribute(total, bases, base);
    Distribute(total - 1, positive, 1);
  }

  lemma LeftoverIsSmall(m: nat, ratios: seq<int>)
    requires AllNonNegative(ratios) && Sum(ratios) > 0
    ensures 0 <= Leftover(m, ratios, Sum(ratios))
    ensures Leftover(m, ratios, Sum(ratios)) == 0 || Leftover(m, ratios, Sum(ratios)) < Positive(ratios)
  {
    RoundingLoss(m, ratios, Sum(ratios));
    hide BaseShares;
    UnderOneEach(Sum(ratios), m, Sum(BaseShares(m, ratios, Sum(ratios))), Positive(ratios));
  }

  lemma UnderOneEach(total: nat, m: int, bases: int, positive: nat)
    requires total > 0 && 0 <= m * total - total * bases <= (total - 1) * positive
    ensures 0 <= m - bases && (m - bases == 0 || m - bases < positive)
  {
    var left := m - bases;
    assert m * total - total * bases == total * left;
  }

  // ---- Who gets the leftover --------------------------------------------------------------------

  ghost function PositiveAt(ratios: seq<int>): (at: set<int>)
    ensures |at| == Positive(ratios)
    ensures forall i | i in at :: 0 <= i < |ratios| && ratios[i] > 0
  {
    if ratios == [] then {}
    else
      var n := |ratios| - 1;
      PositiveAt(ratios[..n]) + if ratios[n] > 0 then {n} else {}
  }

  // ---- What is handed out -----------------------------------------------------------------------

  lemma {:induction false} SumAfterUpdate(xs: seq<int>, i: nat, v: int)
    requires i < |xs|
    ensures Sum(xs[i := v]) == Sum(xs) - xs[i] + v
  {
    var n := |xs| - 1;
    if i == n {
      assert xs[i := v][..n] == xs[..n];
    } else {
      assert xs[i := v][..n] == xs[..n][i := v];
      SumAfterUpdate(xs[..n], i, v);
    }
  }

  lemma {:induction false} SumOfBumped(bases: seq<int>, ratios: seq<int>, step: int, r: nat)
    requires |bases| == |ratios| && r <= |ratios|
    ensures Sum(Bumped(bases, ratios, step, r)) == Sum(bases) + step * r
  {
    hide Order;
    if r > 0 {
      SumOfBumped(bases, ratios, step, r - 1);
      OrderInRange(ratios, r - 1);
      var i := Order(ratios)[r - 1];
      var before := Bumped(bases, ratios, step, r - 1);
      SumAfterUpdate(before, i, before[i] + step);
      Distribute(step, r - 1, 1);
    }
  }

  ghost predicate Favoured(ratios: seq<int>, r: nat, i: nat)
    requires r <= |ratios| && i < |ratios|
  {
    i in Order(ratios)[..r]
  }

  /** Nobody is handed a second unit: the favoured get exactly one, the others none. */
  lemma {:induction false} BumpedAt(bases: seq<int>, ratios: seq<int>, step: int, r: nat, i: nat)
    requires |bases| == |ratios| && r <= |ratios| && i < |ratios|
    ensures Bumped(bases, ratios, step, r)[i] == bases[i] + if Favoured(ratios, r, i) then step else 0
  {
    hide Order;
    if r > 0 {
      BumpedAt(bases, ratios, step, r - 1, i);
      OrderInRange(ratios, r - 1);
      assert Order(ratios)[..r] == Order(ratios)[..r - 1] + [Order(ratios)[r - 1]];
    }
  }

  /** A larger ratio is favoured whenever a smaller one is. */
  lemma LargerIsFavouredFirst(ratios: seq<int>, r: nat, i: nat, j: nat)
    requires i < |ratios| && j < |ratios| && ratios[i] > ratios[j] && r <= |ratios|
    requires Favoured(ratios, r, j)
    ensures Favoured(ratios, r, i)
  {
    hide Order;
    OrderReaches(ratios, i);
    OrderIsLargestFirst(ratios);
    var a :| 0 <= a < |ratios| && Order(ratios)[a] == i;
    var b :| 0 <= b < r && Order(ratios)[b] == j;
  }

  /** A ratio of zero comes too late in the order to be given anything. */
  lemma ZeroIsNeverFavoured(ratios: seq<int>, r: nat, i: nat)
    requires AllNonNegative(ratios) && i < |ratios| && ratios[i] == 0
    requires r <= |ratios| && (r == 0 || r < Positive(ratios))
    ensures !Favoured(ratios, r, i)
  {
    if Favoured(ratios, r, i) {
      var favoured := set j | 0 <= j < |ratios| && Favoured(ratios, r, j);
      forall j | j in PositiveAt(ratios)
        ensures j in favoured
      {
        LargerIsFavouredFirst(ratios, r, j, i);
      }
      Cardinality(PositiveAt(ratios), favoured);
      DistinctInts(Order(ratios)[..r]);
      Cardinality(favoured, set j | j in Order(ratios)[..r]);
    }
  }

  lemma {:induction false} DistinctInts(xs: seq<int>)
    ensures |set x | x in xs| <= |xs|
  {
    if xs != [] {
      DistinctInts(xs[1..]);
      assert (set x | x in xs) == {xs[0]} + set x | x in xs[1..];
    }
  }

  lemma {:induction false} PositiveIsBounded(ratios: seq<int>)
    ensures Positive(ratios) <= |ratios|
  {
    if ratios != [] { PositiveIsBounded(ratios[..|ratios| - 1]); }
  }

  // ---- Refunds mirror charges -------------------------------------------------------------------

  lemma {:induction false} SumOfNegated(xs: seq<int>, ys: seq<int>)
    requires |xs| == |ys| && forall i | 0 <= i < |xs| :: ys[i] == -xs[i]
    ensures Sum(ys) == -Sum(xs)
  {
    if xs != [] { SumOfNegated(xs[..|xs| - 1], ys[..|xs| - 1]); }
  }

  lemma NegatedQuotient(n: int, d: int)
    requires d > 0
    ensures TruncDiv(-n, d) == -TruncDiv(n, d)
  {
    assert -(-n) == n;
    if n == 0 { assert 0 / d == 0; }
  }

  lemma NegatedShare(amount: int, ratio: int, total: int)
    requires total > 0
    ensures TruncDiv(-amount * ratio, total) == -TruncDiv(amount * ratio, total)
  {
    hide TruncDiv;
    Opposite(amount, ratio);
    NegatedQuotient(amount * ratio, total);
  }

  lemma BasesNegate(amount: int, ratios: seq<int>, total: int)
    requires total > 0
    ensures forall i | 0 <= i < |ratios| ::
              BaseShares(-amount, ratios, total)[i] == -BaseShares(amount, ratios, total)[i]
    ensures Leftover(-amount, ratios, total) == -Leftover(amount, ratios, total)
  {
    forall i | 0 <= i < |ratios|
      ensures BaseShares(-amount, ratios, total)[i] == -BaseShares(amount, ratios, total)[i]
    {
      NegatedShare(amount, ratios[i], total);
    }
    SumOfNegated(BaseShares(amount, ratios, total), BaseShares(-amount, ratios, total));
  }

  /** The leftover loop stops before its first wrap-around, whatever the sign. */
  lemma LeftoverNeverWraps(amount: int, ratios: seq<int>)
    requires AllNonNegative(ratios) && Sum(ratios) > 0
    ensures var left := Leftover(amount, ratios, Sum(ratios));
            (left == 0 || Magnitude(left) < Positive(ratios)) && Magnitude(left) <= |ratios|
            && (left == 0 || Sign(left) == Sign(amount))
  {
    LeftoverIsSmall(Magnitude(amount), ratios);
    PositiveIsBounded(ratios);
    BasesNegate(amount, ratios, Sum(ratios));
    if amount == 0 { SumOfNegated(BaseShares(0, ratios, Sum(ratios)), BaseShares(0, ratios, Sum(ratios))); }
  }

  ghost predicate Splittable(ratios: seq<int>) {
    AllNonNegative(ratios) && Sum(ratios) > 0
  }

  /** The shares as a function of the amount and the ratios. */
  ghost function Allocated(amount: int, ratios: seq<int>): (shares: seq<int>)
    requires Splittable(ratios)
    ensures |shares| == |ratios|
  {
    LeftoverNeverWraps(amount, ratios);
    var left := Leftover(amount, ratios, Sum(ratios));
    Bumped(BaseShares(amount, ratios, Sum(ratios)), ratios, Sign(left), Magnitude(left))
  }

  /** No minor unit is lost or invented. */
  lemma NothingLostOrInvented(amount: int, ratios: seq<int>)
    requires Splittable(ratios)
    ensures Sum(Allocated(amount, ratios)) == amount
  {
    LeftoverNeverWraps(amount, ratios);
    var left := Leftover(amount, ratios, Sum(ratios));
    SumOfBumped(BaseShares(amount, ratios, Sum(ratios)), ratios, Sign(left), Magnitude(left));
  }

  /** A share is its base, and one more unit of the amount's own sign if it is favoured. */
  lemma AllocatedAt(amount: int, ratios: seq<int>, i: nat) returns (r: nat)
    requires Splittable(ratios) && i < |ratios|
    ensures r == Magnitude(Leftover(amount, ratios, Sum(ratios))) <= |ratios|
    ensures r == 0 || r < Positive(ratios)
    ensures Allocated(amount, ratios)[i]
         == TruncDiv(amount * ratios[i], Sum(ratios)) + if Favoured(ratios, r, i) then Sign(amount) else 0
  {
    hide Order, TruncDiv;
    LeftoverNeverWraps(amount, ratios);
    var left := Leftover(amount, ratios, Sum(ratios));
    r := Magnitude(left);
    BumpedAt(BaseShares(amount, ratios, Sum(ratios)), ratios, Sign(left), r, i);
  }

  /** How far, away from zero and in `total`ths of a unit, a share exceeds its exact proportion. */
  function Excess(amount: int, ratio: int, total: int, share: int): int {
    if amount >= 0 then share * total - amount * ratio else amount * ratio - share * total
  }

  /** Every share is within one unit of its exact proportion. */
  lemma WithinOneUnit(amount: int, ratios: seq<int>, i: nat)
    requires Splittable(ratios) && i < |ratios|
    ensures -Sum(ratios) < Excess(amount, ratios[i], Sum(ratios), Allocated(amount, ratios)[i]) <= Sum(ratios)
    ensures Sign(Allocated(amount, ratios)[i]) in {0, Sign(amount)}
  {
    var total := Sum(ratios);
    var r := AllocatedAt(amount, ratios, i);
    hide Allocated;
    ShareBounds(amount, ratios[i], total, Allocated(amount, ratios)[i]);
  }

  lemma {:induction false} BaseMagnitude(amount: int, ratio: nat, total: nat)
    requires total > 0
    ensures var q := (Magnitude(amount) * ratio) / total;
            q >= 0 && TruncDiv(amount * ratio, total) == if amount < 0 then -q else q
  {
    DivBounds(Magnitude(amount), ratio, total);
    if amount < 0 {
      NegatedShare(-amount, ratio, total);
    }
  }

  lemma ShareBounds(amount: int, ratio: nat, total: int, share: int)
    requires total > 0
    requires var base := TruncDiv(amount * ratio, total); share in {base, base + Sign(amount)}
    ensures -total < Excess(amount, ratio, total, share) <= total
    ensures Sign(share) in {0, Sign(amount)}
  {
    var m := Magnitude(amount);
    BaseMagnitude(amount, ratio, total);
    DivBounds(m, ratio, total);
    Opposite(amount, ratio);
    hide TruncDiv;
    ExcessOfQuotient(amount, total, share, amount * ratio, (m * ratio) / total);
  }

  lemma ExcessOfQuotient(amount: int, total: int, share: int, exact: int, q: int)
    requires total > 0 && q >= 0
    requires 0 <= (if amount < 0 then -exact else exact) - total * q < total
    requires share == (if amount < 0 then -q else q)
          || share == (if amount < 0 then -q - 1 else q + Sign(amount))
    ensures -total < (if amount >= 0 then share * total - exact else exact - share * total) <= total
    ensures Sign(share) in {0, Sign(amount)} || amount == 0
    ensures amount == 0 && exact == 0 ==> share == 0
  {
    var size := if amount < 0 then -share else share;
    ExcessOfSize(total, if amount < 0 then -exact else exact, q, size);
    if amount < 0 { Opposite(share, total); }
    if amount == 0 && exact == 0 { ProductGrows(total, 1, if q > 0 then q else 1); }
  }

  lemma ExcessOfSize(total: int, exact: int, q: int, size: int)
    requires total > 0 && 0 <= exact - total * q < total && (size == q || size == q + 1)
    ensures -total < size * total - exact <= total
  {
    Distribute(total, q, 1);
    Commute(total, size);
  }

  lemma Commute(a: int, b: int)
    ensures a * b == b * a
  {
  }

  lemma ZeroRatioGetsNothing(amount: int, ratios: seq<int>, i: nat)
    requires Splittable(ratios) && i < |ratios| && ratios[i] == 0
    ensures Allocated(amount, ratios)[i] == 0
  {
    var r := AllocatedAt(amount, ratios, i);
    ZeroIsNeverFavoured(ratios, r, i);
    hide Allocated;
    assert amount * ratios[i] == 0;
  }

  lemma MagnitudeOfShare(amount: int, share: int, q: int, bumped: bool)
    requires q >= 0
    requires share == (if amount < 0 then -q else q) + if bumped then Sign(amount) else 0
    ensures Magnitude(share) == q + if bumped && amount != 0 then 1 else 0
  {
  }

  lemma QuotientGrows(x: nat, y: nat, d: nat)
    requires x <= y && d > 0
    ensures x / d <= y / d
  {
    var a, b := x / d, y / d;
    assert a > b ==> d * a >= d * (b + 1);
  }

  lemma LargerRatioGetsNoLess(amount: int, ratios: seq<int>, i: nat, j: nat)
    requires Splittable(ratios) && i < |ratios| && j < |ratios| && ratios[i] > ratios[j]
    ensures Magnitude(Allocated(amount, ratios)[i]) >= Magnitude(Allocated(amount, ratios)[j])
  {
    hide Order, Favoured, Positive;
    var total, m := Sum(ratios), Magnitude(amount);
    var r := AllocatedAt(amount, ratios, i);
    var r' := AllocatedAt(amount, ratios, j);
    if Favoured(ratios, r, j) { LargerIsFavouredFirst(ratios, r, i, j); }
    BaseMagnitude(amount, ratios[i], total);
    BaseMagnitude(amount, ratios[j], total);
    hide *;
    ProductGrows(m, ratios[j], ratios[i]);
    QuotientGrows(m * ratios[j], m * ratios[i], total);
    MagnitudeOfShare(amount, Allocated(amount, ratios)[i], (m * ratios[i]) / total, Favoured(ratios, r, i));
    MagnitudeOfShare(amount, Allocated(amount, ratios)[j], (m * ratios[j]) / total, Favoured(ratios, r, j));
  }

  /** Splitting a refund is splitting the charge with every sign turned. */
  lemma RefundMirrorsCharge(amount: int, ratios: seq<int>, i: nat)
    requires Splittable(ratios) && i < |ratios|
    ensures Allocated(-amount, ratios)[i] == -Allocated(amount, ratios)[i]
  {
    hide Order, Favoured, Positive;
    var r := AllocatedAt(amount, ratios, i);
    var r' := AllocatedAt(-amount, ratios, i);
    BasesNegate(amount, ratios, Sum(ratios));
    hide Allocated, Leftover, TruncDiv;
    NegatedShare(amount, ratios[i], Sum(ratios));
  }

  // ---- No share outgrows the amount, and only proportions matter --------------------------------

  lemma {:induction false} PartsWithinSum(xs: seq<int>, sign: int, i: nat)
    requires sign in {-1, 0, 1} && forall k | 0 <= k < |xs| :: Sign(xs[k]) in {0, sign}
    ensures Sign(Sum(xs)) in {0, sign}
    ensures i < |xs| ==> Magnitude(xs[i]) <= Magnitude(Sum(xs))
  {
    if xs != [] {
      var n := |xs| - 1;
      PartsWithinSum(xs[..n], sign, i);
      assert Sign(xs[n]) in {0, sign};
    }
  }

  /** A share is never larger than the amount, so a safe amount splits into safe shares. */
  lemma SharesStayWithinTheAmount(amount: int, ratios: seq<int>, i: nat)
    requires Splittable(ratios) && i < |ratios|
    ensures Magnitude(Allocated(amount, ratios)[i]) <= Magnitude(amount)
  {
    hide Allocated, Splittable;
    var shares := Allocated(amount, ratios);
    forall k | 0 <= k < |shares|
      ensures Sign(shares[k]) in {0, Sign(amount)}
    {
      WithinOneUnit(amount, ratios, k);
    }
    PartsWithinSum(shares, Sign(amount), i);
    NothingLostOrInvented(amount, ratios);
  }

  function Scaled(ratios: seq<int>, c: int): (scaled: seq<int>)
    ensures |scaled| == |ratios| && forall i | 0 <= i < |ratios| :: scaled[i] == c * ratios[i]
  {
    seq(|ratios|, i requires 0 <= i < |ratios| => c * ratios[i])
  }

  lemma {:induction false} SumOfScaled(ratios: seq<int>, c: int)
    ensures Sum(Scaled(ratios, c)) == c * Sum(ratios)
  {
    if ratios != [] {
      var n := |ratios| - 1;
      SumOfScaled(ratios[..n], c);
      assert Scaled(ratios, c)[..n] == Scaled(ratios[..n], c);
      Distribute(c, Sum(ratios[..n]), ratios[n]);
    }
  }

  lemma QuotientIsUnique(x: int, d: int, q: int)
    requires d > 0 && 0 <= x - d * q < d
    ensures x / d == q
  {
    var r := x - d * (x / d);
    var gap := q - x / d;
    Distribute(d, x / d, gap);
    assert d * gap < d && d * gap > -d;
    assert gap >= 1 ==> d * gap >= d;
    assert gap <= -1 ==> d * gap <= -d;
  }

  lemma CancelInQuotient(x: nat, d: nat, c: nat)
    requires d > 0 && c > 0
    ensures c * d > 0 && (c * x) / (c * d) == x / d
  {
    var q, r := x / d, x % d;
    ProductGrows(c, 1, d);
    Distribute(c, d * q, r);
    Associate(c, d, q);
    ProductGrows(c, r, d - 1);
    Distribute(c, d, -1);
    QuotientIsUnique(c * x, c * d, q);
  }

  lemma Associate(a: int, b: int, c: int)
    ensures a * (b * c) == (a * b) * c
  {
  }

  lemma ScaledShare(amount: int, ratio: nat, total: nat, c: nat)
    requires total > 0 && c > 0
    ensures c * total > 0
    ensures TruncDiv(amount * (c * ratio), c * total) == TruncDiv(amount * ratio, total)
  {
    var m := Magnitude(amount);
    ProductGrows(c, 1, total);
    ProductGrows(c, 0, ratio);
    BaseMagnitude(amount, ratio, total);
    BaseMagnitude(amount, c * ratio, c * total);
    Associate(m, c, ratio);
    Associate(c, m, ratio);
    assert m * c == c * m;
    ProductGrows(m, 0, ratio);
    CancelInQuotient(m * ratio, total, c);
    hide TruncDiv;
  }

  lemma ScalingKeepsOrder(c: int, x: int, y: int)
    requires c > 0
    ensures (c * x > c * y ==> x > y) && (c * x == c * y ==> x == y)
  {
    if x <= y { ProductGrows(c, 0, y - x); Distribute(c, x, y - x); }
    if x >= y { ProductGrows(c, 0, x - y); Distribute(c, y, x - y); }
    assert x < y ==> c * (y - x) >= 1;
    assert x > y ==> c * (x - y) >= 1;
  }

  lemma BeforeWhenScaled(ratios: seq<int>, c: int, i: int, j: int)
    requires c > 0 && Before(Scaled(ratios, c), i, j)
    ensures Before(ratios, i, j)
  {
    ScalingKeepsOrder(c, ratios[i], ratios[j]);
  }

  /** The keys of the ratios, listed in a given order of indices. */
  ghost function KeysInOrder(ratios: seq<int>, order: seq<int>): (keys: seq<Key>)
    requires forall a | 0 <= a < |order| :: 0 <= order[a] < |ratios|
    ensures |keys| == |order| && forall a | 0 <= a < |order| :: keys[a] == Key(-ratios[order[a]], order[a])
  {
    seq(|order|, a requires 0 <= a < |order| => Key(-ratios[order[a]], order[a]))
  }

  lemma KeysInOrderAreAll(ratios: seq<int>, order: seq<int>)
    requires forall a | 0 <= a < |order| :: 0 <= order[a] < |ratios|
    requires forall i | 0 <= i < |ratios| :: i in order
    ensures Elements(KeysInOrder(ratios, order)) == Elements(RatioKeys(ratios))
  {
    var keys, listed := RatioKeys(ratios), KeysInOrder(ratios, order);
    forall k
      ensures k in listed <==> k in keys
    {
      if k in keys {
        var i :| 0 <= i < |keys| && keys[i] == k;
        assert i in order;
        var a :| 0 <= a < |order| && order[a] == i;
        assert listed[a] == k;
      }
      if k in listed {
        var a :| 0 <= a < |listed| && listed[a] == k;
        assert keys[order[a]] == k;
      }
    }
  }

  /** There is one order that puts the larger ratio, then the earlier, first. */
  lemma OrderIsUnique(ratios: seq<int>, order: seq<int>)
    requires |order| == |ratios| && forall a | 0 <= a < |order| :: 0 <= order[a] < |ratios|
    requires forall a, b | 0 <= a < b < |order| :: Before(ratios, order[a], order[b])
    requires forall i | 0 <= i < |ratios| :: i in order
    ensures order == Order(ratios)
  {
    var keys, listed := RatioKeys(ratios), KeysInOrder(ratios, order);
    forall a, b | 0 <= a < b < |listed|
      ensures Less(listed[a], listed[b])
    {
      assert Before(ratios, order[a], order[b]);
    }
    hide Less, RatioKeys, Elements, KeysInOrder, Before;
    KeysAreDistinct(ratios);
    KeysInOrderAreAll(ratios, order);
    AscendingUnique(listed, Sort(keys));
  }

  lemma OrderOfScaled(ratios: seq<int>, c: int)
    requires c > 0
    ensures Order(Scaled(ratios, c)) == Order(ratios)
  {
    hide Order, Before;
    var scaled := Scaled(ratios, c);
    var order := Order(scaled);
    OrderIsLargestFirst(scaled);
    forall a, b | 0 <= a < b < |order|
      ensures Before(ratios, order[a], order[b])
    {
      BeforeWhenScaled(ratios, c, order[a], order[b]);
    }
    forall i | 0 <= i < |ratios|
      ensures i in order
    {
      OrderReaches(scaled, i);
    }
    forall a | 0 <= a < |order|
      ensures 0 <= order[a] < |ratios|
    {
      OrderInRange(scaled, a);
    }
    OrderIsUnique(ratios, order);
  }

  lemma {:induction false} BumpedAlike(bases: seq<int>, a: seq<int>, b: seq<int>, step: int, r: nat)
    requires |bases| == |a| == |b| && Order(a) == Order(b) && r <= |a|
    ensures Bumped(bases, a, step, r) == Bumped(bases, b, step, r)
  {
    hide Order;
    if r > 0 { BumpedAlike(bases, a, b, step, r - 1); }
  }

  /** Multiplying every ratio alike changes no share, so fractional ratios need no cases of their own. */
  lemma OnlyProportionsMatter(amount: int, ratios: seq<int>, c: int)
    requires Splittable(ratios) && c > 0
    ensures Splittable(Scaled(ratios, c))
    ensures Allocated(amount, Scaled(ratios, c)) == Allocated(amount, ratios)
  {
    var scaled, total := Scaled(ratios, c), Sum(ratios);
    SumOfScaled(ratios, c);
    ProductGrows(c, 1, total);
    forall i | 0 <= i < |ratios|
      ensures scaled[i] >= 0
      ensures TruncDiv(amount * scaled[i], c * total) == TruncDiv(amount * ratios[i], total)
    {
      ProductGrows(c, 0, ratios[i]);
      ScaledShare(amount, ratios[i], total, c);
    }
    assert BaseShares(amount, scaled, c * total) == BaseShares(amount, ratios, total);
    OrderOfScaled(ratios, c);
    LeftoverNeverWraps(amount, ratios);
    var left := Leftover(amount, ratios, total);
    hide BaseShares, TruncDiv, Order, Bumped, Scaled;
    BumpedAlike(BaseShares(amount, ratios, total), scaled, ratios, Sign(left), Magnitude(left));
  }

  // ---- The loops --------------------------------------------------------------------------------

  lemma BasesSoFar(amount: int, ratios: seq<int>, total: int, i: nat)
    requires total > 0 && i < |ratios|
    ensures var bases := BaseShares(amount, ratios, total);
            var share := TruncDiv(amount * ratios[i], total);
            bases[..i + 1] == bases[..i] + [share] && Sum(bases[..i + 1]) == Sum(bases[..i]) + share
  {
    var bases := BaseShares(amount, ratios, total);
    assert bases[..i + 1][..i] == bases[..i];
  }

  lemma BumpNext(bases: seq<int>, ratios: seq<int>, step: int, r: nat)
    requires |bases| == |ratios| && r < |ratios|
    ensures var i, before := Order(ratios)[r], Bumped(bases, ratios, step, r);
            0 <= i < |ratios| && Bumped(bases, ratios, step, r + 1) == before[i := before[i] + step]
  {
    OrderInRange(ratios, r);
  }

  lemma NoWrap(i: nat, n: nat)
    requires i < n
    ensures i % n == i
  {
  }

  /** The first loop: every share rounded towards zero, and what that leaves. */
  method RoundShares(amount: int, ratios: seq<int>, total: int) returns (shares: seq<int>, remainder: int)
    requires total > 0
    ensures shares == BaseShares(amount, ratios, total) && remainder == Leftover(amount, ratios, total)
  {
    hide BaseShares, TruncDiv;
    shares, remainder := [], amount;
    ghost var bases := BaseShares(amount, ratios, total);
    for i := 0 to |ratios|
      invariant shares == bases[..i]
      invariant remainder == amount - Sum(bases[..i])
    {
      var share := TruncDiv(amount * ratios[i], total);
      BasesSoFar(amount, ratios, total, i);
      shares := shares + [share];
      remainder := remainder - share;
    }
    assert bases[..|ratios|] == bases;
  }

  /** The second loop: the leftover, one unit at a time, to the largest ratios first. */
  method HandOut(bases: seq<int>, ratios: seq<int>, remainder: int) returns (shares: seq<int>)
    requires |bases| == |ratios| && Magnitude(remainder) <= |ratios|
    ensures shares == Bumped(bases, ratios, Sign(remainder), Magnitude(remainder))
  {
    shares := bases;
    var order, step := Order(ratios), Sign(remainder);
    hide Order;
    for i := 0 to Magnitude(remainder)
      invariant shares == Bumped(bases, ratios, step, i)
    {
      var target := order[i % |order|];
      NoWrap(i, |order|);
      BumpNext(bases, ratios, step, i);
      shares := shares[target := shares[target] + step];
    }
  }

  method Allocate(amount: int, ratios: seq<int>) returns (result: Allocation)
    ensures ratios == [] <==> result == NoRatios
    ensures ratios != [] && !AllNonNegative(ratios) <==> result == NegativeRatio
    ensures ratios != [] && AllNonNegative(ratios) && Sum(ratios) <= 0 <==> result == RatiosSumToZero
    ensures Splittable(ratios) ==> result == Shares(Allocated(amount, ratios))
  {
    if |ratios| == 0 { return NoRatios; }
    if exists i | 0 <= i < |ratios| :: ratios[i] < 0 { return NegativeRatio; }
    var total := Sum(ratios);
    if total <= 0 { return RatiosSumToZero; }
    LeftoverNeverWraps(amount, ratios);
    var bases, remainder := RoundShares(amount, ratios, total);
    var shares := HandOut(bases, ratios, remainder);
    return Shares(shares);
  }
}
