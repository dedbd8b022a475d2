/** The append-only audit log, and the trail one person may read. */
module AuditTrail {
  import opened Basics
  import opened Ordering

  type UserId = nat

  /** One stored entry. `target` is the account acted on, when the target is an account. */
  datatype Entry = Entry(
    id: int, actor: Option<UserId>, action: string, targetType: string, target: UserId,
    reason: Option<string>, ipAddress: Option<string>, session: Option<string>, createdAt: int)

  datatype By = Subject | Administrator | System

  /** What a person's own entry discloses to them. */
  datatype RecordedEntry = RecordedEntry(
    id: int, action: string, targetType: string, reason: Option<string>,
    ipAddress: Option<string>, session: Option<string>, createdAt: int)

  /** What somebody else's entry about them does. */
  datatype DisclosedEntry = DisclosedEntry(
    id: int, action: string, targetType: string, reason: Option<string>, createdAt: int, byAnotherUser: bool)

  datatype ActivityRecord = ActivityRecord(
    id: int, action: string, targetType: string, reason: Option<string>,
    ipAddress: Option<string>, session: Option<string>, createdAt: int, actedBy: By)

  /** Newest first, then by descending id. */
  function KeyOf(e: Entry): Key {
    Key(-e.createdAt, -e.id)
  }

  function RecordKey(r: ActivityRecord): Key {
    Key(-r.createdAt, -r.id)
  }

  predicate IsOwn(e: Entry, user: UserId) {
    e.actor == Some(user)
  }

  predicate IsDisclosed(e: Entry, user: UserId) {
    e.target == user && (e.actor.None? || e.actor.value != user)
  }

  predicate Mine(e: Entry, user: UserId, own: bool) {
    if own then IsOwn(e, user) else IsDisclosed(e, user)
  }

  /** The keys of one side of a person's trail. */
  ghost function Side(entries: seq<Entry>, user: UserId, own: bool): (keys: set<Key>)
    ensures forall k | k in keys :: exists e :: e in entries && Mine(e, user, own) && KeyOf(e) == k
  {
    if entries == [] then {}
    else
      var n := |entries| - 1;
      assert entries == entries[..n] + [entries[n]];
      Side(entries[..n], user, own) + if Mine(entries[n], user, own) then {KeyOf(entries[n])} else {}
  }

  /** Everything on one account: what they did, and what was done to them. */
  ghost function Trail(entries: seq<Entry>, user: UserId): set<Key> {
    Side(entries, user, true) + Side(entries, user, false)
  }

  ghost predicate DistinctIds(entries: seq<Entry>) {
    forall i, j | 0 <= i < j < |entries| :: entries[i].id != entries[j].id
  }

  // ---- What a bounded read promises -------------------------------------------------------------

  /** `xs` are the newest `n` of `s`, newest first. Entries of one instant come in any order, and
      which of them fall before the cut is the store's choice. */
  ghost predicate IsNewest(s: set<Key>, n: nat, xs: seq<Key>) {
    && |xs| == AtMost(n, |s|)
    && |Elements(xs)| == |xs| && Elements(xs) <= s
    && (forall i, j | 0 <= i < j < |xs| :: xs[i].major <= xs[j].major)
    && (forall x, y | x in Elements(xs) && y in s - Elements(xs) :: x.major <= y.major)
  }

  /** What the store reads if it also breaks ties on the id. */
  ghost function Newest(s: set<Key>, n: nat): (xs: seq<Key>)
    ensures Ascending(xs) && |xs| == AtMost(n, |s|)
  {
    CutListing(Ordered(s), AtMost(n, |s|));
    Ordered(s)[..AtMost(n, |s|)]
  }

  lemma NewestIsNewest(s: set<Key>, n: nat)
    ensures IsNewest(s, n, Newest(s, n))
  {
    hide Ordered, Ascending, Elements;
    var m := AtMost(n, |s|);
    var page := Ordered(s)[..m];
    OrderedRest(s, m);
    AscendingMajors(page) by { assert page == Newest(s, n); }
    forall x, y | x in Elements(page) && y in s - Elements(page)
      ensures x.major <= y.major
    {
      InFirst(s, m, x, y);
    }
    PageIsNewest(s, n, page);
  }

  lemma InFirst(s: set<Key>, m: nat, x: Key, y: Key)
    requires m <= |s| && x in Elements(Ordered(s)[..m]) && y in s && y !in Elements(Ordered(s)[..m])
    ensures x.major <= y.major
  {
    hide Ordered, Ascending;
    CutSeparates(s, m, x, y);
  }

  // ---- Merging two bounded reads ----------------------------------------------------------------

  /** A full read that does not fill the merged page leaves one of its entries behind. */
  lemma OneIsLeftBehind(xs: seq<Key>, page: seq<Key>, x: Key) returns (left: Key)
    requires |Elements(xs)| == |xs| && |page| <= |xs|
    requires x in page && x !in xs
    ensures left in xs && left !in page
  {
    if forall k | k in xs :: k in page {
      Cardinality(Elements(xs), Elements(page) - {x});
      DistinctCount(page);
      assert false;
    }
    left :| left in xs && left !in page;
  }

  ghost function Merged(xs: seq<Key>, ys: seq<Key>): (zs: seq<Key>)
    ensures Elements(zs) == Elements(xs) + Elements(ys) && |zs| == |xs| + |ys|
  {
    ElementsOfConcat(xs, ys);
    Sort(xs + ys)
  }

  lemma MergedAscends(xs: seq<Key>, ys: seq<Key>)
    requires |Elements(xs)| == |xs| && |Elements(ys)| == |ys| && Elements(xs) !! Elements(ys)
    ensures Ascending(Merged(xs, ys))
  {
    ElementsOfConcat(xs, ys);
  }

  lemma FullWhenUnread(s: set<Key>, n: nat, xs: seq<Key>, y: Key)
    requires IsNewest(s, n, xs) && y in s && y !in xs
    ensures |xs| == n && |Elements(xs)| == |xs| && forall x | x in xs :: x.major <= y.major
  {
    Cardinality(Elements(xs), s - {y});
    assert forall x | x in xs :: x in Elements(xs);
  }

  lemma CutPrecedes(zs: seq<Key>, k: nat, x: Key, y: Key)
    requires Ascending(zs) && k <= |zs| && x in zs[..k] && y in zs && y !in zs[..k]
    ensures x.major <= y.major
  {
    CutListing(zs, k);
    assert y in Elements(zs);
  }

  /** Nothing kept is older than anything one side left unread. */
  lemma KeptBeforeUnread(s: set<Key>, n: nat, xs: seq<Key>, ys: seq<Key>, k: nat, x: Key, y: Key)
    requires IsNewest(s, n, xs) && Ascending(Merged(xs, ys)) && k <= n && k <= |Merged(xs, ys)|
    requires x in Merged(xs, ys)[..k] && y in s && y !in xs
    ensures x.major <= y.major
  {
    var zs := Merged(xs, ys);
    hide Merged, IsNewest, Ascending;
    FullWhenUnread(s, n, xs, y);
    if x !in xs {
      var left := OneIsLeftBehind(xs, zs[..k], x);
      assert left in Elements(zs);
      CutPrecedes(zs, k, x, left);
    }
  }

  lemma UnionSize(s: set<Key>, t: set<Key>)
    requires s !! t
    ensures |s + t| == |s| + |t|
  {
  }

  lemma AscendingMajors(zs: seq<Key>)
    requires Ascending(zs)
    ensures forall i, j | 0 <= i < j < |zs| :: zs[i].major <= zs[j].major
  {
  }

  lemma MergePageCount(s: set<Key>, t: set<Key>, n: nat, xs: seq<Key>, ys: seq<Key>)
    requires s !! t && |xs| == AtMost(n, |s|) && |ys| == AtMost(n, |t|)
    ensures AtMost(n, |xs| + |ys|) == AtMost(n, |s + t|)
  {
    UnionSize(s, t);
  }

  /** The newest n of each side hold the newest n of both together. */
  lemma MergeIsNewest(s: set<Key>, t: set<Key>, n: nat, xs: seq<Key>, ys: seq<Key>)
    requires s !! t && IsNewest(s, n, xs) && IsNewest(t, n, ys)
    ensures Ascending(Merged(xs, ys))
    ensures IsNewest(s + t, n, Merged(xs, ys)[..AtMost(n, |xs| + |ys|)])
  {
    var zs, k := Merged(xs, ys), AtMost(n, |xs| + |ys|);
    MergedAscends(xs, ys);
    MergePageCount(s, t, n, xs, ys);
    var page := zs[..k];
    CutListing(zs, k);
    AscendingMajors(page);
    forall x, y | x in Elements(page) && y in (s + t) - Elements(page)
      ensures x.major <= y.major
    {
      KeptIsNewer(s, t, n, xs, ys, x, y);
    }
    hide IsNewest, Merged;
    assert Elements(page) <= s + t by {
      SidesHold(s, t, n, xs, ys);
    }
    PageIsNewest(s + t, n, page);
  }

  lemma SidesHold(s: set<Key>, t: set<Key>, n: nat, xs: seq<Key>, ys: seq<Key>)
    requires IsNewest(s, n, xs) && IsNewest(t, n, ys)
    ensures Elements(Merged(xs, ys)) <= s + t
  {
  }

  lemma PageIsNewest(s: set<Key>, n: nat, page: seq<Key>)
    requires |page| == AtMost(n, |s|) && |Elements(page)| == |page| && Elements(page) <= s
    requires forall i, j | 0 <= i < j < |page| :: page[i].major <= page[j].major
    requires forall x, y | x in Elements(page) && y in s - Elements(page) :: x.major <= y.major
    ensures IsNewest(s, n, page)
  {
  }

  lemma KeptIsNewer(s: set<Key>, t: set<Key>, n: nat, xs: seq<Key>, ys: seq<Key>, x: Key, y: Key)
    requires s !! t && IsNewest(s, n, xs) && IsNewest(t, n, ys) && Ascending(Merged(xs, ys))
    requires var page := Merged(xs, ys)[..AtMost(n, |xs| + |ys|)];
             x in page && y in s + t && y !in page
    ensures x.major <= y.major
  {
    var zs, k := Merged(xs, ys), AtMost(n, |xs| + |ys|);
    if y in zs {
      CutListing(zs, k);
      assert y in Elements(zs);
    } else {
      hide Merged;
      assert y !in Elements(xs) && y !in Elements(ys);
      MergedCommutes(xs, ys);
      if y in s {
        KeptBeforeUnread(s, n, xs, ys, k, x, y);
      } else {
        KeptBeforeUnread(t, n, ys, xs, k, x, y);
      }
    }
  }

  lemma MergedCommutes(xs: seq<Key>, ys: seq<Key>)
    requires Ascending(Merged(xs, ys))
    ensures Merged(ys, xs) == Merged(xs, ys)
  {
    AscendingCount(Merged(xs, ys));
    ElementsOfConcat(ys, xs);
    assert Elements(ys + xs) == Elements(Merged(xs, ys));
    AscendingUnique(Merged(xs, ys), Merged(ys, xs));
  }

  /** A shorter page of the same read. */
  lemma PrefixIsNewest(s: set<Key>, n: nat, xs: seq<Key>, m: nat)
    requires IsNewest(s, n, xs) && Ascending(xs) && m <= n
    ensures IsNewest(s, m, xs[..AtMost(m, |xs|)])
  {
    var k := AtMost(m, |xs|);
    CutListing(xs, k);
    AscendingMajors(xs);
    var page := xs[..k];
    forall x, y | x in Elements(page) && y in s - Elements(page)
      ensures x.major <= y.major
    {
      assert x in Elements(xs);
      assert y in Elements(xs) ==> y in Elements(xs[k..]);
    }
    PageIsNewest(s, m, page);
  }

  lemma NewestFacts(s: set<Key>, n: nat)
    ensures Elements(Newest(s, n)) <= s && |Elements(Newest(s, n))| == AtMost(n, |s|)
  {
    OrderedRest(s, AtMost(n, |s|));
  }

  /** An entry of the overall top n is in the top n of its own side. */
  lemma TopIsRead(s: set<Key>, t: set<Key>, n: nat, z: Key)
    requires z in Ordered(s + t)[..AtMost(n, |s + t|)] && z in s
    ensures z in Newest(s, n)
  {
    hide *;
    var all, k, xs := Ordered(s + t), AtMost(n, |s + t|), Newest(s, n);
    NewestFacts(s, n);
    OrderedRest(s + t, k);
    forall x | x in xs && z !in xs
      ensures x in all[..k]
    {
      ReadIsKept(s, t, n, z, x);
    }
    NoRoomForOneMore(s, n, xs, all[..k], z);
  }

  lemma NoRoomForOneMore(s: set<Key>, n: nat, xs: seq<Key>, top: seq<Key>, z: Key)
    requires Elements(xs) <= s && |Elements(xs)| == AtMost(n, |s|) && |Elements(top)| <= n
    requires z in s && z in top && (z !in xs ==> forall x | x in xs :: x in top)
    ensures z in xs
  {
    if z !in xs {
      Cardinality(Elements(xs), Elements(top) - {z});
      Cardinality(Elements(xs), s - {z});
    }
  }

  lemma ReadIsKept(s: set<Key>, t: set<Key>, n: nat, z: Key, x: Key)
    requires z in Ordered(s + t)[..AtMost(n, |s + t|)] && z in s && z !in Newest(s, n) && x in Newest(s, n)
    ensures x in Ordered(s + t)[..AtMost(n, |s + t|)] && x != z
  {
    hide Ordered, Ascending;
    CutSeparates(s, AtMost(n, |s|), x, z);
    NewestFacts(s, n);
    assert x in Elements(Newest(s, n));
    if x !in Ordered(s + t)[..AtMost(n, |s + t|)] {
      CutSeparates(s + t, AtMost(n, |s + t|), z, x);
    }
  }

  lemma TopsAreRead(s: set<Key>, t: set<Key>, n: nat)
    ensures Elements(Ordered(s + t)[..AtMost(n, |s + t|)]) <= Elements(Newest(s, n)) + Elements(Newest(t, n))
    ensures Elements(Newest(s, n)) + Elements(Newest(t, n)) <= s + t
  {
    hide Ordered, Newest, Ascending;
    var k := AtMost(n, |s + t|);
    OrderedRest(s + t, k);
    forall z | z in Elements(Ordered(s + t)[..k])
      ensures z in Elements(Newest(s, n)) + Elements(Newest(t, n))
    {
      assert z in s + t;
      if z in s {
        TopIsRead(s, t, n, z);
      } else {
        assert t + s == s + t;
        TopIsRead(t, s, n, z);
      }
    }
    NewestFacts(s, n);
    NewestFacts(t, n);
  }

  /** With the store breaking ties as the service does, the merged page is the one page there is. */
  lemma MergeIsExact(s: set<Key>, t: set<Key>, n: nat)
    requires s !! t
    ensures Merged(Newest(s, n), Newest(t, n))[..AtMost(n, |Newest(s, n)| + |Newest(t, n)|)] == Newest(s + t, n)
  {
    var xs, ys, k := Newest(s, n), Newest(t, n), AtMost(n, |s + t|);
    hide Ordered, Ascending, Merged;
    var w := Elements(xs) + Elements(ys);
    NewestFacts(s, n);
    NewestFacts(t, n);
    TopsAreRead(s, t, n);
    MergePageCount(s, t, n, xs, ys);
    FirstOfSubset(Ordered(s + t), w, k);
    MergedAscends(xs, ys);
    AscendingUnique(Merged(xs, ys), Ordered(w));
  }

  ghost function NewerThan(s: set<Key>, c: int): set<Key> {
    set x | x in s && x.major < c
  }

  /** Two readings of one trail show the same instants, and differ only in entries of the last one. */
  lemma PagesDifferOnlyAtTheCut(s: set<Key>, n: nat, p: seq<Key>, q: seq<Key>, i: nat)
    requires IsNewest(s, n, p) && IsNewest(s, n, q) && Ascending(p) && Ascending(q) && i < |p|
    ensures |p| == |q| && p[i].major == q[i].major
    ensures p[i] == q[i] || p[i].major == p[|p| - 1].major
  {
    hide IsNewest, Ascending, NewerThan;
    CutsNoLater(s, n, p, q);
    CutsNoLater(s, n, q, p);
    StartsWithNewer(s, n, p, i);
    StartsWithNewer(s, n, q, i);
  }

  lemma CutsNoLater(s: set<Key>, n: nat, p: seq<Key>, q: seq<Key>)
    requires IsNewest(s, n, p) && IsNewest(s, n, q) && p != []
    ensures |p| == |q| && q[|q| - 1].major <= p[|p| - 1].major
  {
    var last := q[|q| - 1];
    if p[|p| - 1].major < last.major {
      assert last in Elements(q);
      forall x | x in Elements(p)
        ensures x in Elements(q) - {last}
      {
        assert x.major <= p[|p| - 1].major;
      }
      Cardinality(Elements(p), Elements(q) - {last});
    }
  }

  lemma NewerIsKept(s: set<Key>, n: nat, p: seq<Key>)
    requires IsNewest(s, n, p) && p != []
    ensures var c := p[|p| - 1].major;
            NewerThan(s, c) <= Elements(p) && forall x | x in Elements(p) - NewerThan(s, c) :: x.major == c
  {
    var last := p[|p| - 1];
    assert last in Elements(p);
    forall x | x in Elements(p)
      ensures x.major <= last.major && x in s
    {
      var i :| 0 <= i < |p| && p[i] == x;
    }
  }

  lemma StartsWithNewer(s: set<Key>, n: nat, p: seq<Key>, i: nat)
    requires IsNewest(s, n, p) && Ascending(p) && i < |p|
    ensures var newer := NewerThan(s, p[|p| - 1].major);
            |newer| <= |p|
            && if i < |newer| then p[i] == Ordered(newer)[i] else p[i].major == p[|p| - 1].major
  {
    hide *;
    var c := p[|p| - 1].major;
    var newer := NewerThan(s, c);
    NewerIsKept(s, n, p);
    NewerAreNewer(s, c);
    NewerComesFirst(p, newer, c);
    var rest := Elements(p) - newer;
    if i >= |newer| { InListing(rest, i - |newer|); }
  }

  lemma NewerAreNewer(s: set<Key>, c: int)
    ensures forall x | x in NewerThan(s, c) :: x.major < c
  {
  }

  lemma NewerComesFirst(p: seq<Key>, newer: set<Key>, c: int)
    requires Ascending(p) && newer <= Elements(p) && (forall x | x in newer :: x.major < c)
    requires forall x | x in Elements(p) - newer :: x.major == c
    ensures p == Ordered(newer) + Ordered(Elements(p) - newer)
  {
    hide Ordered, Ascending;
    var rest := Elements(p) - newer;
    assert Elements(p) == Elements(Ordered(newer)) + rest;
    ListingContinues(Ordered(newer), rest);
    AscendingUnique(p, Ordered(Elements(p)));
  }

  lemma InListing(s: set<Key>, i: nat)
    requires i < |s|
    ensures Ordered(s)[i] in s
  {
    assert Ordered(s)[i] in Elements(Ordered(s));
  }

  // ---- When there is only one page --------------------------------------------------------------

  /** An entry left out has the instant of the last one kept. */
  ghost predicate TiedAtTheCut(s: set<Key>, p: seq<Key>) {
    p != [] && exists y :: y in s && y !in p && y.major == p[|p| - 1].major
  }

  lemma UntiedIsForced(s: set<Key>, n: nat, p: seq<Key>, q: seq<Key>)
    requires IsNewest(s, n, p) && IsNewest(s, n, q) && Ascending(p) && Ascending(q) && !TiedAtTheCut(s, p)
    ensures q == p
  {
    if p != [] {
      CutsNoLater(s, n, p, q);
      forall x | x in Elements(q)
        ensures x in Elements(p)
      {
        assert x.major <= q[|q| - 1].major;
        assert p[|p| - 1] in Elements(p);
      }
      SameSize(Elements(q), Elements(p));
      hide IsNewest, TiedAtTheCut;
      AscendingUnique(p, q);
    }
  }

  lemma SameSize(a: set<Key>, b: set<Key>)
    requires a <= b && |a| == |b|
    ensures a == b
  {
    assert b == a + (b - a);
    assert |b| == |a| + |b - a|;
  }

  ghost function Exchanged(p: seq<Key>, y: Key): set<Key>
    requires p != []
  {
    Elements(p) - {p[|p| - 1]} + {y}
  }

  lemma ExchangeSeparates(s: set<Key>, n: nat, p: seq<Key>, y: Key, x: Key, z: Key)
    requires IsNewest(s, n, p) && Ascending(p) && p != [] && y.major == p[|p| - 1].major
    requires x in Exchanged(p, y) && z in s && z !in Exchanged(p, y)
    ensures x.major <= z.major
  {
    assert p[|p| - 1] in Elements(p);
    if x in p { AtMostLast(p, x); }
    hide Ascending;
  }

  lemma ExchangeSize(s: set<Key>, n: nat, p: seq<Key>, y: Key)
    requires IsNewest(s, n, p) && p != [] && y in s && y !in p
    ensures |Exchanged(p, y)| == AtMost(n, |s|) && Exchanged(p, y) <= s
  {
    assert p[|p| - 1] in Elements(p);
  }

  /** The last entry kept exchanged for one of its instant that was not. */
  lemma AnotherPage(s: set<Key>, n: nat, p: seq<Key>, y: Key) returns (q: seq<Key>)
    requires IsNewest(s, n, p) && Ascending(p) && p != []
    requires y in s && y !in p && y.major == p[|p| - 1].major
    ensures IsNewest(s, n, q) && Ascending(q) && q != p
  {
    var kept := Exchanged(p, y);
    q := Ordered(kept);
    assert y in Elements(q);
    hide Ordered, IsNewest, Exchanged, Ascending;
    ExchangeSize(s, n, p, y);
    forall x, z | x in kept && z in s - kept
      ensures x.major <= z.major
    {
      ExchangeSeparates(s, n, p, y, x, z);
    }
    AscendingMajors(q);
    PageIsNewest(s, n, q);
  }

  lemma AtMostLast(p: seq<Key>, x: Key)
    requires Ascending(p) && x in p
    ensures x.major <= p[|p| - 1].major
  {
    var i :| 0 <= i < |p| && p[i] == x;
  }

  /** However the store breaks ties there is one page, if and only if none was broken at the cut. */
  lemma WhenThePageIsDetermined(s: set<Key>, n: nat, p: seq<Key>)
    requires IsNewest(s, n, p) && Ascending(p)
    ensures (forall q | IsNewest(s, n, q) && Ascending(q) :: q == p) <==> !TiedAtTheCut(s, p)
  {
    if TiedAtTheCut(s, p) {
      var y :| y in s && y !in p && y.major == p[|p| - 1].major;
      hide IsNewest, Ascending;
      var q := AnotherPage(s, n, p, y);
    } else {
      hide IsNewest, Ascending, TiedAtTheCut;
      forall q | IsNewest(s, n, q) && Ascending(q)
        ensures q == p
      {
        UntiedIsForced(s, n, p, q);
      }
    }
  }

  // ---- Sorting values by their key --------------------------------------------------------------

  function Keys<T>(key: T -> Key, xs: seq<T>): (keys: seq<Key>)
    ensures |keys| == |xs| && forall i | 0 <= i < |xs| :: keys[i] == key(xs[i])
  {
    seq(|xs|, i requires 0 <= i < |xs| => key(xs[i]))
  }

  function PlaceBy<T(!new)>(key: T -> Key, x: T, xs: seq<T>): (ys: seq<T>)
    ensures forall y :: y in ys <==> y == x || y in xs
  {
    if xs == [] then [x]
    else
      assert forall y :: y in xs <==> y == xs[0] || y in xs[1..];
      if Less(key(x), key(xs[0])) then [x] + xs else [xs[0]] + PlaceBy(key, x, xs[1..])
  }

  function SortBy<T(!new)>(key: T -> Key, xs: seq<T>): (ys: seq<T>)
    ensures forall y :: y in ys <==> y in xs
  {
    if xs == [] then []
    else
      assert forall y :: y in xs <==> y == xs[0] || y in xs[1..];
      PlaceBy(key, xs[0], SortBy(key, xs[1..]))
  }

  lemma {:induction false} KeysOfPlaced<T(!new)>(key: T -> Key, x: T, xs: seq<T>)
    ensures Keys(key, PlaceBy(key, x, xs)) == Place(key(x), Keys(key, xs))
  {
    if xs != [] {
      KeysOfPlaced(key, x, xs[1..]);
      assert Keys(key, xs)[1..] == Keys(key, xs[1..]);
      var rest := PlaceBy(key, x, xs[1..]);
      assert Keys(key, [x] + xs) == [key(x)] + Keys(key, xs);
      assert Keys(key, [xs[0]] + rest) == [key(xs[0])] + Keys(key, rest);
    }
  }

  lemma {:induction false} KeysOfSorted<T(!new)>(key: T -> Key, xs: seq<T>)
    ensures Keys(key, SortBy(key, xs)) == Sort(Keys(key, xs))
  {
    if xs != [] {
      KeysOfSorted(key, xs[1..]);
      assert Keys(key, xs)[1..] == Keys(key, xs[1..]);
      KeysOfPlaced(key, xs[0], SortBy(key, xs[1..]));
      hide Place, PlaceBy;
    }
  }

  lemma KeysOfConcat<T>(key: T -> Key, xs: seq<T>, ys: seq<T>)
    ensures Keys(key, xs + ys) == Keys(key, xs) + Keys(key, ys)
  {
  }

  // ---- The store --------------------------------------------------------------------------------

  function AsRecorded(e: Entry): RecordedEntry {
    RecordedEntry(e.id, e.action, e.targetType, e.reason, e.ipAddress, e.session, e.createdAt)
  }

  function AsDisclosed(e: Entry): DisclosedEntry {
    DisclosedEntry(e.id, e.action, e.targetType, e.reason, e.createdAt, e.actor.Some?)
  }

  function AsOwnAction(e: RecordedEntry): ActivityRecord {
    ActivityRecord(e.id, e.action, e.targetType, e.reason, e.ipAddress, e.session, e.createdAt, Subject)
  }

  function AsDisclosure(e: DisclosedEntry): ActivityRecord {
    ActivityRecord(e.id, e.action, e.targetType, e.reason, None, None, e.createdAt,
                   if e.byAnotherUser then Administrator else System)
  }

  /** An entry as `user` sees it on their own trail. */
  function Seen(e: Entry, user: UserId): ActivityRecord {
    if IsOwn(e, user) then AsOwnAction(AsRecorded(e)) else AsDisclosure(AsDisclosed(e))
  }

  function Wanted(entries: seq<Entry>, user: UserId, own: bool): (found: seq<Entry>)
    ensures forall e :: e in found <==> e in entries && Mine(e, user, own)
  {
    if entries == [] then []
    else
      var n := |entries| - 1;
      assert entries == entries[..n] + [entries[n]];
      Wanted(entries[..n], user, own) + if Mine(entries[n], user, own) then [entries[n]] else []
  }

  lemma {:induction false} WantedKeys(entries: seq<Entry>, user: UserId, own: bool)
    ensures Elements(Keys(KeyOf, Wanted(entries, user, own))) == Side(entries, user, own)
  {
    hide KeyOf, Mine;
    if entries != [] {
      var n := |entries| - 1;
      var front := Wanted(entries[..n], user, own);
      WantedKeys(entries[..n], user, own);
      KeysOfConcat(KeyOf, front, [entries[n]]);
      ElementsOfConcat(Keys(KeyOf, front), Keys(KeyOf, [entries[n]]));
      assert Keys(KeyOf, [entries[n]]) == [KeyOf(entries[n])];
      assert front + [] == front;
    }
  }

  lemma NewIdNewKey(front: seq<Entry>, e: Entry, user: UserId, own: bool)
    requires forall x | x in front :: x.id != e.id
    ensures KeyOf(e) !in Side(front, user, own)
  {
  }

  lemma {:induction false} WantedIsDistinct(entries: seq<Entry>, user: UserId, own: bool)
    requires DistinctIds(entries)
    ensures |Side(entries, user, own)| == |Wanted(entries, user, own)|
  {
    hide KeyOf, Mine;
    if entries != [] {
      var n := |entries| - 1;
      WantedIsDistinct(entries[..n], user, own);
      NewIdNewKey(entries[..n], entries[n], user, own);
    }
  }

  /** `where ... order by createdAt desc take limit`, as one listing the store may return. */
  function Fetch(entries: seq<Entry>, user: UserId, own: bool, limit: nat): (rows: seq<Entry>)
    ensures forall e | e in rows :: e in entries && Mine(e, user, own)
  {
    var sorted := SortBy(KeyOf, Wanted(entries, user, own));
    sorted[..AtMost(limit, |sorted|)]
  }

  lemma KeysOfPrefix<T>(key: T -> Key, xs: seq<T>, n: nat)
    requires n <= |xs|
    ensures Keys(key, xs[..n]) == Keys(key, xs)[..n]
  {
  }

  lemma FetchIsNewest(entries: seq<Entry>, user: UserId, own: bool, limit: nat)
    requires DistinctIds(entries)
    ensures IsNewest(Side(entries, user, own), limit, Keys(KeyOf, Fetch(entries, user, own, limit)))
  {
    hide Wanted, Side, SortBy, Sort, IsNewest, DistinctIds, Keys, Elements, Ordered, Ascending, KeyOf;
    var found, side := Wanted(entries, user, own), Side(entries, user, own);
    var sorted := SortBy(KeyOf, found);
    WantedKeys(entries, user, own);
    WantedIsDistinct(entries, user, own);
    KeysOfSorted(KeyOf, found);
    AscendingUnique(Sort(Keys(KeyOf, found)), Ordered(side));
    KeysOfPrefix(KeyOf, sorted, AtMost(limit, |sorted|));
    NewestIsNewest(side, limit);
  }

  function RecordedKey(r: RecordedEntry): Key {
    Key(-r.createdAt, -r.id)
  }

  function DisclosedKey(r: DisclosedEntry): Key {
    Key(-r.createdAt, -r.id)
  }

  function AllRecorded(found: seq<Entry>): (rows: seq<RecordedEntry>)
    ensures forall r | r in rows :: exists e :: e in found && r == AsRecorded(e)
    ensures Keys(RecordedKey, rows) == Keys(KeyOf, found)
  {
    seq(|found|, i requires 0 <= i < |found| => AsRecorded(found[i]))
  }

  function AllDisclosed(found: seq<Entry>): (rows: seq<DisclosedEntry>)
    ensures forall r | r in rows :: exists e :: e in found && r == AsDisclosed(e)
    ensures Keys(DisclosedKey, rows) == Keys(KeyOf, found)
  {
    seq(|found|, i requires 0 <= i < |found| => AsDisclosed(found[i]))
  }

  class AuditLog {
    var entries: seq<Entry>

    ghost predicate Valid()
      reads this
    {
      DistinctIds(entries)
    }

    constructor ()
      ensures Valid() && entries == []
    {
      entries := [];
    }

    /** The only write there is: the log grows by one and nothing in it changes. */
    method Record(e: Entry)
      requires Valid() && forall x | x in entries :: x.id != e.id
      modifies this
      ensures Valid() && entries == old(entries) + [e]
    {
      entries := entries + [e];
    }

    method ListForActor(user: UserId, limit: nat) returns (rows: seq<RecordedEntry>)
      requires Valid()
      ensures IsNewest(Side(entries, user, true), limit, Keys(RecordedKey, rows))
      ensures forall r | r in rows :: exists e :: e in entries && IsOwn(e, user) && r == AsRecorded(e)
    {
      hide IsNewest, Keys, Fetch, AllRecorded, Side, AsRecorded, KeyOf, RecordedKey;
      var found := Fetch(entries, user, true, limit);
      FetchIsNewest(entries, user, true, limit);
      rows := AllRecorded(found);
      forall r | r in rows
        ensures exists e :: e in entries && IsOwn(e, user) && r == AsRecorded(e)
      {
        var e :| e in found && r == AsRecorded(e);
        assert Mine(e, user, true);
      }
    }

    method ListForSubject(user: UserId, limit: nat) returns (rows: seq<DisclosedEntry>)
      requires Valid()
      ensures IsNewest(Side(entries, user, false), limit, Keys(DisclosedKey, rows))
      ensures forall r | r in rows :: exists e :: e in entries && IsDisclosed(e, user) && r == AsDisclosed(e)
    {
      hide IsNewest, Keys, Fetch, AllDisclosed, Side, AsDisclosed, KeyOf, DisclosedKey;
      var found := Fetch(entries, user, false, limit);
      FetchIsNewest(entries, user, false, limit);
      rows := AllDisclosed(found);
      forall r | r in rows
        ensures exists e :: e in entries && IsDisclosed(e, user) && r == AsDisclosed(e)
      {
        var e :| e in found && r == AsDisclosed(e);
        assert Mine(e, user, false);
      }
    }
  }

  // ---- The service ------------------------------------------------------------------------------

  /** `r` is some entry of the user's trail, as they see it. */
  ghost predicate Shows(entries: seq<Entry>, user: UserId, r: ActivityRecord) {
    exists e :: e in entries && (IsOwn(e, user) || IsDisclosed(e, user)) && r == Seen(e, user)
  }

  function OwnActions(rows: seq<RecordedEntry>): (records: seq<ActivityRecord>)
    ensures forall r | r in records :: exists e :: e in rows && r == AsOwnAction(e)
    ensures Keys(RecordKey, records) == Keys(RecordedKey, rows)
  {
    seq(|rows|, i requires 0 <= i < |rows| => AsOwnAction(rows[i]))
  }

  function Disclosures(rows: seq<DisclosedEntry>): (records: seq<ActivityRecord>)
    ensures forall r | r in records :: exists e :: e in rows && r == AsDisclosure(e)
    ensures Keys(RecordKey, records) == Keys(DisclosedKey, rows)
  {
    seq(|rows|, i requires 0 <= i < |rows| => AsDisclosure(rows[i]))
  }

  /** One state of the log came before the other, and nothing but appending happened in between. */
  ghost predicate TwoMoments(a: seq<Entry>, b: seq<Entry>) {
    DistinctIds(a) && DistinctIds(b) && (a <= b || b <= a)
  }

  /** No entry is on both sides of a person's trail, even read at two moments. */
  lemma SidesAreDisjoint(ownAt: seq<Entry>, disclosedAt: seq<Entry>, user: UserId)
    requires TwoMoments(ownAt, disclosedAt)
    ensures Side(ownAt, user, true) !! Side(disclosedAt, user, false)
  {
    hide Side;
    var all := if ownAt <= disclosedAt then disclosedAt else ownAt;
    forall k | k in Side(ownAt, user, true)
      ensures k !in Side(disclosedAt, user, false)
    {
      var e :| e in ownAt && Mine(e, user, true) && KeyOf(e) == k;
      assert e in all;
      assert forall f | f in all && KeyOf(f) == k :: f == e;
    }
  }

  lemma {:induction false} SideGrows(entries: seq<Entry>, k: nat, user: UserId, own: bool)
    requires k <= |entries|
    ensures Side(entries[..k], user, own) <= Side(entries, user, own)
    decreases |entries|
  {
    if k == |entries| {
      assert entries[..k] == entries;
    } else {
      SideGrows(entries[..|entries| - 1], k, user, own);
      assert entries[..|entries| - 1][..k] == entries[..k];
    }
  }

  /** Reading the two sides at two moments gives a trail between those of the moments. */
  lemma BetweenTheTrails(earlier: seq<Entry>, later: seq<Entry>, user: UserId, own: bool)
    requires earlier <= later
    ensures var mixed := Side(earlier, user, own) + Side(later, user, !own);
            Trail(earlier, user) <= mixed <= Trail(later, user)
  {
    hide Side;
    assert later[..|earlier|] == earlier;
    SideGrows(later, |earlier|, user, true);
    SideGrows(later, |earlier|, user, false);
  }

  lemma MergedRecords(s: set<Key>, t: set<Key>, limit: nat, own: seq<ActivityRecord>, disclosed: seq<ActivityRecord>)
    requires s !! t
    requires IsNewest(s, limit, Keys(RecordKey, own)) && IsNewest(t, limit, Keys(RecordKey, disclosed))
    ensures var records := SortBy(RecordKey, own + disclosed);
            && Ascending(Keys(RecordKey, records))
            && |records| == AtMost(limit, |s|) + AtMost(limit, |t|)
            && IsNewest(s + t, limit, Keys(RecordKey, records)[..AtMost(limit, |records|)])
  {
    var xs, ys := Keys(RecordKey, own), Keys(RecordKey, disclosed);
    assert |xs| == AtMost(limit, |s|) && |ys| == AtMost(limit, |t|);
    hide IsNewest, SortBy, Sort, Keys, Ascending;
    KeysOfConcat(RecordKey, own, disclosed);
    KeysOfSorted(RecordKey, own + disclosed);
    MergeIsNewest(s, t, limit, xs, ys);
  }

  /** The merge, of two reads that need not have seen the same log. */
  method MergeReads(
    own: seq<RecordedEntry>, disclosed: seq<DisclosedEntry>,
    ghost ownAt: seq<Entry>, ghost disclosedAt: seq<Entry>, user: UserId, limit: nat)
    returns (records: seq<ActivityRecord>)
    requires TwoMoments(ownAt, disclosedAt)
    requires IsNewest(Side(ownAt, user, true), limit, Keys(RecordedKey, own))
    requires IsNewest(Side(disclosedAt, user, false), limit, Keys(DisclosedKey, disclosed))
    ensures Ascending(Keys(RecordKey, records))
    ensures |records| == AtMost(limit, |Side(ownAt, user, true)|) + AtMost(limit, |Side(disclosedAt, user, false)|)
    ensures IsNewest(Side(ownAt, user, true) + Side(disclosedAt, user, false), limit,
                     Keys(RecordKey, records)[..AtMost(limit, |records|)])
    ensures forall r :: r in records <==> r in OwnActions(own) + Disclosures(disclosed)
  {
    hide Side, IsNewest, SortBy, Keys, Ascending, OwnActions, Disclosures, TwoMoments;
    SidesAreDisjoint(ownAt, disclosedAt, user);
    MergedRecords(Side(ownAt, user, true), Side(disclosedAt, user, false), limit,
                  OwnActions(own), Disclosures(disclosed));
    records := SortBy(RecordKey, OwnActions(own) + Disclosures(disclosed));
  }

  method ActivityFor(log: AuditLog, user: UserId, limit: nat) returns (records: seq<ActivityRecord>)
    requires log.Valid()
    ensures Ascending(Keys(RecordKey, records))
    ensures |records| == AtMost(limit, |Side(log.entries, user, true)|)
                         + AtMost(limit, |Side(log.entries, user, false)|)
    ensures IsNewest(Trail(log.entries, user), limit, Keys(RecordKey, records)[..AtMost(limit, |records|)])
    ensures forall r | r in records :: Shows(log.entries, user, r)
  {
    hide Side, IsOwn, IsDisclosed, IsNewest, Keys, Ascending, Shows, AsRecorded, AsDisclosed, OwnActions, Disclosures;
    var own := log.ListForActor(user, limit);
    var disclosed := log.ListForSubject(user, limit);
    AllShown(log.entries, user, own, disclosed);
    records := MergeReads(own, disclosed, log.entries, log.entries, user, limit);
  }

  lemma AllShown(entries: seq<Entry>, user: UserId, own: seq<RecordedEntry>, disclosed: seq<DisclosedEntry>)
    requires forall r | r in own :: exists e :: e in entries && IsOwn(e, user) && r == AsRecorded(e)
    requires forall r | r in disclosed :: exists e :: e in entries && IsDisclosed(e, user) && r == AsDisclosed(e)
    ensures forall r | r in OwnActions(own) + Disclosures(disclosed) :: Shows(entries, user, r)
  {
    hide AsRecorded, AsDisclosed, AsOwnAction, AsDisclosure;
    forall r | r in OwnActions(own)
      ensures Shows(entries, user, r)
    {
      var row :| row in own && r == AsOwnAction(row);
      var e :| e in entries && IsOwn(e, user) && row == AsRecorded(e);
      assert r == Seen(e, user);
    }
    forall r | r in Disclosures(disclosed)
      ensures Shows(entries, user, r)
    {
      var row :| row in disclosed && r == AsDisclosure(row);
      var e :| e in entries && IsDisclosed(e, user) && row == AsDisclosed(e);
      assert r == Seen(e, user);
    }
  }

  // ---- Pages and exports ------------------------------------------------------------------------

  const DEFAULT_ACTIVITY_LIMIT := 50
  const MAX_ACTIVITY_LIMIT := 200
  const EXPORTED_ACTIVITY_LIMIT := 1000

  /** A page size as a request carries it: a number, or not a finite one. */
  datatype Requested = Finite(number: real) | NotFinite

  function Trunc(x: real): int {
    if x < 0.0 then -((-x).Floor) else x.Floor
  }

  function BoundedLimit(requested: Requested, fallback: nat, max: nat): (n: nat)
    requires 1 <= fallback <= max
    ensures 1 <= n <= max
    ensures requested.NotFinite? ==> n == fallback
    ensures requested.Finite? && requested.number < 1.0 ==> n == 1
    ensures requested.Finite? && requested.number >= max as real ==> n == max
    ensures requested.Finite? && 1.0 <= requested.number < (max + 1) as real
        ==> n as real <= requested.number < (n + 1) as real
  {
    if requested.NotFinite? then fallback
    else
      var wanted := Trunc(requested.number);
      var least := if wanted > 1 then wanted else 1;
      if least < max then least else max
  }

  function Probe(limit: nat): nat {
    limit + 1
  }

  datatype Page<T> = Page(items: seq<T>, truncated: bool)

  function FitTo<T>(rows: seq<T>, limit: nat): Page<T> {
    Page(rows[..AtMost(limit, |rows|)], |rows| > limit)
  }

  /** The activity page: the newest entries of both sides together, each once. */
  method ListActivityFor(log: AuditLog, user: UserId, limit: Requested) returns (page: seq<ActivityRecord>)
    requires log.Valid()
    ensures var n := BoundedLimit(limit, 50, 200);
            IsNewest(Trail(log.entries, user), n, Keys(RecordKey, page))
    ensures Ascending(Keys(RecordKey, page))
    ensures forall r | r in page :: Shows(log.entries, user, r)
  {
    hide IsNewest, Trail, Side, Shows;
    var bounded := BoundedLimit(limit, DEFAULT_ACTIVITY_LIMIT, MAX_ACTIVITY_LIMIT);
    var records := ActivityFor(log, user, bounded);
    page := records[..AtMost(bounded, |records|)];
    KeysOfPrefix(RecordKey, records, |page|);
    CutListing(Keys(RecordKey, records), |page|);
  }

  // In terms of the entries.

  lemma {:induction false} SideHolds(entries: seq<Entry>, user: UserId, own: bool, e: Entry)
    requires e in entries && Mine(e, user, own)
    ensures KeyOf(e) in Side(entries, user, own)
  {
    hide Mine, KeyOf;
    var n := |entries| - 1;
    if e != entries[n] {
      assert entries == entries[..n] + [entries[n]];
      SideHolds(entries[..n], user, own, e);
    }
  }

  /** The trail is exactly the entries the person made or that were made about them. */
  lemma WhatATrailHolds(entries: seq<Entry>, user: UserId, k: Key)
    ensures k in Trail(entries, user)
       <==> exists e :: e in entries && (e.actor == Some(user) || e.target == user) && k == Key(-e.createdAt, -e.id)
  {
    if k in Trail(entries, user) {
      var own := k in Side(entries, user, true);
      hide Side;
      var e :| e in entries && Mine(e, user, own) && KeyOf(e) == k;
    }
    if e :| e in entries && (e.actor == Some(user) || e.target == user) && k == Key(-e.createdAt, -e.id) {
      hide Side;
      SideHolds(entries, user, e.actor == Some(user), e);
    }
  }

  /** What a person is served was made by them or about them, and carries that entry's facts. */
  lemma WhatIsServed(entries: seq<Entry>, user: UserId, r: ActivityRecord)
    requires Shows(entries, user, r)
    ensures exists e :: e in entries && (e.actor == Some(user) || e.target == user)
                     && r.id == e.id && r.createdAt == e.createdAt && r.action == e.action
                     && r.targetType == e.targetType && r.reason == e.reason
                     && (r.actedBy == Subject <==> e.actor == Some(user))
  {
  }

  /** A page in its own terms: newest first, ids breaking ties. */
  lemma NewestComesFirst(page: seq<ActivityRecord>, i: nat, j: nat)
    requires Ascending(Keys(RecordKey, page)) && i < j < |page|
    ensures page[i].createdAt > page[j].createdAt
            || (page[i].createdAt == page[j].createdAt && page[i].id > page[j].id)
  {
    assert Less(Keys(RecordKey, page)[i], Keys(RecordKey, page)[j]);
  }

  /** And nothing newer is left out. */
  lemma NothingNewerIsLeftOut(entries: seq<Entry>, user: UserId, n: nat, page: seq<ActivityRecord>, e: Entry)
    requires IsNewest(Trail(entries, user), n, Keys(RecordKey, page))
    requires e in entries && (e.actor == Some(user) || e.target == user)
    ensures (exists r :: r in page && r.id == e.id && r.createdAt == e.createdAt)
         || (|page| == n && forall r | r in page :: r.createdAt >= e.createdAt)
  {
    hide IsNewest, Trail;
    var keys, k := Keys(RecordKey, page), Key(-e.createdAt, -e.id);
    WhatATrailHolds(entries, user, k);
    if k in keys {
      var i :| 0 <= i < |keys| && keys[i] == k;
      assert page[i] in page;
    } else {
      FullWhenUnread(Trail(entries, user), n, keys, k);
      forall r | r in page
        ensures r.createdAt >= e.createdAt
      {
        var i :| 0 <= i < |page| && page[i] == r;
        assert keys[i] in keys;
      }
    }
  }

  lemma CutShorter(s: set<Key>, n: nat, keys: seq<Key>, m: nat)
    requires Ascending(keys) && IsNewest(s, n, keys[..AtMost(n, |keys|)]) && m <= n
    ensures var page := keys[..AtMost(m, |keys|)]; Ascending(page) && IsNewest(s, m, page)
  {
    hide IsNewest, Ascending, Less, Elements;
    var long, k := keys[..AtMost(n, |keys|)], AtMost(m, |keys|);
    CutListing(keys, |long|);
    CutListing(keys, k);
    PrefixIsNewest(s, n, long, m);
    assert long[..k] == keys[..k];
  }

  /** The export says it was cut exactly when the whole trail is longer than what it carries. */
  method ExportActivityFor(log: AuditLog, user: UserId) returns (page: Page<ActivityRecord>)
    requires log.Valid()
    ensures page.truncated <==> |Trail(log.entries, user)| > 1000
    ensures IsNewest(Trail(log.entries, user), 1000, Keys(RecordKey, page.items))
    ensures Ascending(Keys(RecordKey, page.items))
    ensures forall r | r in page.items :: Shows(log.entries, user, r)
  {
    hide IsNewest, Side, Shows, Ascending, Keys, RecordKey;
    var probed := Probe(EXPORTED_ACTIVITY_LIMIT);
    var rows := ActivityFor(log, user, probed);
    page := FitTo(rows, EXPORTED_ACTIVITY_LIMIT);
    SidesAreDisjoint(log.entries, log.entries, user);
    UnionSize(Side(log.entries, user, true), Side(log.entries, user, false));
    CutShorter(Trail(log.entries, user), probed, Keys(RecordKey, rows), EXPORTED_ACTIVITY_LIMIT);
    KeysOfPrefix(RecordKey, rows, |page.items|);
  }

  /** Nothing else about an entry is lost or altered, and a person's own entry is shown to them whole. */
  lemma SeenKeepsTheFacts(e: Entry, user: UserId)
    ensures var r := Seen(e, user);
            && r.id == e.id && r.createdAt == e.createdAt && RecordKey(r) == KeyOf(e)
            && r.action == e.action && r.targetType == e.targetType && r.reason == e.reason
            && (r.actedBy == Subject <==> IsOwn(e, user))
            && (IsOwn(e, user) ==> r.ipAddress == e.ipAddress && r.session == e.session)
  {
  }

  /** Whatever address and session another actor had, what the reader sees is the same, and holds neither. */
  lemma OthersStayAnonymous(e: Entry, user: UserId, ipAddress: Option<string>, session: Option<string>)
    requires !IsOwn(e, user)
    ensures Seen(e.(ipAddress := ipAddress, session := session), user) == Seen(e, user)
    ensures Seen(e, user).ipAddress == None && Seen(e, user).session == None
    ensures Seen(e, user).actedBy == (if e.actor.None? then System else Administrator)
  {
  }

  lemma ShownByOthersIsAnonymous(entries: seq<Entry>, user: UserId, r: ActivityRecord)
    requires Shows(entries, user, r)
    ensures r.actedBy != Subject ==> r.ipAddress == None && r.session == None
    ensures r.actedBy == Subject <==> exists e :: e in entries && IsOwn(e, user) && r == AsOwnAction(AsRecorded(e))
  {
    var e :| e in entries && (IsOwn(e, user) || IsDisclosed(e, user)) && r == Seen(e, user);
    assert IsOwn(e, user) ==> r == AsOwnAction(AsRecorded(e));
  }
}
