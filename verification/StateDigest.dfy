/** The canonical form of a state, which is what an audit digest is taken of. */
module StateDigest {
  import opened Decimal

  /** A finite value. An object lists its members in enumeration order; a date is known by its ISO text. */
  datatype Value =
    | Null
    | Undefined
    | Bool(flag: bool)
    | Number(number: int)
    | Text(text: string)
    | Date(iso: string)
    | List(items: seq<Value>)
    | Object(members: seq<Member>)

  datatype Member = Member(key: string, value: Value)

  // ---- Orders on keys ---------------------------------------------------------------------------

  predicate TextLess(a: string, b: string) {
    b != [] && (a == [] || a[0] < b[0] || (a[0] == b[0] && TextLess(a[1..], b[1..])))
  }

  lemma {:induction false} TextOrderIsTotal(a: string, b: string)
    ensures a == b || TextLess(a, b) || TextLess(b, a)
    ensures !(TextLess(a, b) && TextLess(b, a))
    ensures a == b ==> !TextLess(a, b)
  {
    if a != [] && b != [] && a[0] == b[0] {
      TextOrderIsTotal(a[1..], b[1..]);
      assert a == [a[0]] + a[1..] && b == [b[0]] + b[1..];
    }
  }

  lemma {:induction false} TextOrderIsTransitive(a: string, b: string, c: string)
    requires TextLess(a, b) && TextLess(b, c)
    ensures TextLess(a, c)
  {
    if a != [] && a[0] == b[0] == c[0] { TextOrderIsTransitive(a[1..], b[1..], c[1..]); }
  }

  /** Alike up to `k`, where the one ends or has the lesser character. */
  ghost predicate StandsBefore(a: string, b: string, k: nat) {
    k <= |a| && k < |b| && a[..k] == b[..k] && (k == |a| || a[k] < b[k])
  }

  lemma {:induction false} WhereTheyPart(a: string, b: string) returns (k: nat)
    requires TextLess(a, b)
    ensures StandsBefore(a, b, k)
  {
    k := 0;
    if a != [] && a[0] == b[0] {
      var n := WhereTheyPart(a[1..], b[1..]);
      k := n + 1;
      assert a[..k] == [a[0]] + a[1..][..n] && b[..k] == [b[0]] + b[1..][..n];
    }
  }

  lemma {:induction false} PartingDecides(a: string, b: string, k: nat)
    requires StandsBefore(a, b, k)
    ensures TextLess(a, b)
  {
    if k > 0 {
      assert a[0] == a[..k][0] && b[0] == b[..k][0];
      assert a[1..][..k - 1] == a[..k][1..] && b[1..][..k - 1] == b[..k][1..];
      PartingDecides(a[1..], b[1..], k - 1);
    }
  }

  /** The order is by the first place at which two texts part. */
  lemma TextLessMeans(a: string, b: string)
    ensures TextLess(a, b) <==> exists k :: StandsBefore(a, b, k)
  {
    hide TextLess, StandsBefore;
    if TextLess(a, b) { var k := WhereTheyPart(a, b); }
    if k :| StandsBefore(a, b, k) { PartingDecides(a, b, k); }
  }

  const MAX_INDEX := 4_294_967_294

  /** A key that an object enumerates as an array index: digits, no leading zero, small enough. */
  predicate IsIndex(key: string) {
    key != [] && DigitSpan(key) == |key| && (key[0] != '0' || |key| == 1) && Num(key) <= MAX_INDEX
  }

  /** An index key is a number up to that bound, written the one way numbers are written. */
  lemma IndexKeysAre(key: string)
    ensures IsIndex(key) <==> exists n: nat | n <= 4_294_967_294 :: key == Str(n)
  {
    if IsIndex(key) {
      assert key[..|key|] == key;
      StrOfNum(key);
      assert key == Str(Num(key)) && Num(key) <= 4_294_967_294;
    }
    if n: nat :| n <= 4_294_967_294 && key == Str(n) {
      NumOfStr(n);
      StrHasNoLeadingZero(n);
      SpanIsForced(key, "");
      assert key + "" == key;
      assert n == 0 ==> |key| == 1;
    }
  }

  /** The order in which an object built in text order enumerates its keys. */
  predicate EnumLess(a: string, b: string) {
    if IsIndex(a) && IsIndex(b) then Num(a) < Num(b)
    else if IsIndex(a) || IsIndex(b) then IsIndex(a)
    else TextLess(a, b)
  }

  lemma SameIndexSameKey(a: string, b: string)
    requires IsIndex(a) && IsIndex(b) && Num(a) == Num(b)
    ensures a == b
  {
    assert a[..|a|] == a && b[..|b|] == b;
    StrOfNum(a);
    StrOfNum(b);
  }

  lemma EnumOrderIsTotal(a: string, b: string)
    ensures a == b || EnumLess(a, b) || EnumLess(b, a)
    ensures !(EnumLess(a, b) && EnumLess(b, a))
    ensures a == b ==> !EnumLess(a, b)
  {
    if IsIndex(a) && IsIndex(b) && Num(a) == Num(b) { SameIndexSameKey(a, b); }
    hide IsIndex, Num;
    TextOrderIsTotal(a, b);
  }

  lemma EnumOrderIsTransitive(a: string, b: string, c: string)
    requires EnumLess(a, b) && EnumLess(b, c)
    ensures EnumLess(a, c)
  {
    hide IsIndex, Num;
    if !IsIndex(a) && !IsIndex(b) && !IsIndex(c) { TextOrderIsTransitive(a, b, c); }
  }

  // ---- Building the canonical object ------------------------------------------------------------

  ghost predicate DistinctKeys(ms: seq<Member>) {
    forall i, j | 0 <= i < j < |ms| :: ms[i].key != ms[j].key
  }

  ghost predicate TextAscending(ms: seq<Member>) {
    forall i, j | 0 <= i < j < |ms| :: TextLess(ms[i].key, ms[j].key)
  }

  ghost predicate EnumAscending(ms: seq<Member>) {
    forall i, j | 0 <= i < j < |ms| :: EnumLess(ms[i].key, ms[j].key)
  }

  /** Into text order. */
  function PlaceText(m: Member, ms: seq<Member>): (r: seq<Member>)
    ensures forall x :: x in r <==> x == m || x in ms
  {
    if ms == [] then [m]
    else
      assert forall x :: x in ms <==> x == ms[0] || x in ms[1..];
      if TextLess(m.key, ms[0].key) then [m] + ms else [ms[0]] + PlaceText(m, ms[1..])
  }

  function SortText(ms: seq<Member>): (r: seq<Member>)
    ensures forall x :: x in r <==> x in ms
  {
    if ms == [] then []
    else
      assert forall x :: x in ms <==> x == ms[0] || x in ms[1..];
      PlaceText(ms[0], SortText(ms[1..]))
  }

  /** A new property joins an object: an index goes to its place, any other key to the end. */
  function Add(ms: seq<Member>, m: Member): (r: seq<Member>)
    ensures forall x :: x in r <==> x == m || x in ms
  {
    if ms == [] then [m]
    else
      assert forall x :: x in ms <==> x == ms[0] || x in ms[1..];
      if IsIndex(m.key) && (!IsIndex(ms[0].key) || Num(m.key) < Num(ms[0].key)) then [m] + ms
      else [ms[0]] + Add(ms[1..], m)
  }

  function FromEntries(ms: seq<Member>): (r: seq<Member>)
    ensures forall x :: x in r <==> x in ms
  {
    if ms == [] then []
    else
      var n := |ms| - 1;
      assert ms == ms[..n] + [ms[n]];
      Add(FromEntries(ms[..n]), ms[n])
  }

  function Defined(ms: seq<Member>): (r: seq<Member>)
    ensures forall x :: x in r <==> x in ms && !x.value.Undefined?
  {
    if ms == [] then []
    else
      assert forall x :: x in ms <==> x == ms[0] || x in ms[1..];
      (if ms[0].value.Undefined? then [] else [ms[0]]) + Defined(ms[1..])
  }

  function Canonicalise(value: Value): Value
    decreases value, 1
  {
    match value
    case List(items) => List(seq(|items|, i requires 0 <= i < |items| => Canonicalise(items[i])))
    case Date(iso) => Text(iso)
    case Object(members) =>
      var sorted := SortText(Defined(members));
      Object(FromEntries(CanonicalMembers(value, sorted)))
    case _ => value
  }

  function CanonicalMembers(value: Value, ms: seq<Member>): (r: seq<Member>)
    requires value.Object? && forall m | m in ms :: m in value.members
    ensures |r| == |ms|
    decreases value, 0
  {
    seq(|ms|, i requires 0 <= i < |ms| =>
      assert ms[i] in value.members;
      Member(ms[i].key, Canonicalise(ms[i].value)))
  }

  // ---- Its order --------------------------------------------------------------------------------

  lemma TextAscendingCons(m: Member, ms: seq<Member>)
    requires TextAscending(ms) && forall x | x in ms :: TextLess(m.key, x.key)
    ensures TextAscending([m] + ms)
  {
  }

  lemma {:induction false} PlaceTextAscends(m: Member, ms: seq<Member>)
    requires TextAscending(ms) && forall x | x in ms :: x.key != m.key
    ensures TextAscending(PlaceText(m, ms))
  {
    if ms != [] {
      var h := ms[0];
      TextOrderIsTotal(m.key, h.key);
      if TextLess(m.key, h.key) {
        forall x | x in ms
          ensures TextLess(m.key, x.key)
        {
          if x != h { TextOrderIsTransitive(m.key, h.key, x.key); }
        }
        TextAscendingCons(m, ms);
      } else {
        assert forall x | x in ms[1..] :: TextLess(h.key, x.key);
        PlaceTextAscends(m, ms[1..]);
        TextAscendingCons(h, PlaceText(m, ms[1..]));
      }
    }
  }

  lemma {:induction false} SortTextAscends(ms: seq<Member>)
    requires DistinctKeys(ms)
    ensures TextAscending(SortText(ms))
  {
    if ms != [] {
      SortTextAscends(ms[1..]);
      PlaceTextAscends(ms[0], SortText(ms[1..]));
    }
  }

  lemma EnumAscendingCons(m: Member, ms: seq<Member>)
    requires EnumAscending(ms) && forall x | x in ms :: EnumLess(m.key, x.key)
    ensures EnumAscending([m] + ms)
  {
  }

  lemma {:induction false} AddAscends(ms: seq<Member>, m: Member)
    requires EnumAscending(ms) && forall x | x in ms :: x.key != m.key
    requires IsIndex(m.key) || forall x | x in ms :: EnumLess(x.key, m.key)
    ensures EnumAscending(Add(ms, m))
  {
    hide IsIndex, Num, TextLess;
    if ms != [] {
      var h := ms[0];
      EnumOrderIsTotal(m.key, h.key);
      assert h in ms;
      if EnumLess(m.key, h.key) {
        forall x | x in ms
          ensures EnumLess(m.key, x.key)
        {
          if x != h { EnumOrderIsTransitive(m.key, h.key, x.key); }
        }
        EnumAscendingCons(m, ms);
      } else {
        assert forall x | x in ms[1..] :: EnumLess(h.key, x.key);
        AddAscends(ms[1..], m);
        EnumAscendingCons(h, Add(ms[1..], m));
      }
    }
  }

  lemma {:induction false} FromEntriesAscends(ms: seq<Member>)
    requires TextAscending(ms)
    ensures EnumAscending(FromEntries(ms))
  {
    if ms != [] {
      var n := |ms| - 1;
      var front, m := ms[..n], ms[n];
      FromEntriesAscends(front);
      forall x | x in front
        ensures x.key != m.key && (IsIndex(m.key) || EnumLess(x.key, m.key))
      {
        assert TextLess(x.key, m.key);
        TextOrderIsTotal(x.key, m.key);
      }
      hide IsIndex, TextLess, EnumLess;
      AddAscends(FromEntries(front), m);
    }
  }

  lemma EnumTail(ms: seq<Member>)
    requires EnumAscending(ms) && ms != []
    ensures EnumAscending(ms[1..]) && forall x :: x in ms[1..] <==> x in ms && x != ms[0]
  {
    forall x | x in ms[1..]
      ensures x != ms[0]
    {
      EnumOrderIsTotal(x.key, ms[0].key);
    }
    assert ms == [ms[0]] + ms[1..];
  }

  /** Members have only one enumeration order. */
  lemma {:induction false} EnumUnique(xs: seq<Member>, ys: seq<Member>)
    requires EnumAscending(xs) && EnumAscending(ys) && forall m :: m in xs <==> m in ys
    ensures xs == ys
  {
    assert xs == [] || xs[0] in xs;
    assert ys == [] || ys[0] in ys;
    if xs != [] {
      hide EnumLess;
      EnumOrderIsTotal(xs[0].key, ys[0].key);
      assert xs[0] == ys[0];
      EnumTail(xs);
      EnumTail(ys);
      EnumUnique(xs[1..], ys[1..]);
      assert xs == [xs[0]] + xs[1..] && ys == [ys[0]] + ys[1..];
    }
  }

  // ---- What the canonical form forgets, and what it keeps ---------------------------------------

  /** Every object in the value has each key once. */
  ghost predicate WellFormed(value: Value) {
    match value
    case List(items) => forall i | 0 <= i < |items| :: WellFormed(items[i])
    case Object(members) =>
      DistinctKeys(members) && forall i | 0 <= i < |members| :: WellFormed(members[i].value)
    case _ => true
  }

  /** A date and its ISO text are the same state. */
  predicate SameText(a: Value, b: Value) {
    && (a.Date? || a.Text?) && (b.Date? || b.Text?)
    && (if a.Date? then a.iso else a.text) == (if b.Date? then b.iso else b.text)
  }

  /** Equal up to key order, undefined members, and a date against its text. */
  ghost predicate Equivalent(a: Value, b: Value)
    decreases a, 1
  {
    || SameText(a, b)
    || (a.List? && b.List? && |a.items| == |b.items|
        && forall i | 0 <= i < |a.items| :: Equivalent(a.items[i], b.items[i]))
    || (a.Object? && b.Object?
        && (forall i | 0 <= i < |a.members| && !a.members[i].value.Undefined? :: Answered(a, i, b))
        && (forall j | 0 <= j < |b.members| && !b.members[j].value.Undefined? :: Echoed(a, b, j)))
    || (a == b && !a.List? && !a.Object?)
  }

  /** A defined member of `a` has an equivalent one in `b`. */
  ghost predicate Answered(a: Value, i: nat, b: Value)
    requires a.Object? && b.Object? && i < |a.members|
    decreases a, 0
  {
    exists j | 0 <= j < |b.members| ::
      !b.members[j].value.Undefined? && a.members[i].key == b.members[j].key
      && Equivalent(a.members[i].value, b.members[j].value)
  }

  /** And the other way round. */
  ghost predicate Echoed(a: Value, b: Value, j: nat)
    requires a.Object? && b.Object? && j < |b.members|
    decreases a, 0
  {
    exists i | 0 <= i < |a.members| ::
      !a.members[i].value.Undefined? && a.members[i].key == b.members[j].key
      && Equivalent(a.members[i].value, b.members[j].value)
  }

  lemma {:induction false} DefinedIsDistinct(ms: seq<Member>)
    requires DistinctKeys(ms)
    ensures DistinctKeys(Defined(ms))
  {
    if ms != [] {
      DefinedIsDistinct(ms[1..]);
      assert forall x | x in Defined(ms[1..]) :: x in ms[1..];
    }
  }

  lemma CanonicalKeepsTextOrder(value: Value, ms: seq<Member>)
    requires value.Object? && (forall m | m in ms :: m in value.members) && TextAscending(ms)
    ensures TextAscending(CanonicalMembers(value, ms))
  {
    hide TextLess;
  }

  lemma CanonicalMembersAre(value: Value, ms: seq<Member>, x: Member)
    requires value.Object? && forall m | m in ms :: m in value.members
    ensures x in CanonicalMembers(value, ms)
       <==> exists m :: m in ms && x == Member(m.key, Canonicalise(m.value))
  {
    var r := CanonicalMembers(value, ms);
    hide Canonicalise;
    if x in r {
      var i :| 0 <= i < |r| && r[i] == x;
      assert ms[i] in ms;
    }
    if m :| m in ms && x == Member(m.key, Canonicalise(m.value)) {
      var i :| 0 <= i < |ms| && ms[i] == m;
      assert r[i] == x;
    }
  }

  /** A member of the canonical object: a defined member, its value made canonical. */
  ghost predicate Represents(members: seq<Member>, x: Member) {
    exists i | 0 <= i < |members| ::
      !members[i].value.Undefined? && x == Member(members[i].key, Canonicalise(members[i].value))
  }

  /** The canonical object is pinned down by its members alone. */
  lemma ObjectForm(value: Value)
    requires value.Object? && DistinctKeys(value.members)
    ensures Canonicalise(value).Object? && EnumAscending(Canonicalise(value).members)
    ensures forall x :: x in Canonicalise(value).members <==> Represents(value.members, x)
  {
    var sorted := SortText(Defined(value.members));
    DefinedIsDistinct(value.members);
    SortTextAscends(Defined(value.members));
    CanonicalKeepsTextOrder(value, sorted);
    FromEntriesAscends(CanonicalMembers(value, sorted));
    var r := Canonicalise(value).members;
    forall x
      ensures x in r <==> Represents(value.members, x)
    {
      CanonicalMembersAre(value, sorted, x);
      hide CanonicalMembers, EnumAscending, TextAscending, DistinctKeys;
      MembersByIndex(value.members, x);
    }
  }

  lemma MembersByIndex(ms: seq<Member>, x: Member)
    ensures Represents(ms, x)
       <==> exists m :: m in Defined(ms) && x == Member(m.key, Canonicalise(m.value))
  {
    hide Canonicalise;
    if Represents(ms, x) {
      var i :| 0 <= i < |ms| && !ms[i].value.Undefined? && x == Member(ms[i].key, Canonicalise(ms[i].value));
      assert ms[i] in Defined(ms);
    }
    if m :| m in Defined(ms) && x == Member(m.key, Canonicalise(m.value)) {
      var i :| 0 <= i < |ms| && ms[i] == m;
    }
  }

  // ---- Equivalent values have one canonical form, and no others do ------------------------------

  /** Members of `a` and `b` are equivalent exactly when their canonical forms agree. */
  ghost predicate DecidedBelow(a: Value, b: Value)
    requires a.Object? && b.Object?
  {
    forall i, j | 0 <= i < |a.members| && 0 <= j < |b.members| ::
      Canonicalise(a.members[i].value) == Canonicalise(b.members[j].value)
      <==> Equivalent(a.members[i].value, b.members[j].value)
  }

  lemma AnsweredIsRepresented(a: Value, i: nat, b: Value)
    requires a.Object? && b.Object? && i < |a.members| && DecidedBelow(a, b)
    ensures Answered(a, i, b)
       <==> Represents(b.members, Member(a.members[i].key, Canonicalise(a.members[i].value)))
  {
    hide Canonicalise, Equivalent;
    assert forall j | 0 <= j < |b.members| ::
        Canonicalise(a.members[i].value) == Canonicalise(b.members[j].value)
        <==> Equivalent(a.members[i].value, b.members[j].value);
  }

  lemma EchoedIsRepresented(a: Value, b: Value, j: nat)
    requires a.Object? && b.Object? && j < |b.members| && DecidedBelow(a, b)
    ensures Echoed(a, b, j)
       <==> Represents(a.members, Member(b.members[j].key, Canonicalise(b.members[j].value)))
  {
    hide Canonicalise, Equivalent;
    assert forall i | 0 <= i < |a.members| ::
        Canonicalise(a.members[i].value) == Canonicalise(b.members[j].value)
        <==> Equivalent(a.members[i].value, b.members[j].value);
  }

  ghost predicate RepresentedBy(ms: seq<Member>, others: seq<Member>) {
    forall i | 0 <= i < |ms| && !ms[i].value.Undefined? ::
      Represents(others, Member(ms[i].key, Canonicalise(ms[i].value)))
  }

  lemma RepresentedEverywhere(ms: seq<Member>, others: seq<Member>)
    ensures RepresentedBy(ms, others) <==> forall x | Represents(ms, x) :: Represents(others, x)
  {
    hide Canonicalise;
    forall i | (forall x | Represents(ms, x) :: Represents(others, x)) && 0 <= i < |ms| && !ms[i].value.Undefined?
      ensures Represents(others, Member(ms[i].key, Canonicalise(ms[i].value)))
    {
      assert Represents(ms, Member(ms[i].key, Canonicalise(ms[i].value)));
    }
  }

  lemma ObjectsDecide(a: Value, b: Value)
    requires a.Object? && b.Object? && DistinctKeys(a.members) && DistinctKeys(b.members) && DecidedBelow(a, b)
    ensures Canonicalise(a) == Canonicalise(b) <==> Equivalent(a, b)
  {
    ObjectForm(a);
    ObjectForm(b);
    hide Canonicalise, DecidedBelow, Represents, DistinctKeys, Answered, Echoed, EnumAscending, RepresentedBy;
    var r, s := Canonicalise(a).members, Canonicalise(b).members;
    assert Equivalent(a, b) <==> RepresentedBy(a.members, b.members) && RepresentedBy(b.members, a.members) by {
      ByRepresentation(a, b);
    }
    RepresentedEverywhere(a.members, b.members);
    RepresentedEverywhere(b.members, a.members);
    if Equivalent(a, b) { EnumUnique(r, s); }
  }

  lemma ByRepresentation(a: Value, b: Value)
    requires a.Object? && b.Object? && DecidedBelow(a, b)
    ensures Equivalent(a, b) <==> RepresentedBy(a.members, b.members) && RepresentedBy(b.members, a.members)
  {
    hide Canonicalise, DecidedBelow, Represents, Answered, Echoed;
    forall i | 0 <= i < |a.members|
      ensures Answered(a, i, b)
         <==> Represents(b.members, Member(a.members[i].key, Canonicalise(a.members[i].value)))
    {
      AnsweredIsRepresented(a, i, b);
    }
    forall j | 0 <= j < |b.members|
      ensures Echoed(a, b, j)
         <==> Represents(a.members, Member(b.members[j].key, Canonicalise(b.members[j].value)))
    {
      EchoedIsRepresented(a, b, j);
    }
  }

  lemma ListsDecide(a: Value, b: Value)
    requires a.List? && b.List?
    requires forall i | 0 <= i < |a.items| && i < |b.items| ::
               Canonicalise(a.items[i]) == Canonicalise(b.items[i]) <==> Equivalent(a.items[i], b.items[i])
    ensures Canonicalise(a) == Canonicalise(b) <==> Equivalent(a, b)
  {
    var r, s := Canonicalise(a).items, Canonicalise(b).items;
    assert |r| == |a.items| && forall i | 0 <= i < |r| :: r[i] == Canonicalise(a.items[i]);
    assert |s| == |b.items| && forall i | 0 <= i < |s| :: s[i] == Canonicalise(b.items[i]);
  }

  /** Two states have one canonical form exactly when they are the same state. */
  lemma {:induction false} CanonicalFormsDecide(a: Value, b: Value)
    requires WellFormed(a) && WellFormed(b)
    ensures Canonicalise(a) == Canonicalise(b) <==> Equivalent(a, b)
    decreases a
  {
    if a.Object? && b.Object? {
      hide Canonicalise, Equivalent, DistinctKeys;
      forall i, j | 0 <= i < |a.members| && 0 <= j < |b.members|
        ensures Canonicalise(a.members[i].value) == Canonicalise(b.members[j].value)
           <==> Equivalent(a.members[i].value, b.members[j].value)
      {
        CanonicalFormsDecide(a.members[i].value, b.members[j].value);
      }
      ObjectsDecide(a, b);
    } else if a.List? && b.List? {
      hide Canonicalise, Equivalent;
      forall i | 0 <= i < |a.items| && i < |b.items|
        ensures Canonicalise(a.items[i]) == Canonicalise(b.items[i]) <==> Equivalent(a.items[i], b.items[i])
      {
        CanonicalFormsDecide(a.items[i], b.items[i]);
      }
      ListsDecide(a, b);
    }
  }

  // ---- Canonical forms are canonical already ----------------------------------------------------

  lemma {:induction false} CanonicalIsWellFormed(value: Value)
    requires WellFormed(value)
    ensures WellFormed(Canonicalise(value)) && (Canonicalise(value).Undefined? <==> value.Undefined?)
  {
    if value.List? {
      forall i | 0 <= i < |value.items|
        ensures WellFormed(Canonicalise(value).items[i])
      {
        CanonicalIsWellFormed(value.items[i]);
      }
    } else if value.Object? {
      ObjectForm(value);
      hide Canonicalise;
      var r := Canonicalise(value).members;
      EnumIsDistinct(r);
      forall k | 0 <= k < |r|
        ensures WellFormed(r[k].value)
      {
        assert Represents(value.members, r[k]);
        var i :| 0 <= i < |value.members| && r[k] == Member(value.members[i].key, Canonicalise(value.members[i].value));
        CanonicalIsWellFormed(value.members[i].value);
      }
    }
  }

  lemma EnumIsDistinct(ms: seq<Member>)
    requires EnumAscending(ms)
    ensures DistinctKeys(ms)
  {
    forall i, j | 0 <= i < j < |ms|
      ensures ms[i].key != ms[j].key
    {
      EnumOrderIsTotal(ms[i].key, ms[j].key);
    }
  }

  /** Canonicalising twice is canonicalising once. */
  lemma {:induction false} CanonicaliseIsIdempotent(value: Value)
    requires WellFormed(value)
    ensures Canonicalise(Canonicalise(value)) == Canonicalise(value)
  {
    if value.List? {
      var r := Canonicalise(value);
      forall i | 0 <= i < |value.items|
        ensures Canonicalise(r.items[i]) == r.items[i]
      {
        CanonicaliseIsIdempotent(value.items[i]);
      }
      assert Canonicalise(r).items == r.items;
    } else if value.Object? {
      forall i | 0 <= i < |value.members| && !value.members[i].value.Undefined?
        ensures Canonicalise(Canonicalise(value.members[i].value)) == Canonicalise(value.members[i].value)
      {
        CanonicaliseIsIdempotent(value.members[i].value);
      }
      ObjectIsFixed(value);
    }
  }

  lemma ObjectIsFixed(value: Value)
    requires WellFormed(value) && value.Object?
    requires forall i | 0 <= i < |value.members| && !value.members[i].value.Undefined? ::
               Canonicalise(Canonicalise(value.members[i].value)) == Canonicalise(value.members[i].value)
    ensures Canonicalise(Canonicalise(value)) == Canonicalise(value)
  {
    var form := Canonicalise(value);
    CanonicalIsWellFormed(value);
    ObjectForm(value);
    ObjectForm(form);
    hide Canonicalise, EnumAscending, DistinctKeys;
    forall x
      ensures x in form.members <==> Represents(form.members, x)
    {
      if x in form.members {
        MemberIsFixed(value, x);
        var k :| 0 <= k < |form.members| && form.members[k] == x;
      }
      if Represents(form.members, x) {
        var k :| 0 <= k < |form.members| && x == Member(form.members[k].key, Canonicalise(form.members[k].value));
        assert form.members[k] in form.members;
        MemberIsFixed(value, form.members[k]);
      }
    }
    EnumUnique(form.members, Canonicalise(form).members);
  }

  lemma MemberIsFixed(value: Value, x: Member)
    requires WellFormed(value) && value.Object? && Represents(value.members, x)
    requires forall i | 0 <= i < |value.members| && !value.members[i].value.Undefined? ::
               Canonicalise(Canonicalise(value.members[i].value)) == Canonicalise(value.members[i].value)
    ensures Canonicalise(x.value) == x.value && !x.value.Undefined?
  {
    hide Canonicalise;
    var i :| 0 <= i < |value.members| && !value.members[i].value.Undefined?
             && x == Member(value.members[i].key, Canonicalise(value.members[i].value));
    CanonicalIsWellFormed(value.members[i].value);
  }
}
