/** What a listing answers its category's attributes with, and what is still missing. */
module AttributeValues {
  import opened Basics
  import opened Decimal

  const MAX_CATEGORY_ATTRIBUTES := 12

  datatype Choice = Choice(value: string, caption: string)

  datatype Kind =
    | Text(maxLength: nat)
    | Number(unit: string, decimalPlaces: int)
    | OneOf(options: seq<Choice>)
    | ManyOf(options: seq<Choice>)

  datatype Attribute = Attribute(key: string, caption: string, required: bool, kind: Kind)

  /** A submitted value, before anything is known about it. `keys` is the enumeration order. */
  datatype Raw =
    | Null
    | Undefined
    | Scalar
    | Typed(text: string)
    | Items(entries: seq<Raw>)
    | Object(keys: seq<string>, fields: map<string, Raw>)

  /** A stored answer. */
  datatype Value = TextValue(text: string) | NumberValue(scaled: int) | ManyValue(chosen: seq<string>)

  datatype Problem =
    | MustBeText | Blank | TooLong | UnsafeCharacters
    | MustBeSentAsText | NotDigits | Unreadable(error: ScaledError)
    | MustBeOneOf | MustBeAList | MayOnlyContain | SameChoiceTwice | EmptyList

  datatype Reading = Read(value: Value) | Refused(problem: Problem)

  datatype Issue =
    | NotAnObject
    | TooManyValues
    | UnknownField(key: string)
    | BadAnswer(key: string, caption: string, problem: Problem)

  datatype Outcome = Valid(values: map<string, Value>) | Invalid(issues: seq<Issue>)

  predicate DistinctTexts(xs: seq<string>) {
    forall i, j | 0 <= i < j < |xs| :: xs[i] != xs[j]
  }

  function OptionValues(options: seq<Choice>): (vs: seq<string>)
    ensures |vs| == |options|
  {
    seq(|options|, i requires 0 <= i < |options| => options[i].value)
  }

  /** A string's length in UTF-16 units. */
  function Utf16Length(s: string): nat {
    if s == [] then 0 else Utf16Length(s[..|s| - 1]) + if s[|s| - 1] as int > 0xFFFF then 2 else 1
  }

  predicate HasUnsafe(unsafe: char -> bool, s: string) {
    exists i | 0 <= i < |s| :: unsafe(s[i])
  }

  // ---- One answer -------------------------------------------------------------------------------

  predicate IsOption(options: seq<Choice>, entry: Raw) {
    entry.Typed? && entry.text in OptionValues(options)
  }

  /** What is wrong with the list of choices, judged entry by entry from `i` on. */
  function FirstFault(options: seq<Choice>, entries: seq<Raw>, i: nat): Option<Problem>
    requires i <= |entries|
    decreases |entries| - i
  {
    if i == |entries| then None
    else if !IsOption(options, entries[i]) then Some(MayOnlyContain)
    else if entries[i] in entries[..i] then Some(SameChoiceTwice)
    else FirstFault(options, entries, i + 1)
  }

  /** The offered values that were chosen, in the order the definition offers them. */
  function Kept(offered: seq<string>, entries: seq<Raw>): (kept: seq<string>)
    ensures forall v :: v in kept <==> v in offered && Typed(v) in entries
  {
    if offered == [] then []
    else
      var n := |offered| - 1;
      Kept(offered[..n], entries) + if Typed(offered[n]) in entries then [offered[n]] else []
  }

  function Reads(unsafe: char -> bool, kind: Kind, raw: Raw): Reading {
    match kind
    case Text(maxLength) =>
      if !raw.Typed? then Refused(MustBeText)
      else
        var trimmed := Trim(raw.text);
        if trimmed == "" then Refused(Blank)
        else if Utf16Length(trimmed) > maxLength then Refused(TooLong)
        else if HasUnsafe(unsafe, trimmed) then Refused(UnsafeCharacters)
        else Read(TextValue(trimmed))
    case Number(_, decimalPlaces) =>
      if !raw.Typed? then Refused(MustBeSentAsText)
      else ReadsNumber(decimalPlaces, Trim(raw.text))
    case OneOf(options) =>
      if IsOption(options, raw) then Read(TextValue(raw.text)) else Refused(MustBeOneOf)
    case ManyOf(options) =>
      if !raw.Items? then Refused(MustBeAList)
      else ReadsMany(options, raw.entries)
  }

  function ReadsNumber(decimalPlaces: int, typed: string): Reading {
    if typed == "" then Refused(Blank)
    else if Match(typed).None? then Refused(NotDigits)
    else
      match FromDecimalString(typed, decimalPlaces)
      case Ok(scaled) => Read(NumberValue(scaled))
      case Err(error) => Refused(Unreadable(error))
  }

  function ReadsMany(options: seq<Choice>, entries: seq<Raw>): Reading {
    match FirstFault(options, entries, 0)
    case Some(problem) => Refused(problem)
    case None =>
      if entries == [] then Refused(EmptyList)
      else Read(ManyValue(Kept(OptionValues(options), entries)))
  }

  method ReadMany(options: seq<Choice>, entries: seq<Raw>) returns (reading: Reading)
    ensures reading == ReadsMany(options, entries)
  {
    var chosen: seq<Raw> := [];
    for i := 0 to |entries|
      invariant chosen == entries[..i]
      invariant FirstFault(options, entries, 0) == FirstFault(options, entries, i)
    {
      var entry := entries[i];
      if !IsOption(options, entry) { return Refused(MayOnlyContain); }
      if entry in chosen { return Refused(SameChoiceTwice); }
      chosen := chosen + [entry];
    }
    if |chosen| == 0 { return Refused(EmptyList); }
    assert chosen == entries;
    return Read(ManyValue(Kept(OptionValues(options), chosen)));
  }

  method ReadValue(unsafe: char -> bool, kind: Kind, raw: Raw) returns (reading: Reading)
    ensures reading == Reads(unsafe, kind, raw)
  {
    match kind {
      case Text(maxLength) =>
        if !raw.Typed? { return Refused(MustBeText); }
        var trimmed := Trim(raw.text);
        if trimmed == "" { return Refused(Blank); }
        if Utf16Length(trimmed) > maxLength { return Refused(TooLong); }
        if HasUnsafe(unsafe, trimmed) { return Refused(UnsafeCharacters); }
        return Read(TextValue(trimmed));
      case Number(_, decimalPlaces) =>
        if !raw.Typed? { return Refused(MustBeSentAsText); }
        var typed := Trim(raw.text);
        if typed == "" { return Refused(Blank); }
        if Match(typed).None? { return Refused(NotDigits); }
        var scaled := FromDecimalString(typed, decimalPlaces);
        if scaled.Err? { return Refused(Unreadable(scaled.error)); }
        return Read(NumberValue(scaled.value));
      case OneOf(options) =>
        if !IsOption(options, raw) { return Refused(MustBeOneOf); }
        return Read(TextValue(raw.text));
      case ManyOf(options) =>
        if !raw.Items? { return Refused(MustBeAList); }
        reading := ReadMany(options, raw.entries);
    }
  }

  // ---- When an answer is read -------------------------------------------------------------------

  /** Text is read trimmed, exactly when it is then not blank, not too long and holds nothing unsafe. */
  lemma WhenTextIsRead(unsafe: char -> bool, maxLength: nat, raw: Raw, value: Value)
    ensures Reads(unsafe, Text(maxLength), raw) == Read(value)
       <==> && raw.Typed? && value == TextValue(Trim(raw.text)) && Trim(raw.text) != ""
            && Utf16Length(Trim(raw.text)) <= maxLength
            && forall i | 0 <= i < |Trim(raw.text)| :: !unsafe(Trim(raw.text)[i])
  {
    hide Trim, Utf16Length;
  }

  /** Each character counts one unit, and one more if it lies beyond the first sixteen bits. */
  lemma {:induction false} LengthInUnits(a: string, c: char)
    ensures Utf16Length([]) == 0
    ensures Utf16Length(a + [c]) == Utf16Length(a) + (if c as int >= 0x1_0000 then 2 else 1)
  {
    assert (a + [c])[..|a|] == a;
  }

  /** One of several is read as it stands, exactly when it is one of the offered values. */
  lemma WhenAChoiceIsRead(unsafe: char -> bool, options: seq<Choice>, raw: Raw, value: Value)
    ensures Reads(unsafe, OneOf(options), raw) == Read(value)
       <==> && raw.Typed? && value == TextValue(raw.text)
            && exists i | 0 <= i < |options| :: options[i].value == raw.text
  {
    var offered := OptionValues(options);
    assert forall i | 0 <= i < |options| :: offered[i] == options[i].value;
    hide OptionValues;
    if raw.Typed? && raw.text in offered {
      var i :| 0 <= i < |offered| && offered[i] == raw.text;
      assert options[i].value == raw.text;
    }
    if raw.Typed? && exists i | 0 <= i < |options| :: options[i].value == raw.text {
      var i :| 0 <= i < |options| && options[i].value == raw.text;
      assert offered[i] == raw.text;
    }
  }

  // ---- Choices do not depend on their order -----------------------------------------------------

  ghost predicate NoRepeats(entries: seq<Raw>) {
    forall k | 0 <= k < |entries| :: entries[k] !in entries[..k]
  }

  ghost predicate CountedOnce(entries: seq<Raw>) {
    forall e | e in entries :: multiset(entries)[e] == 1
  }

  ghost predicate Chooses(options: seq<Choice>, entries: seq<Raw>) {
    (forall e | e in entries :: IsOption(options, e)) && CountedOnce(entries)
  }

  lemma {:induction false} NoFaultFrom(options: seq<Choice>, entries: seq<Raw>, i: nat)
    requires i <= |entries|
    ensures FirstFault(options, entries, i).None?
       <==> forall k | i <= k < |entries| :: IsOption(options, entries[k]) && entries[k] !in entries[..k]
    decreases |entries| - i
  {
    if i < |entries| { NoFaultFrom(options, entries, i + 1); }
  }

  lemma RepeatsOfLonger(front: seq<Raw>, last: Raw)
    ensures NoRepeats(front + [last]) <==> NoRepeats(front) && last !in front
  {
    var entries := front + [last];
    assert entries[..|front|] == front;
    assert forall k | 0 <= k < |front| :: entries[..k] == front[..k] && entries[k] == front[k];
  }

  lemma CountsOfLonger(front: seq<Raw>, last: Raw)
    ensures CountedOnce(front + [last]) <==> CountedOnce(front) && last !in front
  {
    var entries := front + [last];
    assert multiset(entries) == multiset(front) + multiset{last};
    assert last in entries;
    assert last in front <==> multiset(front)[last] > 0;
    assert forall e | e in front :: e in entries && multiset(front)[e] > 0;
  }

  lemma {:induction false} RepeatsAreCounted(entries: seq<Raw>)
    ensures NoRepeats(entries) <==> CountedOnce(entries)
  {
    if entries != [] {
      var front, last := entries[..|entries| - 1], entries[|entries| - 1];
      assert entries == front + [last];
      hide NoRepeats, CountedOnce;
      RepeatsAreCounted(front);
      RepeatsOfLonger(front, last);
      CountsOfLonger(front, last);
    }
  }

  lemma WhenChoicesAreRead(options: seq<Choice>, entries: seq<Raw>)
    ensures ReadsMany(options, entries).Read? <==> entries != [] && Chooses(options, entries)
  {
    NoFaultFrom(options, entries, 0);
    hide CountedOnce;
    RepeatsAreCounted(entries);
  }

  lemma {:induction false} KeptIsByMembership(offered: seq<string>, a: seq<Raw>, b: seq<Raw>)
    requires forall e :: e in a <==> e in b
    ensures Kept(offered, a) == Kept(offered, b)
  {
    if offered != [] { KeptIsByMembership(offered[..|offered| - 1], a, b); }
  }

  /** Permuting the ticked boxes changes neither acceptance nor what is stored. */
  lemma ChoiceOrderIsImmaterial(options: seq<Choice>, a: seq<Raw>, b: seq<Raw>)
    requires multiset(a) == multiset(b)
    ensures ReadsMany(options, a).Read? <==> ReadsMany(options, b).Read?
    ensures ReadsMany(options, a).Read? ==> ReadsMany(options, a) == ReadsMany(options, b)
  {
    WhenChoicesAreRead(options, a);
    WhenChoicesAreRead(options, b);
    assert forall e :: e in a <==> e in multiset(a);
    assert forall e :: e in b <==> e in multiset(b);
    KeptIsByMembership(OptionValues(options), a, b);
  }

  // ---- The complaint may ------------------------------------------------------------------------

  ghost predicate HasStranger(options: seq<Choice>, entries: seq<Raw>) {
    exists e :: e in entries && !IsOption(options, e)
  }

  ghost predicate HasRepeat(options: seq<Choice>, entries: seq<Raw>) {
    exists e :: e in entries && IsOption(options, e) && multiset(entries)[e] >= 2
  }

  /** What a fault found anywhere from `i` on says about the list. */
  lemma {:induction false} FaultMeans(options: seq<Choice>, entries: seq<Raw>, i: nat)
    requires i <= |entries| && FirstFault(options, entries, i).Some?
    ensures FirstFault(options, entries, i) == Some(MayOnlyContain) ==> HasStranger(options, entries)
    ensures FirstFault(options, entries, i) == Some(SameChoiceTwice) ==> HasRepeat(options, entries)
    ensures FirstFault(options, entries, i).value in {MayOnlyContain, SameChoiceTwice}
    decreases |entries| - i
  {
    hide IsOption;
    assert entries[i] in entries;
    if IsOption(options, entries[i]) {
      if entries[i] in entries[..i] {
        SeenTwice(entries, i);
      } else {
        FaultMeans(options, entries, i + 1);
      }
    }
  }

  lemma SeenTwice(entries: seq<Raw>, i: nat)
    requires i < |entries| && entries[i] in entries[..i]
    ensures multiset(entries)[entries[i]] >= 2
  {
    assert entries == entries[..i] + [entries[i]] + entries[i + 1..];
    assert multiset(entries[..i])[entries[i]] >= 1;
  }

  /** A list that does not hold both faults is refused, or read, in one way whatever its order. */
  lemma OneFaultOneComplaint(options: seq<Choice>, a: seq<Raw>, b: seq<Raw>)
    requires multiset(a) == multiset(b) && !(HasStranger(options, a) && HasRepeat(options, a))
    ensures ReadsMany(options, a) == ReadsMany(options, b)
  {
    SameFaults(options, a, b);
    ChoiceOrderIsImmaterial(options, a, b);
    WhenChoicesAreRead(options, a);
    hide HasStranger, HasRepeat, IsOption, Kept, Chooses;
    assert |multiset(a)| == |a| && |multiset(b)| == |b|;
    if FirstFault(options, a, 0).Some? { FaultMeans(options, a, 0); }
    if FirstFault(options, b, 0).Some? { FaultMeans(options, b, 0); }
  }

  lemma SameFaults(options: seq<Choice>, a: seq<Raw>, b: seq<Raw>)
    requires multiset(a) == multiset(b)
    ensures HasStranger(options, a) <==> HasStranger(options, b)
    ensures HasRepeat(options, a) <==> HasRepeat(options, b)
  {
    hide IsOption;
    assert forall e :: e in a <==> e in multiset(a);
    assert forall e :: e in b <==> e in multiset(b);
  }

  /** The same list with one of its entries moved to the front. */
  lemma MoveToFront(entries: seq<Raw>, e: Raw) returns (rest: seq<Raw>)
    requires e in entries
    ensures multiset([e] + rest) == multiset(entries)
  {
    var i :| 0 <= i < |entries| && entries[i] == e;
    rest := entries[..i] + entries[i + 1..];
    assert entries == entries[..i] + [e] + entries[i + 1..];
  }

  lemma StrangerFirst(options: seq<Choice>, a: seq<Raw>) returns (b: seq<Raw>)
    requires HasStranger(options, a)
    ensures multiset(b) == multiset(a) && ReadsMany(options, b) == Refused(MayOnlyContain)
  {
    hide IsOption;
    var stranger :| stranger in a && !IsOption(options, stranger);
    var rest := MoveToFront(a, stranger);
    b := [stranger] + rest;
  }

  lemma RepeatFirst(options: seq<Choice>, a: seq<Raw>) returns (b: seq<Raw>)
    requires HasRepeat(options, a)
    ensures multiset(b) == multiset(a) && ReadsMany(options, b) == Refused(SameChoiceTwice)
  {
    hide IsOption;
    var e :| e in a && IsOption(options, e) && multiset(a)[e] >= 2;
    var once := MoveToFront(a, e);
    assert multiset(once) == multiset(a) - multiset{e};
    assert e in multiset(once);
    var twice := MoveToFront(once, e);
    b := [e] + ([e] + twice);
    assert multiset(b) == multiset{e} + multiset([e] + twice);
    assert b[..1] == [e] && b[..0] == [];
    assert FirstFault(options, b, 0) == FirstFault(options, b, 1) == Some(SameChoiceTwice);
  }

  /** What is said of a list of choices is the same in every order if and only if it does not hold both an
      entry that is no option and an option more than once. */
  lemma WhenTheComplaintIsSettled(options: seq<Choice>, a: seq<Raw>)
    ensures (forall b | multiset(b) == multiset(a) :: ReadsMany(options, b) == ReadsMany(options, a))
       <==> !(HasStranger(options, a) && HasRepeat(options, a))
  {
    hide ReadsMany, HasStranger, HasRepeat;
    if HasStranger(options, a) && HasRepeat(options, a) {
      var b := StrangerFirst(options, a);
      var c := RepeatFirst(options, a);
    } else {
      forall b | multiset(b) == multiset(a)
        ensures ReadsMany(options, b) == ReadsMany(options, a)
      {
        OneFaultOneComplaint(options, a, b);
      }
    }
  }

  /** Such a list, in two orders. */
  lemma ComplaintDependsOnOrder()
    ensures var options := [Choice("a", "A")];
            && multiset([Typed("a"), Typed("a"), Scalar]) == multiset([Scalar, Typed("a"), Typed("a")])
            && ReadsMany(options, [Typed("a"), Typed("a"), Scalar]) == Refused(SameChoiceTwice)
            && ReadsMany(options, [Scalar, Typed("a"), Typed("a")]) == Refused(MayOnlyContain)
  {
    var options := [Choice("a", "A")];
    var a := [Typed("a"), Typed("a"), Scalar];
    assert OptionValues(options)[0] == "a";
    assert a[..1][0] == Typed("a");
    assert FirstFault(options, a, 1) == Some(SameChoiceTwice);
    assert FirstFault(options, a, 0) == FirstFault(options, a, 1);
  }

  // ---- A stored answer, shown and submitted again -----------------------------------------------

  function Shown(decimalPlaces: int, value: Value): Raw {
    match value
    case TextValue(text) => Typed(text)
    case NumberValue(scaled) =>
      (match ToDecimalString(scaled, decimalPlaces) case Ok(text) => Typed(text) case Err(_) => Null)
    case ManyValue(chosen) => Items(Entries(chosen))
  }

  function Entries(chosen: seq<string>): (entries: seq<Raw>)
    ensures |entries| == |chosen| && forall i | 0 <= i < |chosen| :: entries[i] == Typed(chosen[i])
  {
    seq(|chosen|, i requires 0 <= i < |chosen| => Typed(chosen[i]))
  }

  lemma EntriesHold(chosen: seq<string>, e: Raw)
    ensures e in Entries(chosen) <==> e.Typed? && e.text in chosen
  {
    if e.Typed? && e.text in chosen {
      var i :| 0 <= i < |chosen| && chosen[i] == e.text;
      assert Entries(chosen)[i] == e;
    }
  }

  lemma EntriesAreDistinct(chosen: seq<string>)
    requires DistinctTexts(chosen)
    ensures NoRepeats(Entries(chosen))
  {
  }

  function PlacesOf(kind: Kind): int {
    if kind.Number? then kind.decimalPlaces else 0
  }

  /** What the category schema guarantees of a definition: options are distinct and not empty. */
  predicate SoundKind(kind: Kind) {
    && (kind.ManyOf? ==> DistinctTexts(OptionValues(kind.options)))
    && (kind.OneOf? ==> "" !in OptionValues(kind.options))
  }

  lemma {:induction false} KeptIsDistinct(offered: seq<string>, entries: seq<Raw>)
    requires DistinctTexts(offered)
    ensures DistinctTexts(Kept(offered, entries))
  {
    if offered != [] {
      var n := |offered| - 1;
      KeptIsDistinct(offered[..n], entries);
      assert offered[n] !in offered[..n];
      assert offered[n] !in Kept(offered[..n], entries);
    }
  }

  lemma KeptChoices(options: seq<Choice>, entries: seq<Raw>)
    requires Chooses(options, entries)
    ensures forall e :: e in entries <==> e in Entries(Kept(OptionValues(options), entries))
  {
    var kept := Kept(OptionValues(options), entries);
    forall e
      ensures e in entries <==> e in Entries(kept)
    {
      EntriesHold(kept, e);
      assert e in entries ==> IsOption(options, e);
      assert e.Typed? ==> (e.text in kept <==> e.text in OptionValues(options) && Typed(e.text) in entries);
    }
  }

  lemma ShownChoicesReadBack(options: seq<Choice>, entries: seq<Raw>)
    requires DistinctTexts(OptionValues(options)) && ReadsMany(options, entries).Read?
    ensures ReadsMany(options, entries).value.ManyValue? && ReadsMany(options, entries).value.chosen != []
    ensures ReadsMany(options, Entries(ReadsMany(options, entries).value.chosen)) == ReadsMany(options, entries)
  {
    var kept := Kept(OptionValues(options), entries);
    var again := Entries(kept);
    WhenChoicesAreRead(options, entries);
    KeptChoices(options, entries);
    assert entries[0] in again;
    KeptIsDistinct(OptionValues(options), entries);
    EntriesAreDistinct(kept);
    RepeatsAreCounted(again);
    hide CountedOnce, NoRepeats, DistinctTexts, FirstFault, Entries, Kept;
    assert Chooses(options, again);
    WhenChoicesAreRead(options, again);
    KeptIsByMembership(OptionValues(options), again, entries);
  }

  /** The stored shapes that would mean "not answered". */
  predicate Blankish(value: Value) {
    value == TextValue("") || value == ManyValue([])
  }

  predicate IsAbsent(raw: Raw) {
    raw.Null? || raw.Undefined?
  }

  /** The pattern test in front of the parser refuses nothing the parser would take. */
  lemma NumberReads(unsafe: char -> bool, kind: Kind, text: string, scaled: int)
    requires kind.Number?
    ensures Reads(unsafe, kind, Typed(text)) == Read(NumberValue(scaled))
       <==> FromDecimalString(text, kind.decimalPlaces) == Ok(scaled)
  {
    hide Match, Trim, FromDecimalString;
    TrimmedReadsAlike(text, kind.decimalPlaces);
    if Trim(text) == "" || Match(Trim(text)).None? { UnmatchedIsRefused(Trim(text), kind.decimalPlaces); }
  }

  lemma NumberReadsBack(unsafe: char -> bool, kind: Kind, raw: Raw)
    requires kind.Number? && Reads(unsafe, kind, raw).Read?
    ensures var value := Reads(unsafe, kind, raw).value;
            var shown := Shown(kind.decimalPlaces, value);
            shown.Typed? && Reads(unsafe, kind, shown) == Read(value) && value.NumberValue?
  {
    hide FromDecimalString, ToDecimalString, Match, Trim;
    var scaled := Reads(unsafe, kind, raw).value.scaled;
    assert raw == Typed(raw.text);
    hide Reads;
    NumberReads(unsafe, kind, raw.text, scaled);
    StoredValueIsAFixedPoint(raw.text, kind.decimalPlaces);
    NumberReads(unsafe, kind, ToDecimalString(scaled, kind.decimalPlaces).value, scaled);
  }

  lemma TextReadsBack(unsafe: char -> bool, kind: Kind, raw: Raw)
    requires kind.Text? && Reads(unsafe, kind, raw).Read?
    ensures var value := Reads(unsafe, kind, raw).value;
            value.TextValue? && value.text != "" && Reads(unsafe, kind, Typed(value.text)) == Read(value)
  {
    hide Trim, IsTrimmed, HasUnsafe, Utf16Length, IsOption, ReadsNumber, ReadsMany;
    assert Trim(Trim(raw.text)) == Trim(raw.text);
  }

  /** Showing a stored answer and submitting it again stores the same answer. */
  lemma AnswerReadsBack(unsafe: char -> bool, kind: Kind, raw: Raw)
    requires SoundKind(kind) && Reads(unsafe, kind, raw).Read?
    ensures var value := Reads(unsafe, kind, raw).value;
            var shown := Shown(PlacesOf(kind), value);
            Reads(unsafe, kind, shown) == Read(value) && !IsAbsent(shown) && !Blankish(value)
  {
    hide Trim, HasUnsafe, Match, FromDecimalString, ToDecimalString, ReadsMany, OptionValues, DistinctTexts;
    if kind.Text? {
      hide Reads;
      TextReadsBack(unsafe, kind, raw);
    } else if kind.Number? {
      hide Reads, Shown;
      NumberReadsBack(unsafe, kind, raw);
    } else if kind.ManyOf? {
      ShownChoicesReadBack(kind.options, raw.entries);
    }
  }

  // ---- A whole set of answers -------------------------------------------------------------------

  /** An object's enumerated keys are its own keys, each once. */
  ghost predicate IsRecord(raw: Raw) {
    raw.Object? ==> DistinctTexts(raw.keys) && forall k :: k in raw.keys <==> k in raw.fields
  }

  function Keys(attributes: seq<Attribute>): (keys: seq<string>)
    ensures |keys| == |attributes| && forall i | 0 <= i < |keys| :: keys[i] == attributes[i].key
  {
    seq(|attributes|, i requires 0 <= i < |attributes| => attributes[i].key)
  }

  predicate Supplied(fields: map<string, Raw>, key: string) {
    key in fields && !IsAbsent(fields[key])
  }

  function UnknownFields(known: seq<string>, keys: seq<string>): (issues: seq<Issue>)
    ensures issues == [] <==> forall k | k in keys :: k in known
  {
    if keys == [] then []
    else
      var n := |keys| - 1;
      UnknownFields(known, keys[..n]) + if keys[n] in known then [] else [UnknownField(keys[n])]
  }

  /** `values[key] = value` on an object literal: assigning this one key makes no entry. */
  function Put(values: map<string, Value>, key: string, value: Value): map<string, Value> {
    if key == "__proto__" then values else values[key := value]
  }

  /** What the definitions make of the fields, first definition first. */
  function Answers(unsafe: char -> bool, attributes: seq<Attribute>, fields: map<string, Raw>)
    : (map<string, Value>, seq<Issue>)
  {
    if attributes == [] then (map[], [])
    else
      var n := |attributes| - 1;
      var (values, issues) := Answers(unsafe, attributes[..n], fields);
      var a := attributes[n];
      if !Supplied(fields, a.key) then (values, issues)
      else
        match Reads(unsafe, a.kind, fields[a.key])
        case Read(value) => (Put(values, a.key, value), issues)
        case Refused(problem) => (values, issues + [BadAnswer(a.key, a.caption, problem)])
  }

  function Validated(unsafe: char -> bool, attributes: seq<Attribute>, raw: Raw): Outcome {
    if !raw.Object? then Invalid([NotAnObject])
    else if |raw.keys| > MAX_CATEGORY_ATTRIBUTES then Invalid([TooManyValues])
    else
      var unknown := UnknownFields(Keys(attributes), raw.keys);
      var (values, bad) := Answers(unsafe, attributes, raw.fields);
      if |unknown + bad| > 0 then Invalid(unknown + bad) else Valid(values)
  }

  /** The first loop: what was submitted under keys the category does not have. */
  method FindUnknown(known: seq<string>, submitted: seq<string>) returns (issues: seq<Issue>)
    ensures issues == UnknownFields(known, submitted)
  {
    issues := [];
    for i := 0 to |submitted|
      invariant issues == UnknownFields(known, submitted[..i])
    {
      var key := submitted[i];
      assert submitted[..i + 1][..i] == submitted[..i];
      if key !in known { issues := issues + [UnknownField(key)]; }
    }
    assert submitted[..|submitted|] == submitted;
  }

  /** The second loop: the definitions, in order, each reading its own field. */
  method ReadAnswers(unsafe: char -> bool, attributes: seq<Attribute>, fields: map<string, Raw>)
    returns (values: map<string, Value>, issues: seq<Issue>)
    ensures (values, issues) == Answers(unsafe, attributes, fields)
  {
    hide Reads;
    values, issues := map[], [];
    for i := 0 to |attributes|
      invariant (values, issues) == Answers(unsafe, attributes[..i], fields)
    {
      var attribute := attributes[i];
      assert attributes[..i + 1][..i] == attributes[..i];
      if attribute.key !in fields { continue; }
      var supplied := fields[attribute.key];
      if IsAbsent(supplied) { continue; }
      var reading := ReadValue(unsafe, attribute.kind, supplied);
      if reading.Refused? {
        issues := issues + [BadAnswer(attribute.key, attribute.caption, reading.problem)];
        continue;
      }
      values := Put(values, attribute.key, reading.value);
    }
    assert attributes[..|attributes|] == attributes;
  }

  method ValidateAttributeValues(unsafe: char -> bool, attributes: seq<Attribute>, raw: Raw)
    returns (outcome: Outcome)
    ensures outcome == Validated(unsafe, attributes, raw)
  {
    if !raw.Object? { return Invalid([NotAnObject]); }
    if |raw.keys| > MAX_CATEGORY_ATTRIBUTES { return Invalid([TooManyValues]); }
    var unknown := FindUnknown(Keys(attributes), raw.keys);
    var values, bad := ReadAnswers(unsafe, attributes, raw.fields);
    return if |unknown + bad| > 0 then Invalid(unknown + bad) else Valid(values);
  }

  predicate IsKeyChar(c: char) {
    'a' <= c <= 'z' || '0' <= c <= '9' || c == '_'
  }

  /** Lower-case words joined by single underscores, two to forty characters in all. */
  predicate IsAttributeKey(key: string) {
    && 2 <= |key| <= 40 && 'a' <= key[0] <= 'z' && key[|key| - 1] != '_'
    && (forall i | 0 <= i < |key| :: IsKeyChar(key[i]))
    && (forall i | 0 < i < |key| :: key[i] != '_' || key[i - 1] != '_')
  }

  /** What the category schema guarantees. */
  ghost predicate SoundSchema(attributes: seq<Attribute>) {
    && DistinctTexts(Keys(attributes))
    && forall a | a in attributes :: SoundKind(a.kind) && IsAttributeKey(a.key)
  }

  /** Each definition decides its own field and no other. */
  ghost predicate AnsweredBy(unsafe: char -> bool, a: Attribute, fields: map<string, Raw>, values: map<string, Value>) {
    && (a.key in values <==> Supplied(fields, a.key))
    && (Supplied(fields, a.key) ==> Reads(unsafe, a.kind, fields[a.key]) == Read(values[a.key]))
  }

  lemma KeysOfPrefix(attributes: seq<Attribute>, n: nat)
    requires n <= |attributes|
    ensures Keys(attributes[..n]) == Keys(attributes)[..n]
  {
  }

  lemma {:induction false} NoBadAnswers(unsafe: char -> bool, attributes: seq<Attribute>, fields: map<string, Raw>)
    ensures Answers(unsafe, attributes, fields).1 == []
       <==> forall a | a in attributes && Supplied(fields, a.key) :: Reads(unsafe, a.kind, fields[a.key]).Read?
  {
    if attributes != [] {
      var n := |attributes| - 1;
      NoBadAnswers(unsafe, attributes[..n], fields);
      assert attributes == attributes[..n] + [attributes[n]];
      hide Reads, Supplied;
      assert forall a :: a in attributes <==> a in attributes[..n] || a == attributes[n];
    }
  }

  lemma {:induction false} AnswersAreKnown(unsafe: char -> bool, attributes: seq<Attribute>, fields: map<string, Raw>)
    ensures forall k | k in Answers(unsafe, attributes, fields).0 :: k in Keys(attributes)
  {
    if attributes != [] {
      var n := |attributes| - 1;
      AnswersAreKnown(unsafe, attributes[..n], fields);
      hide Reads, Supplied;
      KeysOfPrefix(attributes, n);
      assert Keys(attributes)[n] == attributes[n].key;
    }
  }

  lemma {:induction false} EachIsAnswered(
    unsafe: char -> bool, attributes: seq<Attribute>, fields: map<string, Raw>, i: nat)
    requires DistinctTexts(Keys(attributes)) && "__proto__" !in Keys(attributes)
    requires Answers(unsafe, attributes, fields).1 == [] && i < |attributes|
    ensures AnsweredBy(unsafe, attributes[i], fields, Answers(unsafe, attributes, fields).0)
  {
    var n := |attributes| - 1;
    KeysOfPrefix(attributes, n);
    assert Keys(attributes)[i] == attributes[i].key && Keys(attributes)[n] == attributes[n].key;
    hide Reads, Supplied;
    if i < n {
      EachIsAnswered(unsafe, attributes[..n], fields, i);
      assert attributes[i].key != attributes[n].key;
    } else {
      AnswersAreKnown(unsafe, attributes[..n], fields);
    }
  }

  lemma ProtoIsNoKey(attributes: seq<Attribute>)
    requires SoundSchema(attributes)
    ensures "__proto__" !in Keys(attributes)
  {
    forall i | 0 <= i < |attributes|
      ensures Keys(attributes)[i] != "__proto__"
    {
      assert attributes[i] in attributes;
    }
  }

  /** Acceptance decided, and the stored values pinned down field by field. */
  lemma WhenAnswersAreValid(unsafe: char -> bool, attributes: seq<Attribute>, raw: Raw)
    requires SoundSchema(attributes)
    ensures Validated(unsafe, attributes, raw).Valid?
       <==> && raw.Object? && |raw.keys| <= MAX_CATEGORY_ATTRIBUTES
            && (forall k | k in raw.keys :: k in Keys(attributes))
            && forall a | a in attributes && Supplied(raw.fields, a.key) ::
                 Reads(unsafe, a.kind, raw.fields[a.key]).Read?
    ensures Validated(unsafe, attributes, raw).Valid?
        ==> var values := Validated(unsafe, attributes, raw).values;
            && (forall k | k in values :: k in Keys(attributes))
            && forall a | a in attributes :: AnsweredBy(unsafe, a, raw.fields, values)
  {
    if raw.Object? {
      hide Answers, Reads, Supplied, AnsweredBy;
      NoBadAnswers(unsafe, attributes, raw.fields);
      AnswersAreKnown(unsafe, attributes, raw.fields);
      ProtoIsNoKey(attributes);
      if Validated(unsafe, attributes, raw).Valid? {
        forall a | a in attributes
          ensures AnsweredBy(unsafe, a, raw.fields, Validated(unsafe, attributes, raw).values)
        {
          var i :| 0 <= i < |attributes| && attributes[i] == a;
          EachIsAnswered(unsafe, attributes, raw.fields, i);
        }
      }
    }
  }

  // ---- The issues ---------------------------------------------------------------------------------

  lemma {:induction false} UnknownFieldsAre(known: seq<string>, keys: seq<string>, issue: Issue)
    ensures issue in UnknownFields(known, keys)
       <==> issue.UnknownField? && issue.key in keys && issue.key !in known
  {
    if keys != [] {
      var front, last := keys[..|keys| - 1], keys[|keys| - 1];
      var before, more := UnknownFields(known, front), if last in known then [] else [UnknownField(last)];
      assert UnknownFields(known, keys) == before + more;
      UnknownFieldsAre(known, front, issue);
      hide UnknownFields;
      InEither(before, more, issue);
      InEither(front, [last], if issue.UnknownField? then issue.key else "");
      assert keys == front + [last];
    }
  }

  lemma InEither<T>(a: seq<T>, b: seq<T>, x: T)
    ensures x in a + b <==> x in a || x in b
  {
  }

  /** Some definition, supplied with an answer, refuses it for that problem. */
  ghost predicate Complains(unsafe: char -> bool, attributes: seq<Attribute>, fields: map<string, Raw>, issue: Issue) {
    exists a :: a in attributes && Supplied(fields, a.key) && issue.BadAnswer?
             && issue.key == a.key && issue.caption == a.caption
             && Reads(unsafe, a.kind, fields[a.key]) == Refused(issue.problem)
  }

  lemma {:induction false} BadAnswersAre(
    unsafe: char -> bool, attributes: seq<Attribute>, fields: map<string, Raw>, issue: Issue)
    ensures issue in Answers(unsafe, attributes, fields).1 <==> Complains(unsafe, attributes, fields, issue)
  {
    hide Reads, Supplied;
    if attributes != [] {
      var n := |attributes| - 1;
      BadAnswersAre(unsafe, attributes[..n], fields, issue);
      assert attributes == attributes[..n] + [attributes[n]];
      assert forall a :: a in attributes <==> a in attributes[..n] || a == attributes[n];
    }
  }

  /** What a refused set of answers is refused for: each unknown key and each bad answer, and nothing else. */
  lemma WhatIsComplainedOf(unsafe: char -> bool, attributes: seq<Attribute>, raw: Raw, issue: Issue)
    requires raw.Object? && |raw.keys| <= 12 && Validated(unsafe, attributes, raw).Invalid?
    ensures issue in Validated(unsafe, attributes, raw).issues
       <==> || (issue.UnknownField? && issue.key in raw.keys && forall a | a in attributes :: a.key != issue.key)
            || Complains(unsafe, attributes, raw.fields, issue)
  {
    hide Reads, Answers, UnknownFields, Supplied, Complains;
    UnknownFieldsAre(Keys(attributes), raw.keys, issue);
    BadAnswersAre(unsafe, attributes, raw.fields, issue);
    if issue.UnknownField? { KeysHold(attributes, issue.key); }
  }

  lemma KeysHold(attributes: seq<Attribute>, key: string)
    ensures key in Keys(attributes) <==> exists a :: a in attributes && a.key == key
  {
    if key in Keys(attributes) {
      var i :| 0 <= i < |attributes| && Keys(attributes)[i] == key;
      assert attributes[i] in attributes;
    }
    if a :| a in attributes && a.key == key {
      var i :| 0 <= i < |attributes| && attributes[i] == a;
      assert Keys(attributes)[i] == key;
    }
  }

  /** The two refusals that look at nothing further. */
  lemma WhenNothingIsWalked(unsafe: char -> bool, attributes: seq<Attribute>, raw: Raw)
    ensures !raw.Object? ==> Validated(unsafe, attributes, raw) == Invalid([NotAnObject])
    ensures raw.Object? && |raw.keys| > 12 ==> Validated(unsafe, attributes, raw) == Invalid([TooManyValues])
  {
    hide Answers, UnknownFields;
  }

  // ---- The fixed point --------------------------------------------------------------------------

  /** The decimal places declared for a key. */
  function PlacesFor(attributes: seq<Attribute>, key: string): int {
    if attributes == [] then 0
    else if attributes[0].key == key then PlacesOf(attributes[0].kind)
    else PlacesFor(attributes[1..], key)
  }

  lemma {:induction false} PlacesForKey(attributes: seq<Attribute>, i: nat)
    requires DistinctTexts(Keys(attributes)) && i < |attributes|
    ensures PlacesFor(attributes, attributes[i].key) == PlacesOf(attributes[i].kind)
  {
    assert Keys(attributes)[i] == attributes[i].key && Keys(attributes)[0] == attributes[0].key;
    if i > 0 {
      assert Keys(attributes[1..]) == Keys(attributes)[1..];
      PlacesForKey(attributes[1..], i - 1);
    }
  }

  /** A form filled in from stored values. */
  function Rendered(attributes: seq<Attribute>, values: map<string, Value>): (fields: map<string, Raw>)
    ensures fields.Keys == values.Keys
  {
    map k | k in values :: Shown(PlacesFor(attributes, k), values[k])
  }

  lemma RenderedReadsBack(
    unsafe: char -> bool, attributes: seq<Attribute>, fields: map<string, Raw>, values: map<string, Value>, i: nat)
    requires SoundSchema(attributes) && i < |attributes|
    requires AnsweredBy(unsafe, attributes[i], fields, values)
    ensures AnsweredBy(unsafe, attributes[i], Rendered(attributes, values), values)
  {
    var a := attributes[i];
    PlacesForKey(attributes, i);
    if a.key in values {
      hide Reads, Shown, PlacesFor, PlacesOf, SoundKind, DistinctTexts;
      AnswerReadsBack(unsafe, a.kind, fields[a.key]);
    }
  }

  lemma {:induction false} FewerKeys(a: seq<string>, b: seq<string>)
    requires DistinctTexts(a) && forall k | k in a :: k in b
    ensures |a| <= |b|
  {
    if a != [] {
      assert a[0] in a;
      var j :| 0 <= j < |b| && b[j] == a[0];
      var rest := b[..j] + b[j + 1..];
      forall k | k in a[1..]
        ensures k in rest
      {
        assert k in a && k in b && k != a[0];
        var i :| 0 <= i < |b| && b[i] == k;
        assert if i < j then rest[i] == k else rest[i - 1] == k;
      }
      FewerKeys(a[1..], rest);
    }
  }

  /** Two sets of values that answer the same definitions alike are the same. */
  lemma AnswersDetermineValues(
    unsafe: char -> bool, attributes: seq<Attribute>, fields: map<string, Raw>,
    a: map<string, Value>, b: map<string, Value>)
    requires forall x | x in attributes :: AnsweredBy(unsafe, x, fields, a) && AnsweredBy(unsafe, x, fields, b)
    requires forall k | k in a || k in b :: k in Keys(attributes)
    ensures a == b
  {
    hide Reads, Supplied;
    forall k | k in a || k in b
      ensures k in a && k in b && a[k] == b[k]
    {
      var i :| 0 <= i < |attributes| && Keys(attributes)[i] == k;
      assert AnsweredBy(unsafe, attributes[i], fields, a) && AnsweredBy(unsafe, attributes[i], fields, b);
    }
    assert a.Keys == b.Keys;
  }

  /** Accepted answers are a fixed point: rendered back to text in any order, they validate to themselves. */
  lemma StoredAnswersAreAFixedPoint(unsafe: char -> bool, attributes: seq<Attribute>, raw: Raw, again: Raw)
    requires SoundSchema(attributes) && IsRecord(raw)
    requires Validated(unsafe, attributes, raw).Valid?
    requires again.Object? && IsRecord(again)
    requires again.fields == Rendered(attributes, Validated(unsafe, attributes, raw).values)
    ensures Validated(unsafe, attributes, again) == Validated(unsafe, attributes, raw)
  {
    hide Validated, Rendered, Reads, Answers;
    var values := Validated(unsafe, attributes, raw).values;
    WhenAnswersAreValid(unsafe, attributes, raw);
    forall a | a in attributes
      ensures AnsweredBy(unsafe, a, again.fields, values)
    {
      var i :| 0 <= i < |attributes| && attributes[i] == a;
      RenderedReadsBack(unsafe, attributes, raw.fields, values, i);
    }
    KeysWereSubmitted(unsafe, attributes, raw.fields, values);
    FewerKeys(again.keys, raw.keys);
    WhenAnswersAreValid(unsafe, attributes, again);
    AnswersDetermineValues(unsafe, attributes, again.fields, values, Validated(unsafe, attributes, again).values);
  }

  lemma KeysWereSubmitted(
    unsafe: char -> bool, attributes: seq<Attribute>, fields: map<string, Raw>, values: map<string, Value>)
    requires forall k | k in values :: k in Keys(attributes)
    requires forall a | a in attributes :: AnsweredBy(unsafe, a, fields, values)
    ensures forall k | k in values :: k in fields
  {
    hide Reads;
    forall k | k in values
      ensures k in fields
    {
      var i :| 0 <= i < |attributes| && Keys(attributes)[i] == k;
      assert AnsweredBy(unsafe, attributes[i], fields, values);
    }
  }

  // ---- Publication ------------------------------------------------------------------------------

  /** The names every object answers to without having them. */
  const INHERITED: set<string> := {
    "constructor", "__proto__", "hasOwnProperty", "isPrototypeOf", "propertyIsEnumerable", "toLocaleString",
    "toString", "valueOf", "__defineGetter__", "__defineSetter__", "__lookupGetter__", "__lookupSetter__"}

  predicate IsInherited(key: string) {
    key in INHERITED
  }

  /** `values[key]` reads through to what the object inherits, and that is never a blank. */
  predicate Answered(values: map<string, Value>, key: string) {
    if key in values then !Blankish(values[key]) else IsInherited(key)
  }

  lemma HasCapital(key: string, i: nat)
    requires i < |key| && 'A' <= key[i] <= 'Z'
    ensures !IsAttributeKey(key)
  {
    assert !IsKeyChar(key[i]);
  }

  /** Of those names the key pattern admits one. */
  lemma OnlyConstructorIsAKey(key: string)
    requires IsInherited(key)
    ensures IsAttributeKey(key) <==> key == "constructor"
  {
    if key == "hasOwnProperty" { HasCapital(key, 3); }
    else if key == "propertyIsEnumerable" { HasCapital(key, 8); }
    else if key == "valueOf" { HasCapital(key, 5); }
    else if key in {"isPrototypeOf", "toLocaleString", "toString"} { HasCapital(key, 2); }
    else if key != "constructor" { assert key[0] == '_'; }
  }

  function Missing(attributes: seq<Attribute>, values: map<string, Value>): seq<string> {
    if attributes == [] then []
    else
      var n := |attributes| - 1;
      var a := attributes[n];
      Missing(attributes[..n], values) + if a.required && !Answered(values, a.key) then [a.key] else []
  }

  /** The attribute fields that keep a listing from being published, in form order. */
  method AttributeBlockers(attributes: seq<Attribute>, values: map<string, Value>) returns (blockers: seq<string>)
    ensures blockers == Missing(attributes, values)
  {
    blockers := [];
    for i := 0 to |attributes|
      invariant blockers == Missing(attributes[..i], values)
    {
      var a := attributes[i];
      assert attributes[..i + 1][..i] == attributes[..i];
      if !a.required { continue; }
      if !Answered(values, a.key) { blockers := blockers + [a.key]; }
    }
    assert attributes[..|attributes|] == attributes;
  }

  lemma {:induction false} MissingIs(attributes: seq<Attribute>, values: map<string, Value>, key: string)
    ensures key in Missing(attributes, values)
       <==> exists a :: a in attributes && a.key == key && a.required && !Answered(values, key)
  {
    if attributes != [] {
      var n := |attributes| - 1;
      MissingIs(attributes[..n], values, key);
      assert attributes == attributes[..n] + [attributes[n]];
      hide Answered;
      assert forall a :: a in attributes <==> a in attributes[..n] || a == attributes[n];
    }
  }

  /** Whatever is stored, a field blocks exactly when a required definition of that key finds nothing there,
      or an empty text, or an empty list. */
  lemma WhatBlocks(attributes: seq<Attribute>, values: map<string, Value>, key: string)
    ensures key in Missing(attributes, values)
       <==> && (exists a :: a in attributes && a.key == key && a.required)
            && if key in values then values[key] == TextValue("") || values[key] == ManyValue([])
               else key !in INHERITED
  {
    MissingIs(attributes, values, key);
    hide Missing;
  }

  lemma BlocksWhen(attributes: seq<Attribute>, values: map<string, Value>, i: nat)
    requires DistinctTexts(Keys(attributes)) && i < |attributes|
    requires attributes[i].key in values ==> !Blankish(values[attributes[i].key])
    ensures attributes[i].key in Missing(attributes, values)
       <==> attributes[i].required && attributes[i].key !in values && !IsInherited(attributes[i].key)
  {
    hide Missing, IsInherited, DistinctTexts, Keys;
    MissingIs(attributes, values, attributes[i].key);
    SameKeySameAttribute(attributes, i);
    assert attributes[i] in attributes;
  }

  /** For validated values, a required attribute blocks publication exactly when its key is absent,
      except under the one key that every object inherits. */
  lemma RequiredBlocksExactlyWhenAbsent(unsafe: char -> bool, attributes: seq<Attribute>, raw: Raw, i: nat)
    requires SoundSchema(attributes) && Validated(unsafe, attributes, raw).Valid? && i < |attributes|
    ensures var values := Validated(unsafe, attributes, raw).values;
            attributes[i].key in Missing(attributes, values)
            <==> attributes[i].required && attributes[i].key !in values && attributes[i].key != "constructor"
  {
    hide Validated, Missing, IsAttributeKey, SoundKind, IsInherited, DistinctTexts, Keys, Blankish;
    var key := attributes[i].key;
    StoredIsNoBlank(unsafe, attributes, raw, i);
    BlocksWhen(attributes, Validated(unsafe, attributes, raw).values, i);
    ConstructorIsInherited();
    assert attributes[i] in attributes;
    if IsInherited(key) { OnlyConstructorIsAKey(key); }
  }

  lemma StoredIsNoBlank(unsafe: char -> bool, attributes: seq<Attribute>, raw: Raw, i: nat)
    requires SoundSchema(attributes) && Validated(unsafe, attributes, raw).Valid? && i < |attributes|
    ensures var values := Validated(unsafe, attributes, raw).values;
            attributes[i].key in values ==> !Blankish(values[attributes[i].key])
  {
    hide Validated, Reads, IsAttributeKey, SoundKind, DistinctTexts, Keys, Shown;
    var values, key := Validated(unsafe, attributes, raw).values, attributes[i].key;
    WhenAnswersAreValid(unsafe, attributes, raw);
    assert attributes[i] in attributes;
    assert AnsweredBy(unsafe, attributes[i], raw.fields, values);
    if key in values { AnswerReadsBack(unsafe, attributes[i].kind, raw.fields[key]); }
  }

  lemma ConstructorIsInherited()
    ensures IsInherited("constructor")
  {
  }

  /** A required attribute of that name is taken as answered on an empty form. */
  lemma ConstructorIsNeverMissing(unsafe: char -> bool)
    ensures var attributes := [Attribute("constructor", "Constructor", true, Text(200))];
            && SoundSchema(attributes)
            && Validated(unsafe, attributes, Object([], map[])) == Valid(map[])
            && Missing(attributes, map[]) == []
  {
    var a := Attribute("constructor", "Constructor", true, Text(200));
    var attributes := [a];
    OnlyConstructorIsAKey(a.key);
    assert Keys(attributes) == [a.key];
    assert attributes[..0] == [];
    assert Answers(unsafe, [], map[]) == (map[], []);
    assert !Supplied(map[], a.key);
  }

  lemma SameKeySameAttribute(attributes: seq<Attribute>, i: nat)
    requires DistinctTexts(Keys(attributes)) && i < |attributes|
    ensures forall a | a in attributes && a.key == attributes[i].key :: a == attributes[i]
  {
    forall a | a in attributes && a.key == attributes[i].key
      ensures a == attributes[i]
    {
      var j :| 0 <= j < |attributes| && attributes[j] == a;
      assert Keys(attributes)[j] == Keys(attributes)[i];
    }
  }
}
