/** Redaction of values that can be drawn as trees, and when their shape is kept. */
module RedactionTrees {
  import opened Basics
  import opened SensitiveKeys
  import opened Redaction

  /** A value drawn as a tree of objects, arrays and errors, each at its own address. */
  datatype Tree =
    | Leaf(value: Value)
    | ArrayAt(ref: Ref, items: seq<Tree>)
    | RecordAt(ref: Ref, entries: seq<Entry>)
    | ErrorAt(ref: Ref, name: string, message: string, stack: Option<string>, cause: Option<Tree>)

  datatype Entry = Entry(key: string, tree: Tree)

  function Size(t: Tree): nat {
    match t
    case Leaf(_) => 0
    case ArrayAt(_, items) => |items|
    case RecordAt(_, entries) => |entries|
    case ErrorAt(_, _, _, _, cause) => if cause.Some? then 1 else 0
  }

  function Sub(t: Tree, i: nat): Tree
    requires i < Size(t)
  {
    if t.ArrayAt? then t.items[i] else if t.RecordAt? then t.entries[i].tree else t.cause.value
  }

  /** The node a branch stands for, one level deep. */
  predicate SameShape(node: Node, t: Tree)
    requires !t.Leaf?
  {
    match t
    case ArrayAt(_, items) => node.Array? && |node.items| == |items|
    case RecordAt(_, entries) =>
      && node.Record? && |node.fields| == |entries|
      && forall i | 0 <= i < |entries| :: node.fields[i].key == entries[i].key
    case ErrorAt(_, name, message, stack, cause) =>
      && node.Error? && node.name == name && node.message == message && node.stack == stack
      && node.cause.Some? == cause.Some?
  }

  predicate IsHidden(t: Tree, i: nat)
    requires i < Size(t)
  {
    t.RecordAt? && IsSensitiveKey(t.entries[i].key)
  }

  /** The value drawn out as a tree, as far as it is visible: what stands under a sensitive key is anything. */
  ghost predicate Draws(heap: Heap, value: Value, t: Tree)
    decreases t
  {
    if t.Leaf? then value == t.value && !value.Object?
    else
      && value == Object(t.ref) && t.ref in heap && SameShape(heap[t.ref], t)
      && forall i | 0 <= i < Size(t) && !IsHidden(t, i) :: Draws(heap, Children(heap[t.ref])[i].value, Sub(t, i))
  }

  /** The objects that stand at visible positions. */
  ghost function Refs(t: Tree): set<Ref>
    decreases t, Size(t) + 1
  {
    if t.Leaf? then {} else {t.ref} + RefsFrom(t, 0)
  }

  ghost function RefsFrom(t: Tree, i: nat): set<Ref>
    requires i <= Size(t)
    decreases t, Size(t) - i
  {
    if i == Size(t) then {}
    else (if IsHidden(t, i) then {} else Refs(Sub(t, i))) + RefsFrom(t, i + 1)
  }

  /** Those below one part. */
  ghost function PartRef(t: Tree, i: nat): set<Ref>
    requires i < Size(t)
  {
    if IsHidden(t, i) then {} else Refs(Sub(t, i))
  }

  /** No object stands at two visible positions. */
  ghost predicate VisiblyApart(t: Tree)
    decreases t
  {
    && (forall i | 0 <= i < Size(t) && !IsHidden(t, i) :: VisiblyApart(Sub(t, i)))
    && (forall i | 0 <= i < Size(t) :: t.ref !in PartRef(t, i))
    && (forall i, j | 0 <= i < j < Size(t) :: PartRef(t, i) !! PartRef(t, j))
  }

  /** How an error is shown: its name, its message masked, its stack masked or undefined if it has none, and
      its cause if it has one. */
  function ErrorShown(mask: string -> string, t: Tree, cause: seq<Output>): Output
    requires t.ErrorAt?
  {
    var stack := if t.stack == None || t.stack == Some("") then OutUndefined else OutText(mask(t.stack.value));
    var own := [OutField("name", OutText(t.name)), OutField("message", OutText(mask(t.message))),
                OutField("stack", stack)];
    OutRecord(if cause == [] then own else own + [OutField("cause", cause[0])])
  }

  /** The same tree with sensitive entries replaced and text masked: no addresses, no bookkeeping. */
  function RedactTree(mask: string -> string, t: Tree): Output {
    match t
    case Leaf(Text(text)) => OutText(mask(text))
    case Leaf(Scalar(id)) => OutScalar(id)
    case Leaf(Object(_)) => OutUndefined
    case ArrayAt(_, items) => OutArray(seq(|items|, i requires 0 <= i < |items| => RedactTree(mask, items[i])))
    case RecordAt(_, entries) =>
      OutRecord(seq(|entries|, i requires 0 <= i < |entries| =>
        OutField(entries[i].key,
                 if IsSensitiveKey(entries[i].key) then OutText(REDACTED) else RedactTree(mask, entries[i].tree))))
    case ErrorAt(_, _, _, _, cause) =>
      ErrorShown(mask, t, if cause.Some? then [RedactTree(mask, cause.value)] else [])
  }

  /** What is logged of it: entries under `__proto__` are missing. */
  function LoggedTree(mask: string -> string, t: Tree): Output
    decreases t, Size(t) + 1
  {
    match t
    case Leaf(Text(text)) => OutText(mask(text))
    case Leaf(Scalar(id)) => OutScalar(id)
    case Leaf(Object(_)) => OutUndefined
    case ArrayAt(_, items) => OutArray(seq(|items|, i requires 0 <= i < |items| => LoggedTree(mask, items[i])))
    case RecordAt(_, entries) => OutRecord(LoggedFrom(mask, t, 0))
    case ErrorAt(_, _, _, _, cause) =>
      ErrorShown(mask, t, if cause.Some? then [LoggedTree(mask, cause.value)] else [])
  }

  function LoggedFrom(mask: string -> string, t: Tree, i: nat): seq<OutField>
    requires t.RecordAt? && i <= |t.entries|
    decreases t, |t.entries| - i
  {
    if i == |t.entries| then []
    else
      var e := t.entries[i];
      var out := if IsSensitiveKey(e.key) then OutText(REDACTED) else LoggedTree(mask, e.tree);
      (if e.key == PROTO then [] else [OutField(e.key, out)]) + LoggedFrom(mask, t, i + 1)
  }

  function Expected(mask: string -> string, t: Tree, i: nat): Output
    requires i < Size(t)
  {
    if IsHidden(t, i) then OutText(REDACTED) else LoggedTree(mask, Sub(t, i))
  }

  lemma {:induction false} AssignedTree(
    mask: string -> string, fields: seq<Field>, t: Tree, outs: seq<Output>, i: nat)
    requires t.RecordAt? && i <= |fields| == |outs| == |t.entries|
    requires forall k | 0 <= k < |fields| :: fields[k].key == t.entries[k].key && outs[k] == Expected(mask, t, k)
    ensures Assigned(fields[i..], outs[i..]) == LoggedFrom(mask, t, i)
    decreases |fields| - i
  {
    hide IsSensitiveKey, LoggedTree;
    if i < |fields| {
      AssignedTree(mask, fields, t, outs, i + 1);
      assert fields[i..][1..] == fields[i + 1..] && outs[i..][1..] == outs[i + 1..];
    }
  }

  lemma RebuiltTree(mask: string -> string, node: Node, t: Tree, outs: seq<Output>)
    requires !t.Leaf? && SameShape(node, t)
    requires |outs| == Size(t) && forall i | 0 <= i < |outs| :: outs[i] == Expected(mask, t, i)
    ensures Rebuilt(mask, node, outs) == LoggedTree(mask, t)
  {
    hide IsSensitiveKey;
    if t.ArrayAt? {
      assert LoggedTree(mask, t).items == outs;
    } else if t.ErrorAt? {
      assert outs == if t.cause.Some? then [LoggedTree(mask, t.cause.value)] else [];
    } else {
      AssignedTree(mask, node.fields, t, outs, 0);
      assert node.fields[0..] == node.fields && outs[0..] == outs;
    }
  }

  // Whether anything is missing.

  /** A record that is shown holds the key. */
  ghost predicate ShowsProto(t: Tree)
    decreases t
  {
    || (t.RecordAt? && exists i | 0 <= i < |t.entries| :: t.entries[i].key == PROTO)
    || exists i | 0 <= i < Size(t) :: !IsHidden(t, i) && ShowsProto(Sub(t, i))
  }

  ghost predicate HoldsProtoFrom(t: Tree, i: nat)
    requires t.RecordAt? && i <= |t.entries|
  {
    exists k | i <= k < |t.entries| :: t.entries[k].key == PROTO
  }

  lemma {:induction false} LoggedLength(mask: string -> string, t: Tree, i: nat)
    requires t.RecordAt? && i <= |t.entries|
    ensures |LoggedFrom(mask, t, i)| <= |t.entries| - i
    ensures |LoggedFrom(mask, t, i)| == |t.entries| - i <==> !HoldsProtoFrom(t, i)
    ensures !HoldsProtoFrom(t, i) ==>
              forall k | 0 <= k < |t.entries| - i ::
                LoggedFrom(mask, t, i)[k] == OutField(t.entries[i + k].key, Expected(mask, t, i + k))
    decreases |t.entries| - i
  {
    hide IsSensitiveKey, LoggedTree;
    if i < |t.entries| {
      LoggedLength(mask, t, i + 1);
      assert HoldsProtoFrom(t, i) <==> t.entries[i].key == PROTO || HoldsProtoFrom(t, i + 1);
    }
  }

  ghost predicate SameBelow(mask: string -> string, t: Tree) {
    forall i | 0 <= i < Size(t) && !IsHidden(t, i) ::
      LoggedTree(mask, Sub(t, i)) == RedactTree(mask, Sub(t, i)) <==> !ShowsProto(Sub(t, i))
  }

  lemma RedactedField(mask: string -> string, t: Tree, k: nat)
    requires t.RecordAt? && k < Size(t)
    ensures var fields := RedactTree(mask, t).fields;
            |fields| == Size(t)
            && fields[k] == OutField(t.entries[k].key,
                                     if IsHidden(t, k) then OutText(REDACTED) else RedactTree(mask, Sub(t, k)))
  {
    hide IsSensitiveKey;
  }

  lemma FieldsAgree(mask: string -> string, t: Tree)
    requires t.RecordAt? && SameBelow(mask, t) && !HoldsProtoFrom(t, 0)
    ensures LoggedFrom(mask, t, 0) == RedactTree(mask, t).fields
       <==> forall k | 0 <= k < Size(t) :: IsHidden(t, k) || !ShowsProto(Sub(t, k))
  {
    hide IsSensitiveKey;
    var logged, whole := LoggedFrom(mask, t, 0), RedactTree(mask, t).fields;
    LoggedLength(mask, t, 0);
    assert |whole| == Size(t);
    hide LoggedTree, RedactTree, LoggedFrom, ShowsProto, HoldsProtoFrom, IsHidden;
    forall k | 0 <= k < Size(t)
      ensures logged[k] == whole[k] <==> IsHidden(t, k) || !ShowsProto(Sub(t, k))
    {
      RedactedField(mask, t, k);
      assert logged[k] == OutField(t.entries[k].key, Expected(mask, t, k));
    }
  }

  lemma RecordShape(mask: string -> string, t: Tree)
    requires t.RecordAt? && SameBelow(mask, t)
    ensures LoggedTree(mask, t) == RedactTree(mask, t) <==> !ShowsProto(t)
  {
    hide IsSensitiveKey, SameBelow, LoggedFrom, IsHidden;
    LoggedLength(mask, t, 0);
    if HoldsProtoFrom(t, 0) {
      assert ShowsProto(t);
      assert |RedactTree(mask, t).fields| == Size(t);
    } else {
      FieldsAgree(mask, t);
    }
  }

  lemma ArrayShape(mask: string -> string, t: Tree)
    requires t.ArrayAt? && SameBelow(mask, t)
    ensures LoggedTree(mask, t) == RedactTree(mask, t) <==> !ShowsProto(t)
  {
    var logged, whole := LoggedTree(mask, t).items, RedactTree(mask, t).items;
    assert |logged| == |whole| == Size(t);
    assert forall k | 0 <= k < Size(t) ::
        logged[k] == LoggedTree(mask, Sub(t, k)) && whole[k] == RedactTree(mask, Sub(t, k));
    assert logged == whole <==> forall k | 0 <= k < Size(t) :: logged[k] == whole[k];
  }

  lemma ErrorShape(mask: string -> string, t: Tree)
    requires t.ErrorAt? && SameBelow(mask, t)
    ensures LoggedTree(mask, t) == RedactTree(mask, t) <==> !ShowsProto(t)
  {
    if t.cause.Some? {
      assert Size(t) == 1 && Sub(t, 0) == t.cause.value && !IsHidden(t, 0);
      var logged, whole := LoggedTree(mask, t.cause.value), RedactTree(mask, t.cause.value);
      assert ErrorShown(mask, t, [logged]).fields[3] == OutField("cause", logged);
      assert ErrorShown(mask, t, [whole]).fields[3] == OutField("cause", whole);
      hide LoggedTree, RedactTree, ShowsProto;
      ShowsByCause(mask, t);
    } else {
      assert Size(t) == 0;
    }
  }

  lemma ShowsByCause(mask: string -> string, t: Tree)
    requires t.ErrorAt? && t.cause.Some?
    ensures ShowsProto(t) <==> ShowsProto(t.cause.value)
    ensures LoggedTree(mask, t) == ErrorShown(mask, t, [LoggedTree(mask, t.cause.value)])
    ensures RedactTree(mask, t) == ErrorShown(mask, t, [RedactTree(mask, t.cause.value)])
  {
    assert Size(t) == 1 && Sub(t, 0) == t.cause.value && !IsHidden(t, 0);
  }

  /** The shape is kept exactly when no record that is shown holds that key. */
  lemma {:induction false} ShapeKeptUnlessProto(mask: string -> string, t: Tree)
    ensures LoggedTree(mask, t) == RedactTree(mask, t) <==> !ShowsProto(t)
    decreases t
  {
    if !t.Leaf? {
      hide LoggedTree, RedactTree, ShowsProto, IsHidden;
      forall i | 0 <= i < Size(t) && !IsHidden(t, i)
        ensures LoggedTree(mask, Sub(t, i)) == RedactTree(mask, Sub(t, i)) <==> !ShowsProto(Sub(t, i))
      {
        ShapeKeptUnlessProto(mask, Sub(t, i));
      }
      match t
      case RecordAt(_, _) => RecordShape(mask, t);
      case ArrayAt(_, _) => ArrayShape(mask, t);
      case ErrorAt(_, _, _, _, _) => ErrorShape(mask, t);
    }
  }

  lemma ChildOfBranch(node: Node, t: Tree, i: nat)
    requires !t.Leaf? && SameShape(node, t) && i < Size(t)
    ensures |Children(node)| == Size(t)
    ensures Children(node)[i].hidden <==> t.RecordAt? && IsSensitiveKey(t.entries[i].key)
  {
    hide IsSensitiveKey;
  }

  lemma {:induction false} RefsOfPart(t: Tree, i: nat, k: nat)
    requires k <= i < Size(t)
    ensures PartRef(t, i) <= RefsFrom(t, k)
    decreases i - k
  {
    hide IsHidden, Refs;
    if k < i { RefsOfPart(t, i, k + 1); }
  }

  /** From any `seen` that misses `refs`, walking the child logs `out` and meets nothing outside `refs`. */
  ghost predicate GoesWell(
    mask: string -> string, heap: Heap, child: Child, out: Output, refs: set<Ref>, seen: set<Ref>)
    requires Closed(heap) && Points(heap, child.value)
  {
    seen !! refs
    ==> var w := WalkChild(mask, heap, child, seen); w.out == out && w.seen <= seen + refs
  }

  ghost predicate EachGoesWell(
    mask: string -> string, heap: Heap, cs: seq<Child>, outs: seq<Output>, refs: seq<set<Ref>>)
    requires Closed(heap) && AllPoint(heap, cs) && |outs| == |refs| == |cs|
  {
    forall j, seen | 0 <= j < |cs| :: GoesWell(mask, heap, cs[j], outs[j], refs[j], seen)
  }

  ghost function Union(refs: seq<set<Ref>>): (u: set<Ref>)
    ensures forall i | 0 <= i < |refs| :: refs[i] <= u
  {
    if refs == [] then {} else refs[0] + Union(refs[1..])
  }

  /** Children that do not overlap do not disturb one another. */
  lemma {:induction false} WalkApart(
    mask: string -> string, heap: Heap, cs: seq<Child>, outs: seq<Output>, refs: seq<set<Ref>>, seen: set<Ref>)
    requires Closed(heap) && AllPoint(heap, cs) && |outs| == |refs| == |cs|
    requires EachGoesWell(mask, heap, cs, outs, refs)
    requires forall i, j | 0 <= i < j < |refs| :: refs[i] !! refs[j]
    requires forall i | 0 <= i < |refs| :: refs[i] !! seen
    ensures var w := WalkAll(mask, heap, cs, seen); w.out == outs && w.seen <= seen + Union(refs)
    decreases |cs|
  {
    if cs != [] {
      hide Closed, WalkChild;
      assert GoesWell(mask, heap, cs[0], outs[0], refs[0], seen);
      var first := WalkChild(mask, heap, cs[0], seen);
      assert outs == [outs[0]] + outs[1..];
      LaterGoWell(mask, heap, cs, outs, refs);
      WalkApart(mask, heap, cs[1..], outs[1..], refs[1..], first.seen);
    }
  }

  lemma LaterGoWell(
    mask: string -> string, heap: Heap, cs: seq<Child>, outs: seq<Output>, refs: seq<set<Ref>>)
    requires Closed(heap) && AllPoint(heap, cs) && |outs| == |refs| == |cs| && cs != []
    requires EachGoesWell(mask, heap, cs, outs, refs)
    ensures AllPoint(heap, cs[1..]) && EachGoesWell(mask, heap, cs[1..], outs[1..], refs[1..])
  {
    hide Closed, GoesWell;
    forall j, seen | 0 <= j < |cs[1..]|
      ensures GoesWell(mask, heap, cs[1..][j], outs[1..][j], refs[1..][j], seen)
    {
      assert GoesWell(mask, heap, cs[j + 1], outs[j + 1], refs[j + 1], seen);
    }
  }

  ghost function PartOuts(mask: string -> string, t: Tree): (outs: seq<Output>)
    ensures |outs| == Size(t) && forall i | 0 <= i < Size(t) :: outs[i] == Expected(mask, t, i)
  {
    seq(Size(t), i requires 0 <= i < Size(t) => Expected(mask, t, i))
  }

  ghost function PartRefs(t: Tree): (refs: seq<set<Ref>>)
    ensures |refs| == Size(t) && forall i | 0 <= i < Size(t) :: refs[i] == PartRef(t, i)
  {
    seq(Size(t), i requires 0 <= i < Size(t) => PartRef(t, i))
  }

  lemma {:induction false} UnionWithin(refs: seq<set<Ref>>, s: set<Ref>)
    requires forall i | 0 <= i < |refs| :: refs[i] <= s
    ensures Union(refs) <= s
  {
    if refs != [] { UnionWithin(refs[1..], s); }
  }

  lemma {:induction false} WalkOfTree(mask: string -> string, heap: Heap, value: Value, t: Tree, seen: set<Ref>)
    requires Closed(heap) && Points(heap, value) && Draws(heap, value, t) && VisiblyApart(t) && Refs(t) !! seen
    ensures var w := Walk(mask, heap, value, seen); w.out == LoggedTree(mask, t) && w.seen <= seen + Refs(t)
    decreases t, 1
  {
    if !t.Leaf? {
      hide Closed, Rebuilt, IsSensitiveKey, Children, LoggedTree, PartRef;
      var cs, outs, refs := Children(heap[t.ref]), PartOuts(mask, t), PartRefs(t);
      PartsGoWell(mask, heap, t);
      forall i | 0 <= i < Size(t)
        ensures refs[i] <= Refs(t)
      {
        RefsOfPart(t, i, 0);
      }
      hide Refs, Draws, EachGoesWell;
      UnionWithin(refs, Refs(t));
      WalkApart(mask, heap, cs, outs, refs, seen + {t.ref});
      RebuiltTree(mask, heap[t.ref], t, outs);
    }
  }

  lemma {:induction false} PartsGoWell(mask: string -> string, heap: Heap, t: Tree)
    requires Closed(heap) && !t.Leaf? && Draws(heap, Object(t.ref), t) && VisiblyApart(t)
    ensures AllPoint(heap, Children(heap[t.ref])) && |Children(heap[t.ref])| == Size(t)
    ensures EachGoesWell(mask, heap, Children(heap[t.ref]), PartOuts(mask, t), PartRefs(t))
    decreases t, 0
  {
    hide Closed, Walk, IsSensitiveKey, LoggedTree, Refs;
    var cs := Children(heap[t.ref]);
    ChildrenPoint(heap, t.ref);
    hide Children, WalkAll;
    assert |cs| == Size(t);
    forall j, seen | 0 <= j < |cs|
      ensures GoesWell(mask, heap, cs[j], PartOuts(mask, t)[j], PartRefs(t)[j], seen)
    {
      ChildOfBranch(heap[t.ref], t, j);
      if !cs[j].hidden && seen !! Refs(Sub(t, j)) { WalkOfTree(mask, heap, cs[j].value, Sub(t, j), seen); }
    }
  }

  // ---- Counting positions -----------------------------------------------------------------------

  /** How many visible positions hold an object. */
  ghost function Branches(t: Tree): nat
    decreases t, 1
  {
    if t.Leaf? then 0 else 1 + SumOf(PartBranches(t))
  }

  ghost function PartBranches(t: Tree): (counts: seq<nat>)
    ensures |counts| == Size(t)
    ensures forall i | 0 <= i < Size(t) :: counts[i] == if IsHidden(t, i) then 0 else Branches(Sub(t, i))
    decreases t, 0
  {
    seq(Size(t), i requires 0 <= i < Size(t) => if IsHidden(t, i) then 0 else Branches(Sub(t, i)))
  }

  ghost function SumOf(counts: seq<nat>): nat {
    if counts == [] then 0 else counts[0] + SumOf(counts[1..])
  }

  ghost predicate Disjoint(sets: seq<set<Ref>>) {
    forall i, j | 0 <= i < j < |sets| :: sets[i] !! sets[j]
  }

  ghost predicate AllFull(sets: seq<set<Ref>>, counts: seq<nat>)
    requires |sets| == |counts|
  {
    forall i | 0 <= i < |sets| :: |sets[i]| == counts[i]
  }

  lemma UnionOfTwo(a: set<Ref>, b: set<Ref>)
    ensures |a + b| <= |a| + |b| && (|a + b| == |a| + |b| <==> a !! b)
  {
    assert |a + b| == |a| + |b| - |a * b|;
    assert forall x | x in a :: x in b <==> x in a * b;
  }

  lemma {:induction false} ApartFromUnion(a: set<Ref>, sets: seq<set<Ref>>)
    ensures a !! Union(sets) <==> forall i | 0 <= i < |sets| :: a !! sets[i]
  {
    if sets != [] { ApartFromUnion(a, sets[1..]); }
  }

  lemma DisjointCons(a: set<Ref>, sets: seq<set<Ref>>)
    ensures Disjoint([a] + sets) <==> Disjoint(sets) && forall i | 0 <= i < |sets| :: a !! sets[i]
  {
    var all := [a] + sets;
    if Disjoint(all) {
      forall i, j | 0 <= i < j < |sets|
        ensures sets[i] !! sets[j]
      {
        assert all[i + 1] !! all[j + 1];
      }
      forall i | 0 <= i < |sets|
        ensures a !! sets[i]
      {
        assert all[0] !! all[i + 1];
      }
    }
  }

  lemma FullCons(a: set<Ref>, n: nat, sets: seq<set<Ref>>, counts: seq<nat>)
    requires |sets| == |counts|
    ensures AllFull([a] + sets, [n] + counts) <==> |a| == n && AllFull(sets, counts)
  {
    var all, ns := [a] + sets, [n] + counts;
    if AllFull(all, ns) {
      assert |all[0]| == ns[0];
      assert forall i | 0 <= i < |sets| :: |all[i + 1]| == ns[i + 1] && all[i + 1] == sets[i] && ns[i + 1] == counts[i];
    }
  }

  /** A union is as large as its parts are allowed to be exactly when they are all full and none overlap. */
  lemma {:induction false} UnionCounts(sets: seq<set<Ref>>, counts: seq<nat>)
    requires |sets| == |counts| && forall i | 0 <= i < |sets| :: |sets[i]| <= counts[i]
    ensures |Union(sets)| <= SumOf(counts)
    ensures |Union(sets)| == SumOf(counts) <==> AllFull(sets, counts) && Disjoint(sets)
  {
    if sets != [] {
      var a, rest, n, ns := sets[0], sets[1..], counts[0], counts[1..];
      UnionCounts(rest, ns);
      UnionOfTwo(a, Union(rest));
      ApartFromUnion(a, rest);
      DisjointCons(a, rest);
      FullCons(a, n, rest, ns);
      assert sets == [a] + rest && counts == [n] + ns;
      hide AllFull, Disjoint;
    }
  }

  lemma {:induction false} RefsAreUnion(t: Tree, i: nat)
    requires i <= Size(t)
    ensures RefsFrom(t, i) == Union(PartRefs(t)[i..])
    decreases Size(t) - i
  {
    hide Refs, IsHidden;
    if i < Size(t) {
      RefsAreUnion(t, i + 1);
      assert PartRefs(t)[i..][1..] == PartRefs(t)[i + 1..];
    }
  }

  /** There are as many objects as positions exactly when none stands at two. */
  lemma {:induction false} ApartByCount(t: Tree)
    ensures |Refs(t)| <= Branches(t)
    ensures |Refs(t)| == Branches(t) <==> VisiblyApart(t)
    decreases t
  {
    if !t.Leaf? {
      hide IsSensitiveKey;
      var sets, counts := PartRefs(t), PartBranches(t);
      forall i | 0 <= i < Size(t)
        ensures |sets[i]| <= counts[i]
        ensures |sets[i]| == counts[i] <==> IsHidden(t, i) || VisiblyApart(Sub(t, i))
      {
        if !IsHidden(t, i) { ApartByCount(Sub(t, i)); }
      }
      UnionCounts(sets, counts);
      RefsAreUnion(t, 0);
      assert sets[0..] == sets;
      ApartFromUnion({t.ref}, sets);
      UnionOfTwo({t.ref}, Union(sets));
      ApartMeans(t);
    }
  }

  lemma ApartMeans(t: Tree)
    ensures VisiblyApart(t)
       <==> && (forall i | 0 <= i < Size(t) && !IsHidden(t, i) :: VisiblyApart(Sub(t, i)))
            && (forall i | 0 <= i < Size(t) :: {t.ref} !! PartRefs(t)[i]) && Disjoint(PartRefs(t))
  {
    hide PartRef, IsHidden;
  }

  lemma {:induction false} NodesOfEach(outs: seq<Output>, counts: seq<nat>)
    requires |outs| == |counts| && forall i | 0 <= i < |outs| :: Nodes(outs[i]) == counts[i]
    ensures NodesOf(outs) == SumOf(counts)
  {
    hide Nodes;
    if outs != [] { NodesOfEach(outs[1..], counts[1..]); }
  }

  /** What is shown at each part of a whole redaction. */
  ghost function WholeParts(mask: string -> string, t: Tree): (outs: seq<Output>)
    ensures |outs| == Size(t)
    ensures forall i | 0 <= i < Size(t) ::
              outs[i] == if IsHidden(t, i) then OutText(REDACTED) else RedactTree(mask, Sub(t, i))
  {
    seq(Size(t), i requires 0 <= i < Size(t) =>
      if IsHidden(t, i) then OutText(REDACTED) else RedactTree(mask, Sub(t, i)))
  }

  lemma NodesOfWhole(mask: string -> string, t: Tree)
    requires !t.Leaf?
    ensures Nodes(RedactTree(mask, t)) == 1 + NodesOf(WholeParts(mask, t))
  {
    hide IsSensitiveKey, Nodes, NodesOf;
    var out, parts := RedactTree(mask, t), WholeParts(mask, t);
    if t.ErrorAt? {
      var node := Error(t.name, t.message, t.stack, if t.cause.Some? then Some(Scalar(0)) else None);
      assert parts == if t.cause.Some? then [RedactTree(mask, t.cause.value)] else [];
      assert out == Rebuilt(mask, node, parts);
      NodesOfError(mask, node, parts);
    } else {
      NodesOfContainer(out, parts);
    }
  }

  /** A whole redaction shows an object at every position. */
  lemma {:induction false} NodesOfTree(mask: string -> string, t: Tree)
    ensures Nodes(RedactTree(mask, t)) == Branches(t)
    decreases t
  {
    if !t.Leaf? {
      hide IsSensitiveKey, Nodes, NodesOf, RedactTree;
      var parts, counts := WholeParts(mask, t), PartBranches(t);
      forall i | 0 <= i < Size(t)
        ensures Nodes(parts[i]) == counts[i]
      {
        if IsHidden(t, i) { MarkerHasNoNodes(); } else { NodesOfTree(mask, Sub(t, i)); }
      }
      NodesOfEach(parts, counts);
      NodesOfWhole(mask, t);
    } else {
      LeafHasNoNodes(RedactTree(mask, t));
    }
  }

  // ---- What a tree reaches ----------------------------------------------------------------------

  lemma {:induction false} RefsInPart(t: Tree, k: nat, r: Ref) returns (i: nat)
    requires k <= Size(t) && r in RefsFrom(t, k)
    ensures k <= i < Size(t) && !IsHidden(t, i) && r in Refs(Sub(t, i))
    decreases Size(t) - k
  {
    hide IsHidden;
    if !IsHidden(t, k) && r in Refs(Sub(t, k)) { i := k; } else { i := RefsInPart(t, k + 1, r); }
  }

  lemma RootIsRef(heap: Heap, value: Value, t: Tree)
    requires Draws(heap, value, t) && value.Object?
    ensures value.ref in Refs(t)
  {
  }

  lemma PartsWithin(t: Tree, i: nat)
    requires i < Size(t) && !IsHidden(t, i)
    ensures Refs(Sub(t, i)) <= Refs(t)
  {
    hide IsHidden;
    RefsOfPart(t, i, 0);
  }

  lemma {:induction false} RefsAreEnclosed(heap: Heap, value: Value, t: Tree, r: Ref)
    requires Draws(heap, value, t) && r in Refs(t)
    ensures r in heap && ShowsInto(heap, r, Refs(t))
    decreases t
  {
    hide IsSensitiveKey;
    if r == t.ref {
      var cs := Children(heap[t.ref]);
      forall i | 0 <= i < |cs|
        ensures IsIn(cs[i], Refs(t))
      {
        ChildOfBranch(heap[t.ref], t, i);
        if !IsHidden(t, i) && cs[i].value.Object? {
          RootIsRef(heap, cs[i].value, Sub(t, i));
          PartsWithin(t, i);
        }
      }
    } else {
      var i := RefsInPart(t, 0, r);
      RefsAreEnclosed(heap, Children(heap[t.ref])[i].value, Sub(t, i), r);
      PartsWithin(t, i);
      hide Refs;
    }
  }

  lemma {:induction false} RefsAreReached(heap: Heap, value: Value, t: Tree, s: set<Ref>, r: Ref)
    requires Draws(heap, value, t) && Enclosed(heap, s) && (value.Object? ==> value.ref in s) && r in Refs(t)
    ensures r in s
    decreases t
  {
    hide IsSensitiveKey;
    if r != t.ref {
      var i := RefsInPart(t, 0, r);
      var cs := Children(heap[t.ref]);
      ChildOfBranch(heap[t.ref], t, i);
      assert ShowsInto(heap, t.ref, s) && IsIn(cs[i], s);
      RefsAreReached(heap, cs[i].value, Sub(t, i), s, r);
    }
  }

  /** What the walk of a drawn value meets is what stands at its visible positions, however often. */
  lemma WalkMeetsRefs(mask: string -> string, heap: Heap, value: Value, t: Tree)
    requires Closed(heap) && Points(heap, value) && Draws(heap, value, t)
    ensures Walk(mask, heap, value, {}).seen == Refs(t)
  {
    hide Walk, Loses, Closed, Children, Nodes;
    var w := Walk(mask, heap, value, {});
    forall r | r in Refs(t)
      ensures r in heap && ShowsInto(heap, r, Refs(t))
    {
      RefsAreEnclosed(heap, value, t, r);
    }
    if value.Object? { RootIsRef(heap, value, t); }
    ReachableObjectsOnceEach(mask, heap, value, Refs(t));
    forall r | r in Refs(t)
      ensures r in w.seen
    {
      RefsAreReached(heap, value, t, w.seen, r);
    }
  }

  // ---- When the shape is kept -------------------------------------------------------------------

  /** A value is logged in the shape it is drawn in, with nothing changed but what had to be, if and only if no
      object stands at two visible positions and no record that is shown holds an own `__proto__`. */
  lemma TreeKeepsItsShape(mask: string -> string, heap: Heap, value: Value, t: Tree)
    requires Closed(heap) && Points(heap, value) && Draws(heap, value, t)
    ensures Walk(mask, heap, value, {}).out == RedactTree(mask, t) <==> VisiblyApart(t) && !ShowsProto(t)
  {
    hide *;
    ApartByCount(t);
    NodesOfTree(mask, t);
    WalkMeetsRefs(mask, heap, value, t);
    WalkCounts(mask, heap, value, {});
    if VisiblyApart(t) {
      WalkOfTree(mask, heap, value, t, {});
      ShapeKeptUnlessProto(mask, t);
    }
  }

  lemma {:induction false} NoProtoAt(heap: Heap, value: Value, t: Tree, r: Ref)
    requires Draws(heap, value, t) && !ShowsProto(t) && r in Refs(t)
    ensures r in heap && NoneDropped(Children(heap[r]))
    decreases t
  {
    hide IsSensitiveKey;
    if r != t.ref {
      var i := RefsInPart(t, 0, r);
      NoProtoAt(heap, Children(heap[t.ref])[i].value, Sub(t, i), r);
    }
  }

  /** Short of that key, each object drawn is shown exactly once, so each further sight of one is not. */
  lemma SharedObjectsAreShownOnce(mask: string -> string, heap: Heap, value: Value, t: Tree)
    requires Closed(heap) && Points(heap, value) && Draws(heap, value, t) && !ShowsProto(t)
    ensures Nodes(Walk(mask, heap, value, {}).out) == |Refs(t)| <= Branches(t)
  {
    hide *;
    WalkMeetsRefs(mask, heap, value, t);
    forall r | r in Refs(t)
      ensures r in heap && NoneDropped(Children(heap[r]))
    {
      NoProtoAt(heap, value, t, r);
    }
    NoProtoAmong(heap, Refs(t));
    EverythingReachableIsShown(mask, heap, value);
    ApartByCount(t);
  }

  lemma NoProtoAmong(heap: Heap, s: set<Ref>)
    requires forall r | r in s :: r in heap && NoneDropped(Children(heap[r]))
    ensures NoProtoObjects(heap, s)
  {
  }
}
