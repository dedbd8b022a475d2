/** Deep redaction of whatever is about to be logged, over an object graph that may share and cycle. */
module Redaction {
  import opened Basics
  import Ordering
  import opened SensitiveKeys

  const REDACTED := "[redacted]"
  const CIRCULAR := "[circular]"

  type Ref = nat

  /** A value as the program holds it. `Scalar` stands for everything that is not a string or an object. */
  datatype Value = Scalar(id: int) | Text(text: string) | Object(ref: Ref)

  datatype Field = Field(key: string, value: Value)

  datatype Node =
    | Record(fields: seq<Field>)
    | Array(items: seq<Value>)
    | Error(name: string, message: string, stack: Option<string>, cause: Option<Value>)

  /** What is logged in its place. */
  datatype Output =
    | OutScalar(id: int)
    | OutText(text: string)
    | OutUndefined
    | OutArray(items: seq<Output>)
    | OutRecord(fields: seq<OutField>)

  datatype OutField = OutField(key: string, value: Output)

  /** A child in the order it is met. One under a sensitive key is not visited at all; one that is `dropped`
      is visited, but assigning what is logged for it makes no entry. */
  datatype Child = Child(hidden: bool, dropped: bool, value: Value)

  function Children(node: Node): (children: seq<Child>)
    ensures node.Record? ==> |children| == |node.fields|
    ensures node.Array? ==> |children| == |node.items|
  {
    match node
    case Record(fields) =>
      seq(|fields|, i requires 0 <= i < |fields| =>
        Child(IsSensitiveKey(fields[i].key), fields[i].key == PROTO, fields[i].value))
    case Array(items) => seq(|items|, i requires 0 <= i < |items| => Child(false, false, items[i]))
    case Error(_, _, _, cause) => if cause.Some? then [Child(false, false, cause.value)] else []
  }

  /** The entries of a record built by `output[key] = out`. On an object literal the key `__proto__` sets
      the prototype, or nothing, and leaves no entry. */
  function Assigned(fields: seq<Field>, outs: seq<Output>): seq<OutField>
    requires |outs| == |fields|
  {
    if fields == [] then []
    else (if fields[0].key == PROTO then [] else [OutField(fields[0].key, outs[0])]) + Assigned(fields[1..], outs[1..])
  }

  /** The logged object, given what is logged for each child. */
  function Rebuilt(mask: string -> string, node: Node, outs: seq<Output>): Output
    requires |outs| == |Children(node)|
  {
    match node
    case Record(fields) => OutRecord(Assigned(fields, outs))
    case Array(_) => OutArray(outs)
    case Error(name, message, stack, cause) =>
      OutRecord(
        [OutField("name", OutText(name)), OutField("message", OutText(mask(message))),
         OutField("stack", if stack.Some? && stack.value != "" then OutText(mask(stack.value)) else OutUndefined)]
        + if cause.Some? then [OutField("cause", outs[0])] else [])
  }

  type Heap = map<Ref, Node>

  predicate Points(heap: Heap, value: Value) {
    value.Object? ==> value.ref in heap
  }

  /** No reference dangles. */
  ghost predicate Closed(heap: Heap) {
    forall r | r in heap :: AllPoint(heap, Children(heap[r]))
  }

  ghost predicate AllPoint(heap: Heap, children: seq<Child>) {
    forall i | 0 <= i < |children| :: Points(heap, children[i].value)
  }

  /** How many objects have not been met yet: what every expansion uses up. */
  ghost function Unseen(heap: Heap, seen: set<Ref>): nat {
    |heap.Keys - seen|
  }

  lemma UnseenFalls(heap: Heap, seen: set<Ref>, r: Ref)
    requires r in heap && r !in seen
    ensures Unseen(heap, seen + {r}) < Unseen(heap, seen)
  {
    assert heap.Keys - seen == (heap.Keys - (seen + {r})) + {r};
  }

  lemma UnseenNeverRises(heap: Heap, seen: set<Ref>, more: set<Ref>)
    requires seen <= more
    ensures Unseen(heap, more) <= Unseen(heap, seen)
  {
    Ordering.Cardinality(heap.Keys - more, heap.Keys - seen);
  }

  // ---- Specification: what is logged, and what has been seen afterwards -------------------------

  datatype Walked<T> = Walked(out: T, seen: set<Ref>)

  ghost function Walk(mask: string -> string, heap: Heap, value: Value, seen: set<Ref>): (w: Walked<Output>)
    requires Closed(heap) && Points(heap, value)
    ensures seen <= w.seen
    decreases Unseen(heap, seen), 0, 0
  {
    match value
    case Text(text) => Walked(OutText(mask(text)), seen)
    case Scalar(id) => Walked(OutScalar(id), seen)
    case Object(r) =>
      if r in seen then Walked(OutText(CIRCULAR), seen)
      else
        UnseenFalls(heap, seen, r);
        var rest := WalkAll(mask, heap, Children(heap[r]), seen + {r});
        Walked(Rebuilt(mask, heap[r], rest.out), rest.seen)
  }

  ghost function WalkAll(mask: string -> string, heap: Heap, children: seq<Child>, seen: set<Ref>)
    : (w: Walked<seq<Output>>)
    requires Closed(heap) && AllPoint(heap, children)
    ensures |w.out| == |children| && seen <= w.seen
    decreases Unseen(heap, seen), 1, |children|
  {
    if children == [] then Walked([], seen)
    else
      var first := WalkChild(mask, heap, children[0], seen);
      UnseenNeverRises(heap, seen, first.seen);
      var rest := WalkAll(mask, heap, children[1..], first.seen);
      Walked([first.out] + rest.out, rest.seen)
  }

  ghost function WalkChild(mask: string -> string, heap: Heap, child: Child, seen: set<Ref>): (w: Walked<Output>)
    requires Closed(heap) && Points(heap, child.value)
    ensures seen <= w.seen
    decreases Unseen(heap, seen), 0, 1
  {
    if child.hidden then Walked(OutText(REDACTED), seen) else Walk(mask, heap, child.value, seen)
  }

  // ---- The walk itself --------------------------------------------------------------------------

  /** The set shared by the whole recursion. */
  class Seen {
    var refs: set<Ref>

    constructor ()
      ensures refs == {}
    {
      refs := {};
    }
  }

  method Redact(mask: string -> string, heap: Heap, value: Value, seen: Seen) returns (out: Output)
    requires Closed(heap) && Points(heap, value)
    modifies seen
    ensures out == Walk(mask, heap, value, old(seen.refs)).out
    ensures seen.refs == Walk(mask, heap, value, old(seen.refs)).seen
    decreases Unseen(heap, seen.refs), 0
  {
    hide Closed, IsSensitiveKey, Unseen;
    if value.Text? { return OutText(mask(value.text)); }
    if value.Scalar? { return OutScalar(value.id); }
    var r := value.ref;
    if r in seen.refs { return OutText(CIRCULAR); }
    UnseenFalls(heap, seen.refs, r);
    seen.refs := seen.refs + {r};
    ChildrenPoint(heap, r);
    var outs := RedactAll(mask, heap, Children(heap[r]), seen);
    out := Rebuilt(mask, heap[r], outs);
  }

  lemma WalkStep(mask: string -> string, heap: Heap, children: seq<Child>, i: nat, seen: set<Ref>)
    requires Closed(heap) && AllPoint(heap, children) && i < |children|
    ensures AllPoint(heap, children[i..]) && AllPoint(heap, children[i + 1..])
    ensures var first := WalkChild(mask, heap, children[i], seen);
            var rest := WalkAll(mask, heap, children[i + 1..], first.seen);
            WalkAll(mask, heap, children[i..], seen) == Walked([first.out] + rest.out, rest.seen)
  {
    assert children[i..][1..] == children[i + 1..];
    hide WalkChild, Closed;
  }

  lemma Rejoin(a: seq<Output>, x: Output, b: seq<Output>)
    ensures (a + [x]) + b == a + ([x] + b)
  {
  }

  method RedactAll(mask: string -> string, heap: Heap, children: seq<Child>, seen: Seen) returns (outs: seq<Output>)
    requires Closed(heap) && AllPoint(heap, children)
    modifies seen
    ensures outs == WalkAll(mask, heap, children, old(seen.refs)).out
    ensures seen.refs == WalkAll(mask, heap, children, old(seen.refs)).seen
    decreases Unseen(heap, seen.refs), 1
  {
    outs := [];
    ghost var start := seen.refs;
    ghost var end := WalkAll(mask, heap, children, start);
    assert children[0..] == children && [] + end.out == end.out;
    for i := 0 to |children|
      invariant start <= seen.refs
      invariant AllPoint(heap, children[i..])
      invariant end.out == outs + WalkAll(mask, heap, children[i..], seen.refs).out
      invariant end.seen == WalkAll(mask, heap, children[i..], seen.refs).seen
    {
      hide WalkAll, Walk, Closed, Unseen;
      var child := children[i];
      WalkStep(mask, heap, children, i, seen.refs);
      UnseenNeverRises(heap, start, seen.refs);
      var out := OutText(REDACTED);
      ghost var first := WalkChild(mask, heap, child, seen.refs);
      if !child.hidden { out := Redact(mask, heap, child.value, seen); }
      Rejoin(outs, out, WalkAll(mask, heap, children[i + 1..], first.seen).out);
      outs := outs + [out];
    }
    assert children[|children|..] == [];
  }

  // ---- Each object is expanded once -------------------------------------------------------------

  function Arity(out: Output): nat {
    match out
    case OutArray(items) => |items|
    case OutRecord(fields) => |fields|
    case _ => 0
  }

  function Part(out: Output, i: nat): Output
    requires i < Arity(out)
  {
    if out.OutArray? then out.items[i] else out.fields[i].value
  }

  /** How many objects and arrays the output shows. */
  ghost function Nodes(out: Output): nat
    decreases out, Arity(out) + 1
  {
    if out.OutArray? || out.OutRecord? then 1 + NodesIn(out, Arity(out)) else 0
  }

  ghost function NodesIn(out: Output, n: nat): nat
    requires n <= Arity(out)
    decreases out, n
  {
    if n == 0 then 0 else NodesIn(out, n - 1) + Nodes(Part(out, n - 1))
  }

  ghost function NodesOf(outs: seq<Output>): nat {
    if outs == [] then 0 else Nodes(outs[0]) + NodesOf(outs[1..])
  }

  lemma {:induction false} NodesOfPrefix(outs: seq<Output>, n: nat)
    requires n < |outs|
    ensures NodesOf(outs[..n + 1]) == NodesOf(outs[..n]) + Nodes(outs[n])
  {
    hide Nodes;
    assert outs[..n + 1][0] == outs[0] && outs[..n + 1][1..] == outs[1..][..n];
    if n == 0 {
      assert outs[..1][1..] == [];
    } else {
      NodesOfPrefix(outs[1..], n - 1);
      assert outs[1..][..n - 1] == outs[..n][1..];
    }
  }

  lemma {:induction false} NodesInParts(out: Output, outs: seq<Output>, n: nat)
    requires n <= |outs| == Arity(out) && forall i | 0 <= i < |outs| :: Part(out, i) == outs[i]
    ensures NodesIn(out, n) == NodesOf(outs[..n])
  {
    hide Nodes, Part;
    if n > 0 {
      NodesInParts(out, outs, n - 1);
      NodesOfPrefix(outs, n - 1);
    }
  }

  /** What is logged for the children that make an entry. */
  ghost function Entered(children: seq<Child>, outs: seq<Output>): seq<Output>
    requires |outs| == |children|
  {
    if children == [] then []
    else (if children[0].dropped then [] else [outs[0]]) + Entered(children[1..], outs[1..])
  }

  ghost function Values(fields: seq<OutField>): (outs: seq<Output>)
    ensures |outs| == |fields| && forall i | 0 <= i < |fields| :: outs[i] == fields[i].value
  {
    seq(|fields|, i requires 0 <= i < |fields| => fields[i].value)
  }

  lemma {:induction false} AssignedAreEntered(fields: seq<Field>, outs: seq<Output>)
    requires |outs| == |fields|
    ensures Values(Assigned(fields, outs)) == Entered(Children(Record(fields)), outs)
  {
    hide IsSensitiveKey;
    if fields != [] {
      AssignedAreEntered(fields[1..], outs[1..]);
      assert Children(Record(fields))[1..] == Children(Record(fields[1..]));
      var rest := Assigned(fields[1..], outs[1..]);
      assert Values([OutField(fields[0].key, outs[0])] + rest) == [outs[0]] + Values(rest);
      assert [] + rest == rest && [] + Values(rest) == Values(rest);
    }
  }

  lemma {:induction false} AllEntered(children: seq<Child>, outs: seq<Output>)
    requires |outs| == |children| && forall i | 0 <= i < |children| :: !children[i].dropped
    ensures Entered(children, outs) == outs
  {
    if children != [] { AllEntered(children[1..], outs[1..]); }
  }

  lemma NodesOfContainer(out: Output, parts: seq<Output>)
    requires out.OutArray? || out.OutRecord?
    requires |parts| == Arity(out) && forall i | 0 <= i < |parts| :: Part(out, i) == parts[i]
    ensures Nodes(out) == 1 + NodesOf(parts)
  {
    NodesInParts(out, parts, |parts|);
    assert parts[..|parts|] == parts;
  }

  lemma LeafHasNoNodes(out: Output)
    requires !out.OutArray? && !out.OutRecord?
    ensures Nodes(out) == 0
  {
  }

  lemma NodesAfterLeaf(leaf: Output, outs: seq<Output>)
    requires !leaf.OutArray? && !leaf.OutRecord?
    ensures NodesOf([leaf] + outs) == NodesOf(outs)
  {
    LeafHasNoNodes(leaf);
    assert ([leaf] + outs)[1..] == outs;
  }

  lemma NodesOfError(mask: string -> string, node: Node, outs: seq<Output>)
    requires node.Error? && |outs| == |Children(node)|
    ensures Nodes(Rebuilt(mask, node, outs)) == 1 + NodesOf(outs)
  {
    hide Nodes, NodesOf, IsSensitiveKey;
    var out := Rebuilt(mask, node, outs);
    var a, b, c := Part(out, 0), Part(out, 1), Part(out, 2);
    NodesAfterLeaf(c, outs);
    NodesAfterLeaf(b, [c] + outs);
    NodesAfterLeaf(a, [b] + ([c] + outs));
    NodesOfContainer(out, [a] + ([b] + ([c] + outs)));
  }

  lemma NodesOfRebuilt(mask: string -> string, node: Node, outs: seq<Output>)
    requires |outs| == |Children(node)|
    ensures Nodes(Rebuilt(mask, node, outs)) == 1 + NodesOf(Entered(Children(node), outs))
  {
    hide IsSensitiveKey, Entered, Assigned, Nodes, NodesOf;
    var out := Rebuilt(mask, node, outs);
    if node.Record? {
      AssignedAreEntered(node.fields, outs);
      NodesOfContainer(out, Values(out.fields));
    } else {
      AllEntered(Children(node), outs);
      if node.Error? { NodesOfError(mask, node, outs); } else { NodesOfContainer(out, outs); }
    }
  }

  // ---- What has been met, whatever is logged ----------------------------------------------------

  /** The objects met once `value` has been dealt with. */
  ghost function Met(heap: Heap, value: Value, seen: set<Ref>): (met: set<Ref>)
    requires Closed(heap) && Points(heap, value)
    ensures seen <= met
    decreases Unseen(heap, seen), 0, 0
  {
    if !value.Object? || value.ref in seen then seen
    else
      UnseenFalls(heap, seen, value.ref);
      MetAll(heap, Children(heap[value.ref]), seen + {value.ref})
  }

  ghost function MetAll(heap: Heap, children: seq<Child>, seen: set<Ref>): (met: set<Ref>)
    requires Closed(heap) && AllPoint(heap, children)
    ensures seen <= met
    decreases Unseen(heap, seen), 1, |children|
  {
    if children == [] then seen
    else
      var first := MetBy(heap, children[0], seen);
      UnseenNeverRises(heap, seen, first);
      MetAll(heap, children[1..], first)
  }

  ghost function MetBy(heap: Heap, child: Child, seen: set<Ref>): (met: set<Ref>)
    requires Closed(heap) && Points(heap, child.value)
    ensures seen <= met
    decreases Unseen(heap, seen), 0, 1
  {
    if child.hidden then seen else Met(heap, child.value, seen)
  }

  lemma {:induction false} WalkMeets(mask: string -> string, heap: Heap, value: Value, seen: set<Ref>)
    requires Closed(heap) && Points(heap, value)
    ensures Walk(mask, heap, value, seen).seen == Met(heap, value, seen)
    decreases Unseen(heap, seen), 0, 0
  {
    hide Closed, Children, Rebuilt, Unseen;
    if value.Object? && value.ref !in seen {
      UnseenFalls(heap, seen, value.ref);
      ChildrenPoint(heap, value.ref);
      WalkAllMeets(mask, heap, Children(heap[value.ref]), seen + {value.ref});
    }
  }

  lemma {:induction false} WalkAllMeets(mask: string -> string, heap: Heap, children: seq<Child>, seen: set<Ref>)
    requires Closed(heap) && AllPoint(heap, children)
    ensures WalkAll(mask, heap, children, seen).seen == MetAll(heap, children, seen)
    decreases Unseen(heap, seen), 1, |children|
  {
    hide Closed, Walk, Met, Unseen;
    if children != [] {
      var first := WalkChild(mask, heap, children[0], seen);
      if !children[0].hidden { WalkMeets(mask, heap, children[0].value, seen); }
      UnseenNeverRises(heap, seen, first.seen);
      WalkAllMeets(mask, heap, children[1..], first.seen);
    }
  }

  // ---- What is met and not shown ----------------------------------------------------------------

  predicate IsFresh(value: Value, seen: set<Ref>) {
    value.Object? && value.ref !in seen
  }

  /** Some object is met for the first time under a key that makes no entry. */
  ghost predicate Loses(heap: Heap, value: Value, seen: set<Ref>)
    requires Closed(heap) && Points(heap, value)
    decreases Unseen(heap, seen), 0, 0
  {
    IsFresh(value, seen)
    && (UnseenFalls(heap, seen, value.ref);
        LosesAny(heap, Children(heap[value.ref]), seen + {value.ref}))
  }

  ghost predicate LosesAny(heap: Heap, children: seq<Child>, seen: set<Ref>)
    requires Closed(heap) && AllPoint(heap, children)
    decreases Unseen(heap, seen), 1, |children|
  {
    children != []
    && (|| LosesBy(heap, children[0], seen)
        || (var first := MetBy(heap, children[0], seen);
            UnseenNeverRises(heap, seen, first);
            LosesAny(heap, children[1..], first)))
  }

  ghost predicate LosesBy(heap: Heap, child: Child, seen: set<Ref>)
    requires Closed(heap) && Points(heap, child.value)
    decreases Unseen(heap, seen), 0, 1
  {
    !child.hidden && if child.dropped then IsFresh(child.value, seen) else Loses(heap, child.value, seen)
  }

  /** No object is shown twice, and none that is met goes unshown unless it is lost. */
  lemma {:induction false} WalkCounts(mask: string -> string, heap: Heap, value: Value, seen: set<Ref>)
    requires Closed(heap) && Points(heap, value)
    ensures var w := Walk(mask, heap, value, seen);
            && Nodes(w.out) + |seen| <= |w.seen|
            && (Nodes(w.out) + |seen| == |w.seen| <==> !Loses(heap, value, seen))
    decreases Unseen(heap, seen), 0, 0
  {
    hide Closed, Children, Rebuilt, Unseen;
    if value.Object? && value.ref !in seen {
      var r := value.ref;
      UnseenFalls(heap, seen, r);
      ChildrenPoint(heap, r);
      WalkAllCounts(mask, heap, Children(heap[r]), seen + {r});
      NodesOfRebuilt(mask, heap[r], WalkAll(mask, heap, Children(heap[r]), seen + {r}).out);
    }
  }

  lemma {:induction false} WalkAllCounts(mask: string -> string, heap: Heap, children: seq<Child>, seen: set<Ref>)
    requires Closed(heap) && AllPoint(heap, children)
    ensures var w := WalkAll(mask, heap, children, seen);
            && NodesOf(Entered(children, w.out)) + |seen| <= |w.seen|
            && (NodesOf(Entered(children, w.out)) + |seen| == |w.seen| <==> !LosesAny(heap, children, seen))
    decreases Unseen(heap, seen), 1, |children|
  {
    hide Closed, Walk, Unseen, Nodes, Loses, Met;
    if children != [] {
      var child := children[0];
      var first := WalkChild(mask, heap, child, seen);
      ChildCounts(mask, heap, child, seen) by {
        if !child.hidden { WalkCounts(mask, heap, child.value, seen); }
      }
      UnseenNeverRises(heap, seen, first.seen);
      WalkAllCounts(mask, heap, children[1..], first.seen);
      EnteredNodes(children, WalkAll(mask, heap, children, seen).out);
      assert WalkAll(mask, heap, children, seen).out[1..] == WalkAll(mask, heap, children[1..], first.seen).out;
    }
  }

  lemma EnteredNodes(children: seq<Child>, outs: seq<Output>)
    requires |outs| == |children| && children != []
    ensures NodesOf(Entered(children, outs))
         == (if children[0].dropped then 0 else Nodes(outs[0])) + NodesOf(Entered(children[1..], outs[1..]))
  {
    hide Nodes;
    var rest := Entered(children[1..], outs[1..]);
    assert ([outs[0]] + rest)[1..] == rest && [] + rest == rest;
  }

  /** One child: what it adds to the entries against what it adds to the objects met. */
  lemma ChildCounts(mask: string -> string, heap: Heap, child: Child, seen: set<Ref>)
    requires Closed(heap) && Points(heap, child.value)
    requires !child.hidden ==>
               var w := Walk(mask, heap, child.value, seen);
               && Nodes(w.out) + |seen| <= |w.seen|
               && (Nodes(w.out) + |seen| == |w.seen| <==> !Loses(heap, child.value, seen))
    ensures var w := WalkChild(mask, heap, child, seen);
            var shown := if child.dropped then 0 else Nodes(w.out);
            && w.seen == MetBy(heap, child, seen) && shown + |seen| <= |w.seen|
            && (shown + |seen| == |w.seen| <==> !LosesBy(heap, child, seen))
  {
    hide Closed;
    if child.hidden {
      MarkerHasNoNodes();
    } else {
      WalkMeets(mask, heap, child.value, seen);
      if child.dropped { MetGrows(heap, child.value, seen); }
    }
  }

  lemma MetGrows(heap: Heap, value: Value, seen: set<Ref>)
    requires Closed(heap) && Points(heap, value)
    ensures if IsFresh(value, seen) then |Met(heap, value, seen)| > |seen| else Met(heap, value, seen) == seen
  {
    if IsFresh(value, seen) {
      Ordering.Cardinality(seen + {value.ref}, Met(heap, value, seen));
    }
  }

  lemma MarkerHasNoNodes()
    ensures Nodes(OutText(REDACTED)) == 0
  {
  }

  lemma ChildrenPoint(heap: Heap, r: Ref)
    requires Closed(heap) && r in heap
    ensures AllPoint(heap, Children(heap[r]))
  {
  }

  // ---- What is expanded is what can be reached --------------------------------------------------

  /** Every visible child of `r` is in `s`. */
  ghost predicate ShowsInto(heap: Heap, r: Ref, s: set<Ref>)
    requires r in heap
  {
    AllIn(Children(heap[r]), s)
  }

  ghost predicate AllIn(children: seq<Child>, s: set<Ref>) {
    forall i | 0 <= i < |children| :: IsIn(children[i], s)
  }

  predicate IsIn(child: Child, s: set<Ref>) {
    !child.hidden && child.value.Object? ==> child.value.ref in s
  }

  /** Following visible references from `s` stays in `s`. */
  ghost predicate Enclosed(heap: Heap, s: set<Ref>) {
    s <= heap.Keys && forall r | r in s :: ShowsInto(heap, r, s)
  }

  lemma {:induction false} WalkReachesAll(mask: string -> string, heap: Heap, value: Value, seen: set<Ref>)
    requires Closed(heap) && Points(heap, value) && seen <= heap.Keys
    ensures var w := Walk(mask, heap, value, seen);
            && w.seen <= heap.Keys && (value.Object? ==> value.ref in w.seen)
            && forall r | r in w.seen - seen :: ShowsInto(heap, r, w.seen)
    decreases Unseen(heap, seen), 0, 0
  {
    hide Closed, Children, Rebuilt, Unseen;
    if value.Object? && value.ref !in seen {
      UnseenFalls(heap, seen, value.ref);
      ChildrenPoint(heap, value.ref);
      WalkAllReachesAll(mask, heap, Children(heap[value.ref]), seen + {value.ref});
    }
  }

  lemma {:induction false} WalkAllReachesAll(mask: string -> string, heap: Heap, children: seq<Child>, seen: set<Ref>)
    requires Closed(heap) && AllPoint(heap, children) && seen <= heap.Keys
    ensures var w := WalkAll(mask, heap, children, seen);
            && w.seen <= heap.Keys && AllIn(children, w.seen)
            && forall r | r in w.seen - seen :: ShowsInto(heap, r, w.seen)
    decreases Unseen(heap, seen), 1, |children|
  {
    hide Closed, Walk, Unseen, Children;
    if children != [] {
      var first := WalkChild(mask, heap, children[0], seen);
      if !children[0].hidden { WalkReachesAll(mask, heap, children[0].value, seen); }
      UnseenNeverRises(heap, seen, first.seen);
      WalkAllReachesAll(mask, heap, children[1..], first.seen);
      var end := WalkAll(mask, heap, children, seen).seen;
      assert forall r | r in end - seen :: r in end - first.seen || r in first.seen - seen;
    }
  }

  lemma {:induction false} WalkStaysWithin(
    mask: string -> string, heap: Heap, value: Value, seen: set<Ref>, s: set<Ref>)
    requires Closed(heap) && Points(heap, value) && Enclosed(heap, s)
    requires value.Object? ==> value.ref in s
    ensures Walk(mask, heap, value, seen).seen <= seen + s
    decreases Unseen(heap, seen), 0, 0
  {
    hide Closed, Children, Rebuilt, Unseen;
    if value.Object? && value.ref !in seen {
      UnseenFalls(heap, seen, value.ref);
      ChildrenPoint(heap, value.ref);
      assert ShowsInto(heap, value.ref, s);
      WalkAllStaysWithin(mask, heap, Children(heap[value.ref]), seen + {value.ref}, s);
    }
  }

  lemma {:induction false} WalkAllStaysWithin(
    mask: string -> string, heap: Heap, children: seq<Child>, seen: set<Ref>, s: set<Ref>)
    requires Closed(heap) && AllPoint(heap, children) && Enclosed(heap, s) && AllIn(children, s)
    ensures WalkAll(mask, heap, children, seen).seen <= seen + s
    decreases Unseen(heap, seen), 1, |children|
  {
    hide Closed, Walk, Unseen, Children, Enclosed;
    if children != [] {
      var first := WalkChild(mask, heap, children[0], seen);
      assert IsIn(children[0], s);
      if !children[0].hidden { WalkStaysWithin(mask, heap, children[0].value, seen, s); }
      UnseenNeverRises(heap, seen, first.seen);
      WalkAllStaysWithin(mask, heap, children[1..], first.seen, s);
    }
  }

  /** A whole redaction meets exactly the objects visibly reachable from the value, and shows each of them
      once unless it is met first under a key that makes no entry. */
  lemma ReachableObjectsOnceEach(mask: string -> string, heap: Heap, value: Value, s: set<Ref>)
    requires Closed(heap) && Points(heap, value)
    ensures var w := Walk(mask, heap, value, {});
            && Enclosed(heap, w.seen) && (value.Object? ==> value.ref in w.seen)
            && (Enclosed(heap, s) && (value.Object? ==> value.ref in s) ==> w.seen <= s)
            && Nodes(w.out) <= |w.seen| && (Nodes(w.out) == |w.seen| <==> !Loses(heap, value, {}))
  {
    hide Closed, Walk, Loses;
    WalkCounts(mask, heap, value, {});
    WalkReachesAll(mask, heap, value, {});
    if Enclosed(heap, s) && (value.Object? ==> value.ref in s) { WalkStaysWithin(mask, heap, value, {}, s); }
  }

  /** No record among these holds an object under that key. */
  ghost predicate NoProtoObjects(heap: Heap, s: set<Ref>) {
    forall r | r in s && r in heap :: NoneDropped(Children(heap[r]))
  }

  ghost predicate NoneDropped(children: seq<Child>) {
    forall i | 0 <= i < |children| :: !(children[i].dropped && children[i].value.Object?)
  }

  lemma {:induction false} NothingIsLost(heap: Heap, value: Value, seen: set<Ref>, s: set<Ref>)
    requires Closed(heap) && Points(heap, value) && Enclosed(heap, s) && NoProtoObjects(heap, s)
    requires value.Object? ==> value.ref in s
    ensures !Loses(heap, value, seen)
    decreases Unseen(heap, seen), 0, 0
  {
    hide Closed, Children, Unseen;
    if IsFresh(value, seen) {
      UnseenFalls(heap, seen, value.ref);
      ChildrenPoint(heap, value.ref);
      assert ShowsInto(heap, value.ref, s);
      NothingIsLostBelow(heap, Children(heap[value.ref]), seen + {value.ref}, s);
    }
  }

  lemma {:induction false} NothingIsLostBelow(heap: Heap, children: seq<Child>, seen: set<Ref>, s: set<Ref>)
    requires Closed(heap) && AllPoint(heap, children) && Enclosed(heap, s) && NoProtoObjects(heap, s)
    requires AllIn(children, s) && NoneDropped(children)
    ensures !LosesAny(heap, children, seen)
    decreases Unseen(heap, seen), 1, |children|
  {
    hide Closed, Loses, Met, Unseen, Children, Enclosed, NoProtoObjects;
    if children != [] {
      assert IsIn(children[0], s);
      if !children[0].hidden { NothingIsLost(heap, children[0].value, seen, s); }
      UnseenNeverRises(heap, seen, MetBy(heap, children[0], seen));
      NothingIsLostBelow(heap, children[1..], MetBy(heap, children[0], seen), s);
    }
  }

  /** If no visibly reachable record holds an object under that key, everything reachable is shown once. */
  lemma EverythingReachableIsShown(mask: string -> string, heap: Heap, value: Value)
    requires Closed(heap) && Points(heap, value)
    requires NoProtoObjects(heap, Walk(mask, heap, value, {}).seen)
    ensures Nodes(Walk(mask, heap, value, {}).out) == |Walk(mask, heap, value, {}).seen|
  {
    hide Closed, Walk, Loses, NoProtoObjects, Enclosed;
    var met := Walk(mask, heap, value, {}).seen;
    ReachableObjectsOnceEach(mask, heap, value, met);
    NothingIsLost(heap, value, {}, met);
  }

  /** An object under that key is met and yet not shown. */
  lemma ProtoEntryIsLost(mask: string -> string)
    ensures var heap: Heap := map[0 := Record([Field(PROTO, Object(1))]), 1 := Array([])];
            Closed(heap) && Walk(mask, heap, Object(0), {}) == Walked(OutRecord([]), {0, 1})
  {
    var heap: Heap := map[0 := Record([Field(PROTO, Object(1))]), 1 := Array([])];
    ProtoIsPlain();
    hide IsSensitiveKey;
    var cs := Children(heap[0]);
    assert cs == [Child(false, true, Object(1))] && cs[1..] == [];
    assert Children(heap[1]) == [];
    assert AllPoint(heap, cs);
    assert Walk(mask, heap, Object(1), {0}) == Walked(OutArray([]), {0, 1});
    assert WalkAll(mask, heap, cs[1..], {0, 1}) == Walked([], {0, 1});
    assert [OutArray([])] + [] == [OutArray([])];
    assert WalkAll(mask, heap, cs, {0}) == Walked([OutArray([])], {0, 1});
    assert Assigned(heap[0].fields, [OutArray([])]) == [];
    assert {} + {0} == {0};
  }

  // ---- Nothing sensitive is shown ---------------------------------------------------------------

  /** Every entry under a sensitive key, at any depth, is the marker. */
  ghost predicate Clean(out: Output) {
    && (out.OutRecord? ==> forall i | 0 <= i < |out.fields| && IsSensitiveKey(out.fields[i].key) ::
          out.fields[i].value == OutText("[redacted]"))
    && forall i | 0 <= i < Arity(out) :: Clean(Part(out, i))
  }

  ghost predicate CleanFor(children: seq<Child>, outs: seq<Output>) {
    |outs| == |children|
    && forall i | 0 <= i < |outs| :: Clean(outs[i]) && (children[i].hidden ==> outs[i] == OutText(REDACTED))
  }

  lemma ErrorIsClean(mask: string -> string, node: Node, outs: seq<Output>)
    requires node.Error? && CleanFor(Children(node), outs)
    ensures Clean(Rebuilt(mask, node, outs))
  {
    hide IsSensitiveKey;
    var fields := Rebuilt(mask, node, outs).fields;
    assert forall i | 0 <= i < |fields| :: IsErrorKey(fields[i].key);
    assert forall i | 0 <= i < |fields| :: Clean(fields[i].value);
    hide Rebuilt, Children;
    forall i | 0 <= i < |fields|
      ensures !IsSensitiveKey(fields[i].key)
    {
      ErrorKeysArePlain(fields[i].key);
    }
  }

  lemma {:induction false} AssignedFrom(fields: seq<Field>, outs: seq<Output>, j: nat) returns (i: nat)
    requires |outs| == |fields| && j < |Assigned(fields, outs)|
    ensures i < |fields| && Assigned(fields, outs)[j] == OutField(fields[i].key, outs[i])
  {
    var kept := if fields[0].key == PROTO then 0 else 1;
    if j < kept {
      i := 0;
    } else {
      var k := AssignedFrom(fields[1..], outs[1..], j - kept);
      i := k + 1;
    }
  }

  lemma RebuiltIsClean(mask: string -> string, node: Node, outs: seq<Output>)
    requires CleanFor(Children(node), outs)
    ensures Clean(Rebuilt(mask, node, outs))
  {
    hide IsSensitiveKey;
    if node.Error? {
      ErrorIsClean(mask, node, outs);
    } else if node.Record? {
      hide Assigned;
      forall j | 0 <= j < |Assigned(node.fields, outs)|
        ensures var f := Assigned(node.fields, outs)[j];
                Clean(f.value) && (IsSensitiveKey(f.key) ==> f.value == OutText(REDACTED))
      {
        var i := AssignedFrom(node.fields, outs, j);
      }
    }
  }

  lemma {:induction false} WalkIsClean(mask: string -> string, heap: Heap, value: Value, seen: set<Ref>)
    requires Closed(heap) && Points(heap, value)
    ensures Clean(Walk(mask, heap, value, seen).out)
    decreases Unseen(heap, seen), 0, 0
  {
    hide Closed, Children, Rebuilt, Unseen, IsSensitiveKey;
    if value.Object? && value.ref !in seen {
      UnseenFalls(heap, seen, value.ref);
      ChildrenPoint(heap, value.ref);
      var children := Children(heap[value.ref]);
      WalkAllIsClean(mask, heap, children, seen + {value.ref});
      RebuiltIsClean(mask, heap[value.ref], WalkAll(mask, heap, children, seen + {value.ref}).out);
    }
  }

  lemma {:induction false} WalkAllIsClean(mask: string -> string, heap: Heap, children: seq<Child>, seen: set<Ref>)
    requires Closed(heap) && AllPoint(heap, children)
    ensures CleanFor(children, WalkAll(mask, heap, children, seen).out)
    decreases Unseen(heap, seen), 1, |children|
  {
    hide Closed, Walk, Unseen, Children, IsSensitiveKey;
    if children != [] {
      var first := WalkChild(mask, heap, children[0], seen);
      if !children[0].hidden { WalkIsClean(mask, heap, children[0].value, seen); }
      UnseenNeverRises(heap, seen, first.seen);
      WalkAllIsClean(mask, heap, children[1..], first.seen);
    }
  }

  // ---- Sharing ----------------------------------------------------------------------------------

  /** Sharing without any cycle is still reported as one: the second sight of an object is not shown. */
  lemma SharedObjectIsCalledCircular(mask: string -> string)
    ensures var heap: Heap := map[0 := Array([Object(1), Object(1)]), 1 := Array([])];
            Closed(heap)
            && Walk(mask, heap, Object(0), {}).out == OutArray([OutArray([]), OutText("[circular]")])
  {
    var heap: Heap := map[0 := Array([Object(1), Object(1)]), 1 := Array([])];
    var cs := Children(heap[0]);
    assert cs == [Child(false, false, Object(1)), Child(false, false, Object(1))];
    assert Children(heap[1]) == [];
    var once := Walk(mask, heap, Object(1), {0});
    assert once == Walked(OutArray([]), {0, 1});
    assert Walk(mask, heap, Object(1), {0, 1}) == Walked(OutText(CIRCULAR), {0, 1});
    assert cs[1..] == [cs[1]] && cs[1..][1..] == [];
    assert WalkAll(mask, heap, cs[1..], {0, 1}).out == [OutText(CIRCULAR)];
    assert {} + {0} == {0};
  }
}
