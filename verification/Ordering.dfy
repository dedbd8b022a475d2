/** Ordered reads.

    Every ordered read in the system names a column and then a tiebreak, so its
    result is one particular sequence rather than some sequence. A row is
    represented here by its sort key; this module is the theory of listing a set
    of keys least first, and of cutting that listing short. */
module Ordering {

  /** `ORDER BY major, minor`; descending columns are negated by the caller. */
  datatype Key = Key(major: int, minor: int)

  predicate Less(a: Key, b: Key) {
    a.major < b.major || (a.major == b.major && a.minor < b.minor)
  }

  ghost predicate Ascending(xs: seq<Key>) {
    forall i, j | 0 <= i < j < |xs| :: Less(xs[i], xs[j])
  }

  function Elements(xs: seq<Key>): set<Key> {
    set x | x in xs
  }

  lemma ElementsOfConcat(xs: seq<Key>, ys: seq<Key>)
    ensures Elements(xs + ys) == Elements(xs) + Elements(ys)
  {
  }

  /** Two ascending runs join when every key of the first precedes every key of the second. */
  lemma AscendingConcat(xs: seq<Key>, ys: seq<Key>)
    requires Ascending(xs) && Ascending(ys)
    requires forall x, y | x in Elements(xs) && y in Elements(ys) :: Less(x, y)
    ensures Ascending(xs + ys) && Elements(xs + ys) == Elements(xs) + Elements(ys)
  {
    forall i, j | 0 <= i < j < |xs + ys|
      ensures Less((xs + ys)[i], (xs + ys)[j])
    {
      if i < |xs| <= j {
        assert xs[i] in Elements(xs) && ys[j - |xs|] in Elements(ys);
      }
    }
  }

  ghost predicate IsLeast(s: set<Key>, x: Key) {
    x in s && forall y | y in s && y != x :: Less(x, y)
  }

  lemma LeastOfMore(s: set<Key>, m: Key, a: Key)
    requires IsLeast(s, m) && a !in s
    ensures IsLeast(s + {a}, if Less(a, m) then a else m)
  {
  }

  lemma {:induction false} LeastExists(s: set<Key>)
    requires s != {}
    ensures exists x :: IsLeast(s, x)
    decreases s
  {
    var a :| a in s;
    var rest := s - {a};
    assert s == rest + {a};
    hide IsLeast;
    if rest == {} {
      Alone(a);
    } else {
      LeastExists(rest);
      var m :| IsLeast(rest, m);
      LeastOfMore(rest, m, a);
    }
  }

  lemma Alone(a: Key)
    ensures IsLeast({} + {a}, a)
  {
  }

  ghost function Least(s: set<Key>): (x: Key)
    requires s != {}
    ensures x in s && forall y | y in s && y != x :: Less(x, y)
  {
    LeastExists(s);
    var x :| IsLeast(s, x);
    x
  }

  /** The members of `s`, least first. */
  ghost function Ordered(s: set<Key>): (xs: seq<Key>)
    ensures Ascending(xs) && Elements(xs) == s && |xs| == |s|
  {
    if s == {} then
      []
    else
      var x := Least(s);
      var rest := Ordered(s - {x});
      AscendingConcat([x], rest);
      [x] + rest
  }

  lemma {:induction false} AscendingCount(xs: seq<Key>)
    requires Ascending(xs)
    ensures |Elements(xs)| == |xs|
  {
    if xs != [] {
      AscendingCount(xs[1..]);
      assert xs[0] !in xs[1..];
      assert Elements(xs) == {xs[0]} + Elements(xs[1..]);
    }
  }

  /** A set has only one ascending listing. */
  lemma {:induction false} AscendingUnique(xs: seq<Key>, ys: seq<Key>)
    requires Ascending(xs) && Ascending(ys) && Elements(xs) == Elements(ys)
    ensures xs == ys
  {
    AscendingCount(xs);
    AscendingCount(ys);
    if xs != [] {
      assert xs[0] in Elements(ys) && ys[0] in Elements(xs);
      assert Elements(xs[1..]) == Elements(xs) - {xs[0]};
      assert Elements(ys[1..]) == Elements(ys) - {ys[0]};
      AscendingUnique(xs[1..], ys[1..]);
      assert xs == [xs[0]] + xs[1..] && ys == [ys[0]] + ys[1..];
    }
  }

  lemma CutListing(xs: seq<Key>, n: nat)
    requires Ascending(xs) && n <= |xs|
    ensures Ascending(xs[..n]) && Ascending(xs[n..]) && |Elements(xs[..n])| == n
    ensures Elements(xs) == Elements(xs[..n]) + Elements(xs[n..])
    ensures forall x, y | x in Elements(xs[..n]) && y in Elements(xs[n..]) :: Less(x, y)
  {
    AscendingCount(xs[..n]);
    assert xs == xs[..n] + xs[n..];
    ElementsOfConcat(xs[..n], xs[n..]);
  }

  /** Taking the first n members away leaves the rest of the listing. */
  lemma OrderedRest(s: set<Key>, n: nat)
    requires n <= |s|
    ensures Elements(Ordered(s)[..n]) <= s && |Elements(Ordered(s)[..n])| == n
    ensures Ordered(s - Elements(Ordered(s)[..n])) == Ordered(s)[n..]
  {
    var xs := Ordered(s);
    CutListing(xs, n);
    assert s - Elements(xs[..n]) == Elements(xs[n..]);
    AscendingUnique(Ordered(Elements(xs[n..])), xs[n..]);
  }

  /** Everything listed before the cut comes before everything after it. */
  lemma CutSeparates(s: set<Key>, n: nat, x: Key, y: Key)
    requires n <= |s|
    requires x in Ordered(s)[..n] && y in s && y !in Ordered(s)[..n]
    ensures Less(x, y)
  {
    CutListing(Ordered(s), n);
  }

  lemma {:induction false} Cardinality<T>(a: set<T>, b: set<T>)
    requires a <= b
    ensures |a| <= |b|
    decreases a
  {
    if a != {} {
      var x :| x in a;
      Cardinality(a - {x}, b - {x});
    }
  }

  /** A listing continues with the listing of whatever lies wholly after it. */
  lemma ListingContinues(xs: seq<Key>, after: set<Key>)
    requires Ascending(xs)
    requires forall x, y | x in Elements(xs) && y in after :: Less(x, y)
    ensures Ordered(Elements(xs) + after) == xs + Ordered(after)
  {
    AscendingConcat(xs, Ordered(after));
    AscendingUnique(xs + Ordered(after), Ordered(Elements(xs) + after));
  }

  /** The first n of a listing also begin the listing of any subset that holds them. */
  lemma FirstOfSubset(all: seq<Key>, w: set<Key>, n: nat)
    requires Ascending(all) && n <= |all|
    requires Elements(all[..n]) <= w <= Elements(all)
    ensures n <= |w| && Ordered(w)[..n] == all[..n]
  {
    var top := Elements(all[..n]);
    assert top + (w - top) == w;
    CutListing(all, n);
    Cardinality(top, w);
    ListingContinues(all[..n], w - top);
  }

  /** How many of `size` rows a read bounded by `n` returns. */
  function AtMost(n: nat, size: nat): (m: nat)
    ensures m <= n && m <= size && (m == n || m == size)
  {
    if n <= size then n else size
  }

  /** One key put in its place. */
  function Place(x: Key, xs: seq<Key>): (ys: seq<Key>)
    ensures Elements(ys) == Elements(xs) + {x} && |ys| == |xs| + 1
    ensures Ascending(xs) && x !in xs ==> Ascending(ys)
  {
    if xs == [] then [x]
    else
      assert xs == [xs[0]] + xs[1..];
      ElementsOfConcat([xs[0]], xs[1..]);
      if Less(x, xs[0]) then
        ElementsOfConcat([x], xs);
        [x] + xs
      else
        var rest := Place(x, xs[1..]);
        assert Ascending(xs) && x !in xs ==> Ascending([xs[0]] + rest) by {
          if Ascending(xs) && x !in xs {
            assert forall y | y in xs[1..] :: Less(xs[0], y);
            AscendingConcat([xs[0]], rest);
          }
        }
        ElementsOfConcat([xs[0]], rest);
        [xs[0]] + rest
  }

  /** The executable listing. */
  function Sort(xs: seq<Key>): (ys: seq<Key>)
    ensures Elements(ys) == Elements(xs) && |ys| == |xs|
    ensures |Elements(xs)| == |xs| ==> Ascending(ys)
  {
    if xs == [] then []
    else
      var rest := Sort(xs[1..]);
      assert Elements(xs) == {xs[0]} + Elements(xs[1..]);
      DistinctCount(xs[1..]);
      assert forall y :: y in rest <==> y in Elements(xs[1..]);
      Place(xs[0], rest)
  }

  lemma {:induction false} DistinctCount(xs: seq<Key>)
    ensures |Elements(xs)| <= |xs|
  {
    if xs != [] {
      DistinctCount(xs[1..]);
      assert Elements(xs) == {xs[0]} + Elements(xs[1..]);
    }
  }
}
