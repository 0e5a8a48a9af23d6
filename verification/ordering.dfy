/** The canonical order of an unordered collection: its elements sorted
    ascending by their string form, and removal at a position of that order. */
module Ordering {
  import opened Text

  /** `xs` lists every element of `s` exactly once, in some order: one
      possible iteration order of a hash set. */
  predicate Enumerates<T>(xs: seq<T>, s: set<T>)
  {
    multiset(xs) == multiset(s)
  }

  /** `show` gives different elements of `s` different string forms. */
  ghost predicate InjectiveOn<T>(show: T -> string, s: set<T>)
  {
    forall x, y :: x in s && y in s && show(x) == show(y) ==> x == y
  }

  /** Ascending by string form, over all pairs of positions. */
  ghost predicate SortedBy<T>(xs: seq<T>, show: T -> string)
  {
    forall i, j :: 0 <= i < j < |xs| ==> LexLe(show(xs[i]), show(xs[j]))
  }

  /** Every set can be iterated. */
  lemma {:induction false} EnumerationExists<T>(s: set<T>)
    ensures exists xs :: Enumerates(xs, s)
    decreases s
  {
    if s == {} {
      assert Enumerates([], s);
    } else {
      var x :| x in s;
      EnumerationExists(s - {x});
      var xs :| Enumerates(xs, s - {x});
      assert s == (s - {x}) + {x};
      assert multiset(xs + [x]) == multiset(xs) + multiset{x};
      assert Enumerates(xs + [x], s);
    }
  }

  /** An enumeration is as long as the set it enumerates. */
  lemma EnumerationLength<T>(xs: seq<T>, s: set<T>)
    requires Enumerates(xs, s)
    ensures |xs| == |s|
  {
    assert |multiset(xs)| == |xs|;
    assert |multiset(s)| == |s|;
  }

  /** Inserts `x` before the first element whose string form is not smaller. */
  function Insert<T>(x: T, xs: seq<T>, show: T -> string): (r: seq<T>)
    ensures multiset(r) == multiset(xs) + multiset{x}
    ensures |r| == |xs| + 1
  {
    if xs == [] then [x]
    else if LexLe(show(x), show(xs[0])) then [x] + xs
    else
      assert xs == [xs[0]] + xs[1..];
      [xs[0]] + Insert(x, xs[1..], show)
  }

  /** Insertion sort by string form; entries with equal forms keep their order. */
  function Sort<T>(xs: seq<T>, show: T -> string): (r: seq<T>)
    ensures multiset(r) == multiset(xs)
    ensures |r| == |xs|
  {
    if xs == [] then []
    else
      assert xs == [xs[0]] + xs[1..];
      Insert(xs[0], Sort(xs[1..], show), show)
  }

  lemma {:induction false} InsertSorted<T>(x: T, xs: seq<T>, show: T -> string)
    requires SortedBy(xs, show)
    ensures SortedBy(Insert(x, xs, show), show)
    decreases |xs|
  {
    if xs == [] {
    } else if LexLe(show(x), show(xs[0])) {
      var r := [x] + xs;
      forall i, j | 0 <= i < j < |r|
        ensures LexLe(show(r[i]), show(r[j]))
      {
        if i == 0 && j > 1 {
          LexLeTransitive(show(x), show(xs[0]), show(xs[j - 1]));
        }
      }
    } else {
      LexLeTotal(show(x), show(xs[0]));
      InsertSorted(x, xs[1..], show);
      var tail := Insert(x, xs[1..], show);
      var r := [xs[0]] + tail;
      forall j | 0 <= j < |tail|
        ensures LexLe(show(xs[0]), show(tail[j]))
      {
        assert tail[j] in multiset(tail);
        assert tail[j] == x || tail[j] in multiset(xs[1..]);
        if tail[j] != x {
          var k :| 0 <= k < |xs[1..]| && xs[1..][k] == tail[j];
          assert xs[k + 1] == tail[j];
        }
      }
      forall i, j | 0 <= i < j < |r|
        ensures LexLe(show(r[i]), show(r[j]))
      {
        if i == 0 {
          assert r[j] == tail[j - 1];
        } else {
          assert r[i] == tail[i - 1] && r[j] == tail[j - 1];
        }
      }
    }
  }

  /** The sort's output is in ascending order. */
  lemma {:induction false} SortSorted<T>(xs: seq<T>, show: T -> string)
    ensures SortedBy(Sort(xs, show), show)
    decreases |xs|
  {
    if xs != [] {
      SortSorted(xs[1..], show);
      InsertSorted(xs[0], Sort(xs[1..], show), show);
    }
  }

  /** Taking the head off a sequence takes one copy of it off the multiset. */
  lemma MultisetTail<T>(xs: seq<T>)
    requires xs != []
    ensures multiset(xs[1..]) == multiset(xs) - multiset{xs[0]}
  {
    assert xs == [xs[0]] + xs[1..];
  }

  /** Two ascending orders of the same elements start with the same element
      when the string form tells the elements apart. */
  lemma SortedSameHead<T>(xs: seq<T>, ys: seq<T>, show: T -> string)
    requires xs != [] && ys != []
    requires SortedBy(xs, show) && SortedBy(ys, show)
    requires multiset(xs) == multiset(ys)
    requires forall x, y :: x in xs && y in xs && show(x) == show(y) ==> x == y
    ensures xs[0] == ys[0]
  {
    assert xs[0] in multiset(ys) && ys[0] in multiset(xs);
    var j :| 0 <= j < |ys| && ys[j] == xs[0];
    var i :| 0 <= i < |xs| && xs[i] == ys[0];
    if j == 0 { LexLeReflexive(show(ys[0])); }
    if i == 0 { LexLeReflexive(show(xs[0])); }
    LexLeAntisymmetric(show(xs[0]), show(ys[0]));
  }

  /** Two ascending orders of the same elements coincide when the string form
      tells the elements apart. */
  lemma {:induction false} SortedUnique<T>(xs: seq<T>, ys: seq<T>, show: T -> string)
    requires SortedBy(xs, show) && SortedBy(ys, show)
    requires multiset(xs) == multiset(ys)
    requires forall x, y :: x in xs && y in xs && show(x) == show(y) ==> x == y
    ensures xs == ys
    decreases |xs|
  {
    assert |xs| == |multiset(xs)| == |ys|;
    if xs != [] {
      SortedSameHead(xs, ys, show);
      MultisetTail(xs);
      MultisetTail(ys);
      SortedUnique(xs[1..], ys[1..], show);
      assert xs == [xs[0]] + xs[1..] && ys == [ys[0]] + ys[1..];
    }
  }

  /** The canonical order of `s`: its elements ascending by string form. When
      two elements share a string form their relative order is the one some
      iteration of the set happened to produce. */
  ghost function CanonicalOrder<T>(s: set<T>, show: T -> string): (r: seq<T>)
    ensures Enumerates(r, s) && SortedBy(r, show)
  {
    EnumerationExists(s);
    var xs :| Enumerates(xs, s);
    SortSorted(xs, show);
    Sort(xs, show)
  }

  /** Under an injective string form the order does not depend on the order
      in which the set was iterated. */
  lemma SortIndependentOfIteration<T>(xs: seq<T>, s: set<T>, show: T -> string)
    requires Enumerates(xs, s) && InjectiveOn(show, s)
    ensures Sort(xs, show) == CanonicalOrder(s, show)
  {
    SortSorted(xs, show);
    var c := CanonicalOrder(s, show);
    var r := Sort(xs, show);
    forall x, y | x in r && y in r && show(x) == show(y)
      ensures x == y
    {
      assert x in multiset(r) && y in multiset(r);
    }
    SortedUnique(r, c, show);
  }

  /** The elements left after removing position `i` of a duplicate-free list. */
  lemma RemoveAtElements<T>(ys: seq<T>, s: set<T>, i: nat)
    requires Enumerates(ys, s) && i < |ys|
    ensures Enumerates(ys[..i] + ys[i + 1..], s - {ys[i]})
  {
    var rest := ys[..i] + ys[i + 1..];
    assert ys == ys[..i] + [ys[i]] + ys[i + 1..];
    assert multiset(rest) == multiset(ys) - multiset{ys[i]};
    assert multiset(s - {ys[i]}) == multiset(s) - multiset{ys[i]};
  }

  /** `rest` is `s` without the element at position `i` of `s` ascending by
      string form, for some iteration order of `s`. */
  ghost predicate RemovedAt<T(!new)>(s: set<T>, rest: set<T>, show: T -> string, i: nat)
  {
    exists xs :: Enumerates(xs, s) && i < |xs| && rest == s - {Sort(xs, show)[i]}
  }

  /** A removal takes exactly one element of the set away. */
  lemma RemovedAtShrinks<T(!new)>(s: set<T>, rest: set<T>, show: T -> string, i: nat)
    requires RemovedAt(s, rest, show, i)
    ensures i < |s|
    ensures exists x :: x in s && rest == s - {x}
    ensures rest < s && |rest| == |s| - 1
  {
    var xs :| Enumerates(xs, s) && i < |xs| && rest == s - {Sort(xs, show)[i]};
    EnumerationLength(xs, s);
    var x := Sort(xs, show)[i];
    assert x in multiset(Sort(xs, show));
    assert x in s;
  }

  /** Under an injective string form the element removed is the one at
      position `i` of the canonical order. */
  lemma RemovedAtCanonical<T(!new)>(s: set<T>, rest: set<T>, show: T -> string, i: nat)
    requires RemovedAt(s, rest, show, i) && InjectiveOn(show, s)
    ensures i < |CanonicalOrder(s, show)|
    ensures rest == s - {CanonicalOrder(s, show)[i]}
  {
    var xs :| Enumerates(xs, s) && i < |xs| && rest == s - {Sort(xs, show)[i]};
    SortIndependentOfIteration(xs, s, show);
  }
}
