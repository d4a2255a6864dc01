/** Ordered sequences: the ascending order that `sort.Ints` establishes on a
    point's membership list, and the strictly ascending, duplicate-free order
    of the boundary point list built from a set and `sort.Float64s`. */
module Ordering {

  /** Non-decreasing: what `sort.Ints` guarantees (duplicates are kept). */
  predicate Ascending(xs: seq<int>) {
    forall i, j :: 0 <= i < j < |xs| ==> xs[i] <= xs[j]
  }

  /** Strictly increasing integers: sorted and free of duplicates. */
  predicate StrictlyAscendingInts(xs: seq<int>) {
    forall i, j :: 0 <= i < j < |xs| ==> xs[i] < xs[j]
  }

  /** Strictly increasing locations. */
  predicate StrictlyAscending(xs: seq<real>) {
    forall i, j :: 0 <= i < j < |xs| ==> xs[i] < xs[j]
  }

  /** Places `x` into the ascending list `xs`, after every element that is
      not greater than it. */
  function InsertSorted(xs: seq<int>, x: int): (r: seq<int>)
    requires Ascending(xs)
    ensures Ascending(r)
    ensures multiset(r) == multiset(xs) + multiset{x}
  {
    if |xs| == 0 then [x]
    else if x <= xs[0] then [x] + xs
    else
      var tail := InsertSorted(xs[1..], x);
      assert xs == [xs[0]] + xs[1..];
      BoundPreserved(xs[0], xs[1..], x, tail);
      [xs[0]] + tail
  }

  /** A lower bound of `s` and of `x` bounds any arrangement of `s` plus `x`. */
  lemma BoundPreserved(m: int, s: seq<int>, x: int, t: seq<int>)
    requires forall k :: 0 <= k < |s| ==> m <= s[k]
    requires m <= x
    requires multiset(t) == multiset(s) + multiset{x}
    ensures forall k :: 0 <= k < |t| ==> m <= t[k]
  {
    forall k | 0 <= k < |t|
      ensures m <= t[k]
    {
      assert t[k] in multiset(t);
      if t[k] != x {
        assert t[k] in multiset(s);
      }
    }
  }

  /** Insertion sort: the model of `sort.Ints` on a membership list. Its
      properties are stated by `SortSpec`. */
  function Sort(xs: seq<int>): seq<int> {
    if |xs| == 0 then []
    else InsertSorted(Sort(xs[1..]), xs[0])
  }

  /** The sorted list is ascending and a permutation of the input. */
  lemma {:induction false} SortSpec(xs: seq<int>)
    ensures Ascending(Sort(xs))
    ensures multiset(Sort(xs)) == multiset(xs)
  {
    if |xs| > 0 {
      SortSpec(xs[1..]);
      assert xs == [xs[0]] + xs[1..];
    }
  }

  /** Any two ascending arrangements of the same multiset are the same
      sequence, so the result of sorting does not depend on the algorithm. */
  lemma {:induction false} AscendingPermutationUnique(a: seq<int>, b: seq<int>)
    requires Ascending(a) && Ascending(b)
    requires multiset(a) == multiset(b)
    ensures a == b
    decreases |a|
  {
    assert |a| == |multiset(a)| == |multiset(b)| == |b|;
    if |a| > 0 {
      AscendingSameHead(a, b);
      assert a == [a[0]] + a[1..];
      assert b == [b[0]] + b[1..];
      assert multiset(a) == multiset{a[0]} + multiset(a[1..]);
      assert multiset(b) == multiset{b[0]} + multiset(b[1..]);
      assert multiset(a[1..]) == multiset(a) - multiset{a[0]};
      assert multiset(b[1..]) == multiset(b) - multiset{b[0]};
      AscendingPermutationUnique(a[1..], b[1..]);
    }
  }

  /** Two ascending arrangements of one multiset start with its least element. */
  lemma AscendingSameHead(a: seq<int>, b: seq<int>)
    requires Ascending(a) && Ascending(b)
    requires multiset(a) == multiset(b)
    requires |a| > 0 && |b| > 0
    ensures a[0] == b[0]
  {
    assert a[0] in multiset(b);
    assert b[0] in multiset(a);
    var i :| 0 <= i < |b| && b[i] == a[0];
    var k :| 0 <= k < |a| && a[k] == b[0];
  }

  /** No element occurs twice. */
  predicate Distinct(xs: seq<int>) {
    forall i, j :: 0 <= i < j < |xs| ==> xs[i] != xs[j]
  }

  /** An ascending list with no repeated element is strictly ascending. */
  lemma AscendingDistinctIsStrict(xs: seq<int>)
    requires Ascending(xs)
    requires Distinct(xs)
    ensures StrictlyAscendingInts(xs)
  {
  }

  /** In a strictly ascending list, a smaller element sits at a smaller index. */
  lemma IndexOrder(xs: seq<real>, i: int, j: int)
    requires StrictlyAscending(xs)
    requires 0 <= i < |xs| && 0 <= j < |xs|
    requires xs[i] < xs[j]
    ensures i < j
  {
  }

  /** Adds the location `x` to the strictly ascending list `xs` unless it is
      already there: a value-based de-duplication in sorted position. */
  function InsertUnique(xs: seq<real>, x: real): (r: seq<real>)
    requires StrictlyAscending(xs)
    ensures StrictlyAscending(r)
    ensures forall y :: y in r <==> y in xs || y == x
    ensures |r| == if x in xs then |xs| else |xs| + 1
  {
    if |xs| == 0 then [x]
    else if x == xs[0] then xs
    else if x < xs[0] then [x] + xs
    else
      var tail := InsertUnique(xs[1..], x);
      assert xs == [xs[0]] + xs[1..];
      assert forall k :: 0 <= k < |tail| ==> xs[0] < tail[k] by {
        forall k | 0 <= k < |tail|
          ensures xs[0] < tail[k]
        {
          assert tail[k] in tail;
        }
      }
      [xs[0]] + tail
  }

  /** A strictly ascending list is determined by its set of elements: the
      sorted key list of a set has exactly one possible value. */
  lemma {:induction false} StrictlyAscendingUnique(a: seq<real>, b: seq<real>)
    requires StrictlyAscending(a) && StrictlyAscending(b)
    requires forall y :: y in a <==> y in b
    ensures a == b
    decreases |a|
  {
    SameElementsBothEmpty(a, b);
    if |a| == 0 {
    } else {
      assert a[0] in a && b[0] in b;
      assert a[0] in b;
      assert b[0] in a;
      assert a[0] == b[0];
      forall y
        ensures y in a[1..] <==> y in b[1..]
      {
        if y in a[1..] {
          var i :| 1 <= i < |a| && a[i] == y;
          assert y in b;
          assert y != b[0];
        }
        if y in b[1..] {
          var i :| 1 <= i < |b| && b[i] == y;
          assert y in a;
          assert y != a[0];
        }
      }
      AscendingTail(a);
      AscendingTail(b);
      StrictlyAscendingUnique(a[1..], b[1..]);
      assert a == [a[0]] + a[1..];
      assert b == [b[0]] + b[1..];
    }
  }

  lemma SameElementsBothEmpty(a: seq<real>, b: seq<real>)
    requires forall y :: y in a <==> y in b
    ensures |a| == 0 <==> |b| == 0
  {
    if |a| > 0 {
      var y := a[0];
      assert y in a;
    }
    if |b| > 0 {
      var y := b[0];
      assert y in b;
    }
  }

  lemma AscendingTail(a: seq<real>)
    requires StrictlyAscending(a) && |a| > 0
    ensures StrictlyAscending(a[1..])
  {
  }
}
