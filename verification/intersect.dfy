/** The shared ids of two points: the nested loops with `break` of the
    pairwise stage (overlap.go:135-146, main.go:130-142). */
module Intersection {
  import opened Ordering

  /** Reference definition: the elements of `a`, in `a`'s order, that also
      occur in `b`. */
  function Shared(a: seq<int>, b: seq<int>): (r: seq<int>)
    ensures forall x :: x in r <==> x in a && x in b
    ensures |r| <= |a|
  {
    if |a| == 0 then []
    else
      assert forall y :: y in a <==> y == a[0] || y in a[1..];
      (if a[0] in b then [a[0]] else []) + Shared(a[1..], b)
  }

  /** Extending the first list by one id extends the shared list by that id
      exactly when it occurs in the second list. */
  lemma {:induction false} SharedSnoc(a: seq<int>, x: int, b: seq<int>)
    ensures Shared(a + [x], b) == Shared(a, b) + (if x in b then [x] else [])
  {
    if |a| > 0 {
      assert (a + [x])[1..] == a[1..] + [x];
      SharedSnoc(a[1..], x, b);
    } else {
      assert (a + [x])[1..] == [];
    }
  }

  /** The shared list keeps the order of the earlier point's list, so it is
      sorted when that list is. */
  lemma {:induction false} SharedAscending(a: seq<int>, b: seq<int>)
    requires Ascending(a)
    ensures Ascending(Shared(a, b))
  {
    if |a| > 0 {
      SharedAscending(a[1..], b);
      var r0 := Shared(a[1..], b);
      forall k | 0 <= k < |r0|
        ensures a[0] <= r0[k]
      {
        assert r0[k] in a[1..];
      }
    }
  }

  /** Likewise a strictly ascending (duplicate-free) list stays so. */
  lemma {:induction false} SharedStrictlyAscending(a: seq<int>, b: seq<int>)
    requires StrictlyAscendingInts(a)
    ensures StrictlyAscendingInts(Shared(a, b))
  {
    if |a| > 0 {
      SharedStrictlyAscending(a[1..], b);
      var r0 := Shared(a[1..], b);
      forall k | 0 <= k < |r0|
        ensures a[0] < r0[k]
      {
        assert r0[k] in a[1..];
      }
    }
  }

  /** For each id of `segStart`, scan `segEnd` until an equal id is found;
      on a match the id is appended and the scan stops. */
  method Intersect(segStart: seq<int>, segEnd: seq<int>) returns (overlap: seq<int>)
    ensures overlap == Shared(segStart, segEnd)
    ensures forall x :: x in overlap <==> x in segStart && x in segEnd
  {
    overlap := [];
    for i := 0 to |segStart|
      invariant overlap == Shared(segStart[..i], segEnd)
    {
      var seg1 := segStart[i];
      assert segStart[..i + 1] == segStart[..i] + [seg1];
      SharedSnoc(segStart[..i], seg1, segEnd);
      var j := 0;
      while j < |segEnd|
        invariant 0 <= j <= |segEnd|
        invariant seg1 !in segEnd[..j]
        invariant overlap == Shared(segStart[..i], segEnd)
      {
        if seg1 == segEnd[j] {
          overlap := overlap + [seg1];
          break;
        }
        assert segEnd[..j + 1] == segEnd[..j] + [segEnd[j]];
        j := j + 1;
      }
      assert j == |segEnd| ==> segEnd[..j] == segEnd;
    }
    assert segStart[..|segStart|] == segStart;
  }
}
