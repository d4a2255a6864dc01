/** The membership resolver: for every point, the ids of the segments whose
    closed interval contains it, sorted (overlap.go:110-122,
    main.go:104-116). */
module Resolver {
  import opened Segments
  import opened Ordering
  import opened Points

  /** Reference definition: the ids of the segments covering `loc`, in
      segment order. */
  function CoveringIds(loc: real, segs: seq<Segment>): (r: seq<int>)
    ensures forall x :: x in r <==> exists s :: s in segs && s.id == x && Covers(s, loc)
    ensures |r| <= |segs|
  {
    if |segs| == 0 then []
    else
      assert forall s :: s in segs <==> s == segs[0] || s in segs[1..];
      (if Covers(segs[0], loc) then [segs[0].id] else []) + CoveringIds(loc, segs[1..])
  }

  /** The inner loop over all segments: every segment that covers the point's
      location is added to it with `addTo`, in segment order. */
  function Collect(p: PointImpl, segs: seq<Segment>): (r: PointImpl)
    ensures r.loc == p.loc
    ensures r.BelongsTo() == p.BelongsTo() + CoveringIds(p.loc, segs)
    decreases |segs|
  {
    if |segs| == 0 then p
    else
      var head := if Covers(segs[0], p.loc) then [segs[0].id] else [];
      var q := if Covers(segs[0], p.loc) then p.AddTo(segs[0].id).0 else p;
      assert q.loc == p.loc && q.BelongsTo() == p.BelongsTo() + head;
      assert CoveringIds(p.loc, segs) == head + CoveringIds(p.loc, segs[1..]);
      assert p.BelongsTo() + head + CoveringIds(p.loc, segs[1..])
          == p.BelongsTo() + (head + CoveringIds(p.loc, segs[1..]));
      Collect(q, segs[1..])
  }

  /** The id list of the point at `loc` after `sort.Ints`. */
  function Membership(loc: real, segs: seq<Segment>): (r: seq<int>)
    ensures Ascending(r)
    ensures forall x :: x in r <==> exists s :: s in segs && s.id == x && Covers(s, loc)
    ensures multiset(r) == multiset(CoveringIds(loc, segs))
  {
    var p := Collect(PointImpl(loc, []), segs);
    var c := CoveringIds(loc, segs);
    assert p.ids == c;
    var r := Sort(p.BelongsTo());
    SortSpec(p.BelongsTo());
    assert forall x :: x in r <==> x in c by {
      forall x
        ensures x in r <==> x in c
      {
        assert x in r <==> x in multiset(r);
        assert x in c <==> x in multiset(c);
      }
    }
    r
  }

  /** `points`: one point per location, carrying its sorted membership. */
  function ResolvePoints(locs: seq<real>, segs: seq<Segment>): (r: seq<PointImpl>)
    ensures |r| == |locs|
    ensures forall k :: 0 <= k < |r| ==> r[k].loc == locs[k]
    ensures forall k :: 0 <= k < |r| ==>
      Ascending(r[k].ids) && multiset(r[k].ids) == multiset(CoveringIds(locs[k], segs))
  {
    seq(|locs|, k requires 0 <= k < |locs| => PointImpl(locs[k], Membership(locs[k], segs)))
  }

  /** With distinct segment ids a membership list has no repeated id, so it
      is strictly ascending. */
  lemma DistinctIdsStrictMembership(loc: real, segs: seq<Segment>)
    requires forall i, j :: 0 <= i < j < |segs| ==> segs[i].id != segs[j].id
    ensures StrictlyAscendingInts(Membership(loc, segs))
  {
    var c := CoveringIds(loc, segs);
    DistinctIdsDistinctCovering(loc, segs);
    var r := Membership(loc, segs);
    forall i, j | 0 <= i < j < |r|
      ensures r[i] != r[j]
    {
      if r[i] == r[j] {
        RepeatCount(r, i, j);
        NoRepeatCount(c, r[i]);
      }
    }
    AscendingDistinctIsStrict(r);
  }

  lemma {:induction false} DistinctIdsDistinctCovering(loc: real, segs: seq<Segment>)
    requires forall i, j :: 0 <= i < j < |segs| ==> segs[i].id != segs[j].id
    ensures Distinct(CoveringIds(loc, segs))
  {
    if |segs| > 0 {
      var first := segs[0];
      var rest := segs[1..];
      DistinctIdsDistinctCovering(loc, rest);
      var c0 := CoveringIds(loc, rest);
      if Covers(first, loc) {
        assert forall k :: 0 <= k < |rest| ==> rest[k].id != segs[0].id by {
          forall k | 0 <= k < |rest| ensures rest[k].id != segs[0].id {
            assert rest[k] == segs[k + 1];
          }
        }
        assert first.id !in c0;
        var c := [first.id] + c0;
        assert CoveringIds(loc, segs) == c;
        forall i, j | 0 <= i < j < |c|
          ensures c[i] != c[j]
        {
          if i == 0 {
            assert c[j] in c0;
          } else {
            assert c[i] == c0[i - 1] && c[j] == c0[j - 1];
          }
        }
      } else {
        assert CoveringIds(loc, segs) == [] + c0;
      }
    }
  }

  lemma RepeatCount(r: seq<int>, i: int, j: int)
    requires 0 <= i < j < |r| && r[i] == r[j]
    ensures multiset(r)[r[i]] >= 2
  {
    assert r == r[..j] + r[j..];
    assert r[i] in r[..j];
    assert r[j] in r[j..];
  }

  lemma {:induction false} NoRepeatCount(c: seq<int>, x: int)
    requires Distinct(c)
    ensures multiset(c)[x] <= 1
  {
    if |c| > 0 {
      NoRepeatCount(c[1..], x);
      assert c == [c[0]] + c[1..];
      if c[0] == x {
        assert x !in c[1..];
      }
    }
  }
}
