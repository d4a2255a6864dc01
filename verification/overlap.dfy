/** `Calculate`: load the segments, build the boundary points and their
    memberships, scan every pair of points and assemble the overlaps
    (overlap.go:51-172).

    In overlap.go the slices `locList` (line 103) and `points` (line 111) are
    created with a length and then appended to, so they start with zero
    values; `points[0]` is then a nil pointer that line 131 dereferences for
    any non-empty input. The pipeline below builds both slices the way
    main.go:97 and main.go:105 do, starting empty; the as-written slice is
    modelled separately in module `Presized`. */
module Overlap {
  import opened Wrappers
  import opened Ordering
  import opened Segments
  import opened Boundary
  import opened Points
  import opened Resolver
  import opened Intersection
  import opened Scanner

  /** The points of a segment list, each carrying its sorted membership. Its
      shape is stated by `PointsOfSpec`. */
  function PointsOf(segs: seq<Segment>): seq<PointImpl> {
    ResolvePoints(LocList(segs), segs)
  }

  /** `points` follows `locList` position by position, so locations strictly
      increase, and each point carries the membership of its location. */
  lemma PointsOfSpec(segs: seq<Segment>)
    ensures LocsAscending(PointsOf(segs))
    ensures |PointsOf(segs)| == |LocList(segs)|
    ensures forall k :: 0 <= k < |PointsOf(segs)| ==>
      PointsOf(segs)[k].loc == LocList(segs)[k] && PointsOf(segs)[k].ids == Membership(LocList(segs)[k], segs)
  {
  }

  /** Reference definition of the overlaps of a segment list. */
  function Overlaps(segs: seq<Segment>): set<OverlapResult> {
    PairOverlaps(PointsOf(segs))
  }

  /** The whole calculation on the lines of the input file. */
  method Calculate(lines: seq<string>, atoi: IntParser, parseFloat: NumParser)
    returns (r: Result<set<OverlapResult>, CalcError>)
    ensures ParseLines(lines, atoi, parseFloat).Failure? ==> r == Failure(ParseLines(lines, atoi, parseFloat).error)
    ensures forall segs :: ParseLines(lines, atoi, parseFloat) == Success(segs) ==> r == Success(Overlaps(segs))
  {
    var loaded := ParseLines(lines, atoi, parseFloat);
    if loaded.Failure? {
      return Failure(loaded.error);
    }
    var overlaps := OverlapsOf(loaded.value);
    return Success(overlaps);
  }

  /** Everything after loading: the sorted points, their memberships, the
      pairwise scan and the flattening of its map (overlap.go:94-169,
      main.go:84-151). */
  method OverlapsOf(segments: seq<Segment>) returns (overlaps: set<OverlapResult>)
    ensures overlaps == Overlaps(segments)
  {
    var locList := LocList(segments);
    var points := ResolvePoints(locList, segments);
    PointsOfSpec(segments);
    var resMap := ScanPairs(points);
    AssembleScanned(points, resMap);
    return Assemble(resMap);
  }

  /** An empty file loads as zero segments, which give no overlap. */
  lemma EmptyFileNoOverlaps(atoi: IntParser, parseFloat: NumParser)
    ensures ParseLines([], atoi, parseFloat) == Success([])
    ensures Overlaps([]) == {}
  {
    assert PointsOf([]) == [];
  }

  /** Every record describes a real overlap: its ends are distinct segment
      endpoints in increasing order, its length and count agree with its
      fields, more than one id is listed, the list is sorted, and each listed
      id belongs to a segment covering the start and to one covering the end. */
  lemma {:induction false} OverlapsSound(segs: seq<Segment>, r: OverlapResult)
    requires r in Overlaps(segs)
    ensures IsEndpoint(r.overlapStart, segs) && IsEndpoint(r.overlapEnd, segs)
    ensures r.overlapStart < r.overlapEnd
    ensures r == MakeResult(r.overlapStart, r.overlapEnd,
                            Shared(Membership(r.overlapStart, segs), Membership(r.overlapEnd, segs)))
    ensures IsOverlap(r.segmentList)
  {
    var P := PointsOf(segs);
    var i, j := PairOf(P, r);
    assert P[i].loc in LocList(segs) && P[j].loc in LocList(segs);
  }

  /** The pair of points a record of `PairOverlaps` was built from. */
  lemma PairOf(points: seq<PointImpl>, r: OverlapResult) returns (i: int, j: int)
    requires r in PairOverlaps(points)
    ensures 0 <= i < j < |points| && IsOverlap(Shared(points[i].ids, points[j].ids))
    ensures r == MakeResult(points[i].loc, points[j].loc, Shared(points[i].ids, points[j].ids))
  {
    i, j :| && 0 <= i < j < |points|
            && IsOverlap(Shared(points[i].ids, points[j].ids))
            && r == MakeResult(points[i].loc, points[j].loc, Shared(points[i].ids, points[j].ids));
  }

  /** The list of a record is ascending, has more than one id, its count
      is its length, and every id on it belongs to a segment covering the
      record's start and to one covering its end. */
  lemma OverlapListSound(segs: seq<Segment>, r: OverlapResult)
    requires r in Overlaps(segs)
    ensures r.overlapLength == r.overlapEnd - r.overlapStart
    ensures r.segmentCount == |r.segmentList| && r.segmentCount > 1
    ensures Ascending(r.segmentList)
    ensures forall x :: x in r.segmentList ==>
      && (exists s :: s in segs && s.id == x && Covers(s, r.overlapStart))
      && (exists s :: s in segs && s.id == x && Covers(s, r.overlapEnd))
  {
    OverlapsSound(segs, r);
    var a := Membership(r.overlapStart, segs);
    var b := Membership(r.overlapEnd, segs);
    SharedAscending(a, b);
  }

  /** Two endpoints s < e whose memberships share more than one id get a
      record carrying that shared list. */
  lemma OverlapsIfShared(segs: seq<Segment>, s: real, e: real)
    requires IsEndpoint(s, segs) && IsEndpoint(e, segs) && s < e
    requires IsOverlap(Shared(Membership(s, segs), Membership(e, segs)))
    ensures MakeResult(s, e, Shared(Membership(s, segs), Membership(e, segs))) in Overlaps(segs)
  {
    var L := LocList(segs);
    var P := PointsOf(segs);
    assert s in L && e in L;
    var i :| 0 <= i < |L| && L[i] == s;
    var j :| 0 <= j < |L| && L[j] == e;
    IndexOrder(L, i, j);
    assert P[i].loc == s && P[j].loc == e;
  }

  /** A record for the pair (s, e) exists exactly when s and e are segment
      endpoints, s < e, and the memberships at s and e share more than one
      id. */
  lemma OverlapsComplete(segs: seq<Segment>, s: real, e: real)
    ensures (exists r :: r in Overlaps(segs) && r.overlapStart == s && r.overlapEnd == e)
      <==> && IsEndpoint(s, segs) && IsEndpoint(e, segs) && s < e
           && IsOverlap(Shared(Membership(s, segs), Membership(e, segs)))
  {
    if exists r :: r in Overlaps(segs) && r.overlapStart == s && r.overlapEnd == e {
      var r :| r in Overlaps(segs) && r.overlapStart == s && r.overlapEnd == e;
      OverlapsSound(segs, r);
    }
    if IsEndpoint(s, segs) && IsEndpoint(e, segs) && s < e
       && IsOverlap(Shared(Membership(s, segs), Membership(e, segs))) {
      OverlapsIfShared(segs, s, e);
    }
  }

  /** Each pair of points appears at most once. */
  lemma OverlapsUnique(segs: seq<Segment>, r1: OverlapResult, r2: OverlapResult)
    requires r1 in Overlaps(segs) && r2 in Overlaps(segs)
    requires r1.overlapStart == r2.overlapStart && r1.overlapEnd == r2.overlapEnd
    ensures r1 == r2
  {
    OverlapsSound(segs, r1);
    OverlapsSound(segs, r2);
  }

  /** With fewer than two segments no point is covered twice, so nothing
      overlaps; in particular a single segment never overlaps itself. */
  lemma {:induction false} FewerThanTwoSegmentsNoOverlaps(segs: seq<Segment>)
    requires |segs| < 2
    ensures Overlaps(segs) == {}
  {
    forall r | r in Overlaps(segs)
      ensures false
    {
      OverlapsSound(segs, r);
    }
  }

  /** The segments covering each endpoint of the example, in input order. */
  lemma TwoSegmentsCovering(segs: seq<Segment>)
    requires |segs| == 2 && segs[0] == Segment(1, 50.0, 150.0) && segs[1] == Segment(2, 100.0, 200.0)
    ensures CoveringIds(50.0, segs) == [1]
    ensures CoveringIds(100.0, segs) == [1, 2]
    ensures CoveringIds(150.0, segs) == [1, 2]
    ensures CoveringIds(200.0, segs) == [2]
  {
    assert segs[1..] == [Segment(2, 100.0, 200.0)];
    assert segs[1..][1..] == [];
  }

  /** When the covering ids are already in order, the membership is
      exactly that list. */
  lemma MembershipIsSortedCovering(loc: real, segs: seq<Segment>, ids: seq<int>)
    requires CoveringIds(loc, segs) == ids && Ascending(ids)
    ensures Membership(loc, segs) == ids
  {
    AscendingPermutationUnique(Membership(loc, segs), ids);
  }

  lemma SharedOfExample()
    ensures Shared([1], [1, 2]) == [1]
    ensures Shared([1, 2], [1, 2]) == [1, 2]
    ensures Shared([1], [2]) == []
    ensures Shared([1, 2], [2]) == [2]
  {
    assert [1, 2][1..] == [2];
    assert [1][1..] == [];
    assert Shared([], [1, 2]) == [] && Shared([], [2]) == [];
    assert Shared([2], [1, 2]) == [2] + [];
    assert Shared([1], [1, 2]) == [1] + [];
    assert Shared([1, 2], [1, 2]) == [1] + [2];
    assert Shared([2], [2]) == [2] + [];
    assert Shared([1], [2]) == [] + [];
    assert Shared([1, 2], [2]) == [] + [2];
  }

  /** The endpoints of the example are 50, 100, 150 and 200. */
  lemma TwoSegmentsEndpoints(segs: seq<Segment>, x: real)
    requires segs == [Segment(1, 50.0, 150.0), Segment(2, 100.0, 200.0)]
    requires IsEndpoint(x, segs)
    ensures x == 50.0 || x == 100.0 || x == 150.0 || x == 200.0
  {
    var s :| s in segs && (x == s.start || x == s.end);
    assert s == segs[0] || s == segs[1];
  }

  /** Segments [50, 150] and [100, 200] overlap once, on [100, 150], of
      length 50 and shared by both (overlap_test.go:50-62, with integer ids
      in place of the test's strings). */
  lemma TwoSegmentsExample(segs: seq<Segment>)
    requires segs == [Segment(1, 50.0, 150.0), Segment(2, 100.0, 200.0)]
    ensures Overlaps(segs) == {OverlapResult(50.0, 100.0, 150.0, 2, [1, 2])}
  {
    TwoSegmentsTable(segs);
    forall x | IsEndpoint(x, segs)
      ensures x == 50.0 || x == 100.0 || x == 150.0 || x == 200.0
    {
      TwoSegmentsEndpoints(segs, x);
    }
    assert IsEndpoint(100.0, segs) by {
      assert segs[1] in segs;
    }
    assert IsEndpoint(150.0, segs) by {
      assert segs[0] in segs;
    }
    TwoSegmentsRecords(segs);
  }

  /** What the shared lists and endpoints of the example leave of its
      records: exactly the one for (100, 150). */
  lemma TwoSegmentsRecords(segs: seq<Segment>)
    requires PairTable(segs)
    requires forall x :: IsEndpoint(x, segs) ==> x == 50.0 || x == 100.0 || x == 150.0 || x == 200.0
    requires IsEndpoint(100.0, segs) && IsEndpoint(150.0, segs)
    ensures Overlaps(segs) == {OverlapResult(50.0, 100.0, 150.0, 2, [1, 2])}
  {
    var expected := OverlapResult(50.0, 100.0, 150.0, 2, [1, 2]);
    assert expected in Overlaps(segs) by {
      OverlapsIfShared(segs, 100.0, 150.0);
    }
    forall r | r in Overlaps(segs)
      ensures r == expected
    {
      TwoSegmentsRecord(segs, r);
    }
    OnlyElement(Overlaps(segs), expected);
  }

  /** A set holding x and nothing else is {x}. */
  lemma OnlyElement<T>(a: set<T>, x: T)
    requires x in a && forall y :: y in a ==> y == x
    ensures a == {x}
  {
  }

  lemma TwoSegmentsRecord(segs: seq<Segment>, r: OverlapResult)
    requires PairTable(segs)
    requires forall x :: IsEndpoint(x, segs) ==> x == 50.0 || x == 100.0 || x == 150.0 || x == 200.0
    requires r in Overlaps(segs)
    ensures r == OverlapResult(50.0, 100.0, 150.0, 2, [1, 2])
  {
    OverlapsSound(segs, r);
    TwoSegmentsOnlyPair(segs, r.overlapStart, r.overlapEnd);
  }

  /** Of all ordered endpoint pairs of the example only (100, 150) shares
      more than one segment. */
  lemma TwoSegmentsOnlyPair(segs: seq<Segment>, s: real, e: real)
    requires PairTable(segs)
    requires s == 50.0 || s == 100.0 || s == 150.0 || s == 200.0
    requires e == 50.0 || e == 100.0 || e == 150.0 || e == 200.0
    requires s < e
    ensures IsOverlap(Shared(Membership(s, segs), Membership(e, segs))) <==> s == 100.0 && e == 150.0
  {
  }

  /** The shared lists of the six ordered endpoint pairs of the example. */
  predicate PairTable(segs: seq<Segment>) {
    && Shared(Membership(50.0, segs), Membership(100.0, segs)) == [1]
    && Shared(Membership(50.0, segs), Membership(150.0, segs)) == [1]
    && Shared(Membership(50.0, segs), Membership(200.0, segs)) == []
    && Shared(Membership(100.0, segs), Membership(150.0, segs)) == [1, 2]
    && Shared(Membership(100.0, segs), Membership(200.0, segs)) == [2]
    && Shared(Membership(150.0, segs), Membership(200.0, segs)) == [2]
  }

  lemma TwoSegmentsTable(segs: seq<Segment>)
    requires |segs| == 2 && segs[0] == Segment(1, 50.0, 150.0) && segs[1] == Segment(2, 100.0, 200.0)
    ensures PairTable(segs)
  {
    TwoSegmentsCovering(segs);
    TwoSegmentsOuterMemberships(segs);
    TwoSegmentsInnerMemberships(segs);
    TwoSegmentsPairTable(segs);
  }

  lemma TwoSegmentsPairTable(segs: seq<Segment>)
    requires Membership(50.0, segs) == [1]
    requires Membership(100.0, segs) == [1, 2]
    requires Membership(150.0, segs) == [1, 2]
    requires Membership(200.0, segs) == [2]
    ensures PairTable(segs)
  {
    SharedOfExample();
  }

  /** The sorted memberships at the example's outer endpoints. */
  lemma TwoSegmentsOuterMemberships(segs: seq<Segment>)
    requires CoveringIds(50.0, segs) == [1]
    requires CoveringIds(200.0, segs) == [2]
    ensures Membership(50.0, segs) == [1]
    ensures Membership(200.0, segs) == [2]
  {
    MembershipIsSortedCovering(50.0, segs, [1]);
    MembershipIsSortedCovering(200.0, segs, [2]);
  }

  /** The sorted memberships at the example's inner endpoints. */
  lemma TwoSegmentsInnerMemberships(segs: seq<Segment>)
    requires CoveringIds(100.0, segs) == [1, 2]
    requires CoveringIds(150.0, segs) == [1, 2]
    ensures Membership(100.0, segs) == [1, 2]
    ensures Membership(150.0, segs) == [1, 2]
  {
    MembershipIsSortedCovering(100.0, segs, [1, 2]);
    MembershipIsSortedCovering(150.0, segs, [1, 2]);
  }
}
