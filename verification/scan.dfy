/** The overlap scanner and result assembler: every pair of points is
    compared, pairs sharing more than one segment are stored in a nested map
    keyed by start and end location, and the map is flattened into `Result`
    records (overlap.go:37-45, 124-169; main.go:118-151). */
module Scanner {
  import opened Points
  import opened Intersection

  /** Go's `Result`: one overlap between two points. */
  datatype OverlapResult = OverlapResult(
    overlapLength: real,
    overlapStart: real,
    overlapEnd: real,
    segmentCount: int,
    segmentList: seq<int>)

  /** The threshold: a pair of points overlaps when it shares more than one
      segment (overlap.go:147, main.go:143). */
  predicate IsOverlap(shared: seq<int>) {
    |shared| > 1
  }

  /** The record built for one map entry (overlap.go:160-166). */
  function MakeResult(start: real, end: real, shared: seq<int>): (r: OverlapResult)
    ensures r.overlapLength == r.overlapEnd - r.overlapStart
    ensures r.segmentCount == |r.segmentList|
    ensures r.overlapStart == start && r.overlapEnd == end && r.segmentList == shared
  {
    OverlapResult(end - start, start, end, |shared|, shared)
  }

  /** Point locations strictly increase along the list, as `points` built
      from the sorted, de-duplicated `locList` does. */
  predicate LocsAscending(points: seq<PointImpl>) {
    forall i, j :: 0 <= i < j < |points| ==> points[i].loc < points[j].loc
  }

  /** Reference definition: the record of every pair of points, earlier one
      first, that shares more than one segment. */
  function PairOverlaps(points: seq<PointImpl>): set<OverlapResult> {
    set i, j | 0 <= i < j < |points| && IsOverlap(Shared(points[i].ids, points[j].ids))
      :: MakeResult(points[i].loc, points[j].loc, Shared(points[i].ids, points[j].ids))
  }

  /** `row` is the inner map of point `i` once every later point with index
      above `lo` has been compared with it. */
  ghost predicate RowHolds(points: seq<PointImpl>, i: int, row: map<real, seq<int>>, lo: int)
    requires 0 <= i <= lo
  {
    && (forall k :: lo < k < |points| ==>
          (points[k].loc in row <==> IsOverlap(Shared(points[i].ids, points[k].ids))))
    && (forall k :: lo < k < |points| && points[k].loc in row ==>
          row[points[k].loc] == Shared(points[i].ids, points[k].ids))
    && (forall e :: e in row ==> exists k :: lo < k < |points| && points[k].loc == e)
  }

  /** `resMap` holds a completed inner map for each of the first `n` points
      and nothing else. */
  ghost predicate TableHolds(points: seq<PointImpl>, n: int, resMap: map<real, map<real, seq<int>>>)
    requires 0 <= n <= |points|
  {
    && (forall k :: 0 <= k < n ==>
          points[k].loc in resMap && RowHolds(points, k, resMap[points[k].loc], k))
    && (forall s :: s in resMap ==> exists k :: 0 <= k < n && points[k].loc == s)
  }

  function OuterCount(points: seq<PointImpl>): nat {
    if |points| == 0 then 0 else |points| - 1
  }

  /** The inner loop for point `i`: `j` runs from the last point down to
      `i + 1`, and a pair's shared list is stored under the later point's
      location when it holds more than one id. */
  method ScanRow(points: seq<PointImpl>, i: int) returns (row: map<real, seq<int>>)
    requires LocsAscending(points)
    requires 0 <= i < |points|
    ensures RowHolds(points, i, row, i)
  {
    row := map[];
    var segStart := points[i].BelongsTo();
    var j := |points| - 1;
    while j > i
      invariant i <= j <= |points| - 1
      invariant RowHolds(points, i, row, j)
    {
      var segEnd := points[j].BelongsTo();
      var overlap := Intersect(segStart, segEnd);
      RowStep(points, i, row, j, overlap);
      if |overlap| > 1 {
        row := row[points[j].loc := overlap];
      }
      j := j - 1;
    }
  }

  /** Comparing point `i` with point `j` extends a row that covers the points
      above `j` to one that covers the points above `j - 1`. */
  lemma RowStep(points: seq<PointImpl>, i: int, row: map<real, seq<int>>, j: int, overlap: seq<int>)
    requires LocsAscending(points)
    requires 0 <= i < j < |points|
    requires RowHolds(points, i, row, j)
    requires overlap == Shared(points[i].ids, points[j].ids)
    ensures RowHolds(points, i, if |overlap| > 1 then row[points[j].loc := overlap] else row, j - 1)
  {
    if |overlap| > 1 {
      RowStepStore(points, i, row, j, overlap);
    }
  }

  lemma RowStepStore(points: seq<PointImpl>, i: int, row: map<real, seq<int>>, j: int, overlap: seq<int>)
    requires LocsAscending(points)
    requires 0 <= i < j < |points|
    requires RowHolds(points, i, row, j)
    requires overlap == Shared(points[i].ids, points[j].ids) && IsOverlap(overlap)
    ensures RowHolds(points, i, row[points[j].loc := overlap], j - 1)
  {
    var row' := row[points[j].loc := overlap];
    forall k | j - 1 < k < |points|
      ensures points[k].loc in row' <==> IsOverlap(Shared(points[i].ids, points[k].ids))
      ensures points[k].loc in row' ==> row'[points[k].loc] == Shared(points[i].ids, points[k].ids)
    {
      if k > j {
        assert points[k].loc != points[j].loc;
      }
    }
    forall e | e in row'
      ensures exists k :: j - 1 < k < |points| && points[k].loc == e
    {
      if e != points[j].loc {
        assert e in row;
      }
    }
  }

  /** The outer loop: every point but the last gets its inner map. */
  method ScanPairs(points: seq<PointImpl>) returns (resMap: map<real, map<real, seq<int>>>)
    requires LocsAscending(points)
    ensures TableHolds(points, OuterCount(points), resMap)
  {
    resMap := map[];
    var i := 0;
    while i < |points| - 1
      invariant 0 <= i <= OuterCount(points)
      invariant TableHolds(points, i, resMap)
    {
      var row := ScanRow(points, i);
      TableStep(points, i, resMap, row);
      resMap := resMap[points[i].loc := row];
      i := i + 1;
    }
  }

  /** Storing the completed row of point `i` extends the table by one point;
      no earlier row is overwritten because locations are distinct. */
  lemma TableStep(points: seq<PointImpl>, i: int, resMap: map<real, map<real, seq<int>>>, row: map<real, seq<int>>)
    requires LocsAscending(points)
    requires 0 <= i < |points|
    requires TableHolds(points, i, resMap)
    requires RowHolds(points, i, row, i)
    ensures TableHolds(points, i + 1, resMap[points[i].loc := row])
  {
    var m := resMap[points[i].loc := row];
    forall k | 0 <= k < i + 1
      ensures points[k].loc in m && RowHolds(points, k, m[points[k].loc], k)
    {
      if k < i {
        assert points[k].loc != points[i].loc;
      }
    }
  }

  /** The final double loop over the nested map: one record per stored
      (start, end) entry. */
  function Assemble(resMap: map<real, map<real, seq<int>>>): (r: set<OverlapResult>)
    ensures forall s, e :: s in resMap && e in resMap[s] ==> MakeResult(s, e, resMap[s][e]) in r
    ensures forall x :: x in r ==>
      && x.overlapStart in resMap && x.overlapEnd in resMap[x.overlapStart]
      && x.segmentList == resMap[x.overlapStart][x.overlapEnd]
      && x.overlapLength == x.overlapEnd - x.overlapStart
      && x.segmentCount == |x.segmentList|
  {
    set s, e | s in resMap && e in resMap[s] :: MakeResult(s, e, resMap[s][e])
  }

  /** Flattening the scanned map gives exactly the reference set of pair
      records: nothing is lost, added or overwritten by the map. */
  lemma AssembleScanned(points: seq<PointImpl>, resMap: map<real, map<real, seq<int>>>)
    requires LocsAscending(points)
    requires TableHolds(points, OuterCount(points), resMap)
    ensures Assemble(resMap) == PairOverlaps(points)
  {
    forall r | r in Assemble(resMap)
      ensures r in PairOverlaps(points)
    {
      var s, e :| s in resMap && e in resMap[s] && r == MakeResult(s, e, resMap[s][e]);
      StoredIsPair(points, resMap, s, e);
    }
    forall r | r in PairOverlaps(points)
      ensures r in Assemble(resMap)
    {
      var i, j :| && 0 <= i < j < |points|
                  && IsOverlap(Shared(points[i].ids, points[j].ids))
                  && r == MakeResult(points[i].loc, points[j].loc, Shared(points[i].ids, points[j].ids));
      PairIsStored(points, resMap, i, j);
    }
  }

  lemma StoredIsPair(points: seq<PointImpl>, resMap: map<real, map<real, seq<int>>>, s: real, e: real)
    requires LocsAscending(points)
    requires TableHolds(points, OuterCount(points), resMap)
    requires s in resMap && e in resMap[s]
    ensures MakeResult(s, e, resMap[s][e]) in PairOverlaps(points)
  {
    var i :| 0 <= i < OuterCount(points) && points[i].loc == s;
    var row := resMap[s];
    assert RowHolds(points, i, row, i);
    var j :| i < j < |points| && points[j].loc == e;
    assert row[e] == Shared(points[i].ids, points[j].ids);
  }

  lemma PairIsStored(points: seq<PointImpl>, resMap: map<real, map<real, seq<int>>>, i: int, j: int)
    requires LocsAscending(points)
    requires TableHolds(points, OuterCount(points), resMap)
    requires 0 <= i < j < |points| && IsOverlap(Shared(points[i].ids, points[j].ids))
    ensures MakeResult(points[i].loc, points[j].loc, Shared(points[i].ids, points[j].ids)) in Assemble(resMap)
  {
    var s := points[i].loc;
    assert s in resMap && RowHolds(points, i, resMap[s], i);
    assert points[j].loc in resMap[s];
  }
}
