/** A boundary point and the ids of the segments that go over it
    (overlap.go:13-30, main.go:23-40). */
module Points {

  /** `loc` is the point's location; `ids` (the Go field `in`) lists segment ids in the order they
      were added. */
  datatype PointImpl = PointImpl(loc: real, ids: seq<int>) {

    /** Appends one segment id and returns the updated point together with
        the new length of its id list (Go mutates the receiver in place). */
    function AddTo(segmentId: int): (r: (PointImpl, int))
      ensures r.0.loc == loc
      ensures r.0.BelongsTo() == BelongsTo() + [segmentId]
      ensures r.1 == |r.0.BelongsTo()| == |BelongsTo()| + 1
    {
      var p := this.(ids := ids + [segmentId]);
      (p, |p.ids|)
    }

    /** The ids added so far. */
    function BelongsTo(): seq<int> {
      ids
    }
  }

  /** Adds each of `ids` in turn, discarding the returned lengths. */
  function AddAll(p: PointImpl, ids: seq<int>): PointImpl
    decreases |ids|
  {
    if |ids| == 0 then p else AddAll(p.AddTo(ids[0]).0, ids[1..])
  }

  /** `BelongsTo` reports every added id, in insertion order, after the ids
      the point already had; the location never changes. */
  lemma {:induction false} AddAllBelongsTo(p: PointImpl, ids: seq<int>)
    ensures AddAll(p, ids).BelongsTo() == p.BelongsTo() + ids
    ensures AddAll(p, ids).loc == p.loc
    decreases |ids|
  {
    if |ids| > 0 {
      AddAllBelongsTo(p.AddTo(ids[0]).0, ids[1..]);
      assert ids == [ids[0]] + ids[1..];
    }
  }

  /** A fresh point that is given segment 1 belongs to exactly `[1]`
      (main_test.go:9-14). */
  lemma FreshPointAddOne(loc: real)
    ensures PointImpl(loc, []).AddTo(1).0.ids == [1]
    ensures PointImpl(loc, []).AddTo(1).1 == 1
  {
  }
}
