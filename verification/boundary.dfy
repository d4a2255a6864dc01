/** The boundary index: the distinct segment endpoints in ascending order
    (overlap.go:94-108, main.go:87-102). */
module Boundary {
  import opened Segments
  import opened Ordering

  /** `x` is the start or the end of some segment. */
  predicate IsEndpoint(x: real, segs: seq<Segment>) {
    exists s :: s in segs && (x == s.start || x == s.end)
  }

  /** The key set of `locMap`: every start and every end, duplicates
      collapsed by value. */
  function LocMap(segs: seq<Segment>): (r: set<real>)
    ensures forall x :: x in r <==> IsEndpoint(x, segs)
  {
    if |segs| == 0 then {}
    else
      var last := segs[|segs| - 1];
      var r := LocMap(segs[..|segs| - 1]) + {last.start, last.end};
      assert forall s :: s in segs <==> s in segs[..|segs| - 1] || s == last;
      r
  }

  /** `locList`: the keys of `locMap` in sorted order. Each endpoint is put in
      place as it is met, which yields the same list as collecting the keys
      and sorting them (see `LocListIsSortedKeys`). */
  function LocList(segs: seq<Segment>): (r: seq<real>)
    ensures StrictlyAscending(r)
    ensures forall x :: x in r <==> IsEndpoint(x, segs)
  {
    if |segs| == 0 then []
    else
      var last := segs[|segs| - 1];
      var prefix := segs[..|segs| - 1];
      assert forall s :: s in segs <==> s in prefix || s == last;
      InsertUnique(InsertUnique(LocList(prefix), last.start), last.end)
  }

  /** The list is the only strictly ascending arrangement of the endpoints:
      whatever order the map yields its keys in, sorting gives this list. */
  lemma LocListIsSortedKeys(segs: seq<Segment>, keys: seq<real>)
    requires forall x :: x in keys <==> x in LocMap(segs)
    requires StrictlyAscending(keys)
    ensures keys == LocList(segs)
  {
    StrictlyAscendingUnique(keys, LocList(segs));
  }
}
