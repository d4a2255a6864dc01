/** `Calculate` as overlap.go writes it. `locList` (overlap.go:103) and
    `points` (overlap.go:111) are created with `make` at their final length
    and then appended to. With n distinct locations, `locList` ends up twice
    and `points` four times as long as intended: `locList` starts with n `0`
    entries, and `points` starts with 2n nil pointers, one per entry of the
    doubled `locList`. The
    scan reads `points[0].loc` (overlap.go:131) as soon as there are two
    points, which dereferences nil. `Overlap.Calculate` is the corrected
    definition, building both slices empty as main.go:97 and main.go:105
    do. */
module Presized {
  import opened Wrappers
  import opened Segments
  import opened Boundary
  import opened Points
  import opened Resolver
  import opened Scanner

  /** How the as-written `Calculate` ends: it returns, or a nil pointer
      dereference panics. */
  datatype AsWrittenOutcome = Returned(result: Result<set<OverlapResult>, CalcError>) | NilDereference

  /** `locList` after overlap.go:103-106: as many zero values as there are
      distinct locations, then the locations. The sort on line 108 only
      reorders the list, and nothing before the crash depends on its
      order, so it is left out here. */
  function PresizedLocList(segs: seq<Segment>): (r: seq<real>)
    ensures |r| == 2 * |LocList(segs)|
    ensures forall k :: 0 <= k < |LocList(segs)| ==> r[k] == 0.0
  {
    seq(|LocList(segs)|, _ => 0.0) + LocList(segs)
  }

  /** `points` after overlap.go:111-122: one nil pointer per entry of
      `locList`, then a resolved point per entry. */
  function PresizedPoints(locList: seq<real>, segs: seq<Segment>): (r: seq<Option<PointImpl>>)
    ensures |r| == 2 * |locList|
    ensures forall k :: 0 <= k < |locList| ==> r[k] == None
    ensures forall k :: 0 <= k < |locList| ==> r[|locList| + k] == Some(ResolvePoints(locList, segs)[k])
  {
    var resolved := ResolvePoints(locList, segs);
    seq(|locList|, _ => None) + seq(|resolved|, k requires 0 <= k < |resolved| => Some(resolved[k]))
  }

  predicate AllPresent(points: seq<Option<PointImpl>>) {
    forall k :: 0 <= k < |points| ==> points[k].Some?
  }

  /** The scan of overlap.go:126-152 over possibly nil points: it touches
      every point once there are two of them, so any nil one panics. */
  function ScanAsWritten(points: seq<Option<PointImpl>>): (o: AsWrittenOutcome)
    ensures |points| > 1 && points[0] == None ==> o == NilDereference
    ensures |points| <= 1 ==> o == Returned(Success({}))
  {
    if |points| <= 1 then Returned(Success({}))
    else if !AllPresent(points) then NilDereference
    else Returned(Success(PairOverlaps(seq(|points|, k requires 0 <= k < |points| => points[k].value))))
  }

  /** overlap.go:51-172 as written. */
  function CalculateAsWritten(lines: seq<string>, atoi: IntParser, parseFloat: NumParser): (o: AsWrittenOutcome)
    ensures ParseLines(lines, atoi, parseFloat).Failure? ==> o == Returned(Failure(ParseLines(lines, atoi, parseFloat).error))
  {
    match ParseLines(lines, atoi, parseFloat)
    case Failure(e) => Returned(Failure(e))
    case Success(segs) =>
      var locList := PresizedLocList(segs);
      ScanAsWritten(PresizedPoints(locList, segs))
  }

  /** Every input whose lines all load panics, unless the file is empty:
      one segment gives at least one location, hence at least two points,
      the first of them nil. */
  lemma {:induction false} AsWrittenPanics(lines: seq<string>, atoi: IntParser, parseFloat: NumParser)
    requires ParseLines(lines, atoi, parseFloat).Success?
    ensures CalculateAsWritten(lines, atoi, parseFloat) == NilDereference <==> |lines| > 0
  {
    var segs := ParseLines(lines, atoi, parseFloat).value;
    var locList := PresizedLocList(segs);
    var points := PresizedPoints(locList, segs);
    if |lines| > 0 {
      assert IsEndpoint(segs[0].start, segs) by {
        assert segs[0] in segs;
      }
      assert segs[0].start in LocList(segs);
      assert |points| > 1 && points[0] == None;
    } else {
      assert segs == [];
      assert LocList(segs) == [];
    }
  }
}
