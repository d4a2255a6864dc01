/** The segment store: turning the input lines into validated segments
    (overlap.go:32-35, 65-92; main.go:18-21, 65-84). */
module Segments {
  import opened Wrappers
  import opened Fields

  /** A segment `[start, end]` labelled with an integer id. Locations are
      float64 in the program; they are only compared and subtracted, so they
      are modelled as reals. No order between `start` and `end` is enforced. */
  datatype Segment = Segment(id: int, start: real, end: real)

  /** The closed-interval test of the membership stage (overlap.go:115,
      main.go:109). */
  predicate Covers(s: Segment, loc: real) {
    loc >= s.start && loc <= s.end
  }

  /** Why `Calculate` gave up. `FieldCount` reports how many tab-separated
      fields the line had; `BadField` names the raw text, the column (1 for
      the id, 2 for the start, 3 for the end) and the 1-based row. */
  datatype CalcError =
    | FieldCount(got: nat)
    | BadField(raw: string, column: nat, row: nat)

  /** The number parsers `strconv.Atoi` and `strconv.ParseFloat` are library
      code; they are parameters here, `None` standing for a non-nil error. */
  type IntParser = string -> Option<int>
  type NumParser = string -> Option<real>

  /** Validates and converts line number `row` (1-based). */
  function ParseLine(line: string, row: nat, atoi: IntParser, parseFloat: NumParser): (r: Result<Segment, CalcError>)
    ensures r.Failure? && r.error.FieldCount? <==> Occurrences(line, Tab) != 2
    ensures r.Failure? && r.error.FieldCount? ==> r.error.got == Occurrences(line, Tab) + 1
    ensures r.Failure? && r.error.BadField? ==> r.error.row == row && 1 <= r.error.column <= 3
    ensures r.Failure? && r.error.BadField? ==>
      var vals := Split(line, Tab);
      |vals| == 3 && r.error.raw == vals[r.error.column - 1]
    ensures r.Success? ==> exists a, b, c ::
      line == Join([a, b, c], Tab) && atoi(a) == Some(r.value.id) &&
      parseFloat(b) == Some(r.value.start) && parseFloat(c) == Some(r.value.end)
  {
    var vals := Split(line, Tab);
    if |vals| != 3 then Failure(FieldCount(|vals|))
    else match atoi(vals[0])
      case None => Failure(BadField(vals[0], 1, row))
      case Some(id) =>
        match parseFloat(vals[1])
        case None => Failure(BadField(vals[1], 2, row))
        case Some(start) =>
          match parseFloat(vals[2])
          case None => Failure(BadField(vals[2], 3, row))
          case Some(end) =>
            JoinSplit(line, Tab);
            assert vals == [vals[0], vals[1], vals[2]];
            assert line == Join([vals[0], vals[1], vals[2]], Tab);
            Success(Segment(id, start, end))
  }

  /** A well-formed line (three tab-free fields) is converted field by field;
      the first field that does not parse is the one reported. */
  lemma ParseJoinedLine(a: string, b: string, c: string, row: nat, atoi: IntParser, parseFloat: NumParser)
    requires Tab !in a && Tab !in b && Tab !in c
    ensures ParseLine(Join([a, b, c], Tab), row, atoi, parseFloat) ==
      if atoi(a).None? then Failure(BadField(a, 1, row))
      else if parseFloat(b).None? then Failure(BadField(b, 2, row))
      else if parseFloat(c).None? then Failure(BadField(c, 3, row))
      else Success(Segment(atoi(a).value, parseFloat(b).value, parseFloat(c).value))
  {
    SplitJoin([a, b, c], Tab);
  }

  /** Combines per-line outcomes the way the load loop does: all values in
      order when every line succeeded, otherwise the first line's error. */
  function FirstFailure<T, E>(rs: seq<Result<T, E>>): (r: Result<seq<T>, E>)
    ensures r.Success? <==> forall k :: 0 <= k < |rs| ==> rs[k].Success?
    ensures r.Success? ==>
      && |r.value| == |rs|
      && forall k :: 0 <= k < |rs| ==> rs[k] == Success(r.value[k])
    ensures r.Failure? ==>
      exists k :: && 0 <= k < |rs|
                  && rs[k] == Failure(r.error)
                  && forall m :: 0 <= m < k ==> rs[m].Success?
  {
    if |rs| == 0 then Success([])
    else
      var tail := rs[1..];
      assert forall k :: 1 <= k < |rs| ==> rs[k] == tail[k - 1];
      match rs[0]
      case Failure(e) => Failure(e)
      case Success(first) =>
        match FirstFailure(tail)
        case Failure(e) =>
          ghost var k :| && 0 <= k < |tail|
                         && tail[k] == Failure(e)
                         && forall m :: 0 <= m < k ==> tail[m].Success?;
          assert rs[k + 1] == Failure(e);
          Failure(e)
        case Success(rest) => Success([first] + rest)
  }

  /** The first failing outcome decides the combined one. */
  lemma FirstFailureAt<T, E>(rs: seq<Result<T, E>>, k: nat)
    requires k < |rs| && rs[k].Failure?
    requires forall m :: 0 <= m < k ==> rs[m].Success?
    ensures FirstFailure(rs) == Failure(rs[k].error)
  {
    var r := FirstFailure(rs);
    var q :| && 0 <= q < |rs|
             && rs[q] == Failure(r.error)
             && forall m :: 0 <= m < q ==> rs[m].Success?;
    assert q == k;
  }

  /** The load loop of `Calculate` and of `main`: every line must be valid,
      rows count from 1, and the first invalid line aborts the whole load
      with that line's error. */
  function ParseLines(lines: seq<string>, atoi: IntParser, parseFloat: NumParser): (r: Result<seq<Segment>, CalcError>)
    ensures r.Success? <==> forall k :: 0 <= k < |lines| ==> ParseLine(lines[k], k + 1, atoi, parseFloat).Success?
    ensures r.Success? ==>
      && |r.value| == |lines|
      && forall k :: 0 <= k < |lines| ==> ParseLine(lines[k], k + 1, atoi, parseFloat) == Success(r.value[k])
    ensures r.Failure? ==>
      exists k :: && 0 <= k < |lines|
                  && ParseLine(lines[k], k + 1, atoi, parseFloat) == Failure(r.error)
                  && forall m :: 0 <= m < k ==> ParseLine(lines[m], m + 1, atoi, parseFloat).Success?
  {
    FirstFailure(LineResults(lines, atoi, parseFloat))
  }

  /** The outcome of each line on its own, line k being row k + 1. */
  function LineResults(lines: seq<string>, atoi: IntParser, parseFloat: NumParser): (rs: seq<Result<Segment, CalcError>>)
    ensures |rs| == |lines|
    ensures forall k :: 0 <= k < |lines| ==> rs[k] == ParseLine(lines[k], k + 1, atoi, parseFloat)
  {
    seq(|lines|, k requires 0 <= k < |lines| => ParseLine(lines[k], k + 1, atoi, parseFloat))
  }
}
