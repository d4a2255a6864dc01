/** The command-line program `main` (main.go:51-151): the same calculation as
    `Calculate`, except that every error panics, through `check` or directly, and the
    overlaps are written to a file instead of being returned. */
module MainProgram {
  import opened Wrappers
  import opened Segments
  import opened Scanner
  import opened Overlap

  /** How a run ends: a panic carrying the error that `check` or the field
      count test raised, or normal completion with the overlaps written. */
  datatype MainOutcome = Panicked(err: CalcError) | Finished(overlaps: set<OverlapResult>)

  /** One run of `main` on the lines of the input file. The load loop stops
      at the first bad line, exactly as `Calculate` returns its error. */
  method RunMain(lines: seq<string>, atoi: IntParser, parseFloat: NumParser) returns (o: MainOutcome)
    ensures o.Panicked? <==> ParseLines(lines, atoi, parseFloat).Failure?
    ensures o.Panicked? ==> o.err == ParseLines(lines, atoi, parseFloat).error
    ensures o.Finished? ==> o.overlaps == Overlaps(ParseLines(lines, atoi, parseFloat).value)
  {
    var segments: seq<Segment> := [];
    for k := 0 to |lines|
      invariant |segments| == k
      invariant forall m :: 0 <= m < k ==> ParseLine(lines[m], m + 1, atoi, parseFloat) == Success(segments[m])
    {
      var parsed := ParseLine(lines[k], k + 1, atoi, parseFloat);
      if parsed.Failure? {
        FirstBadLine(lines, atoi, parseFloat, k);
        return Panicked(parsed.error);
      }
      segments := segments + [parsed.value];
    }
    AllLinesGood(lines, atoi, parseFloat, segments);
    var overlaps := OverlapsOf(segments);
    return Finished(overlaps);
  }

  /** When line `k` is the first bad one, the load fails with its error. */
  lemma FirstBadLine(lines: seq<string>, atoi: IntParser, parseFloat: NumParser, k: nat)
    requires k < |lines|
    requires ParseLine(lines[k], k + 1, atoi, parseFloat).Failure?
    requires forall m :: 0 <= m < k ==> ParseLine(lines[m], m + 1, atoi, parseFloat).Success?
    ensures ParseLines(lines, atoi, parseFloat) == Failure(ParseLine(lines[k], k + 1, atoi, parseFloat).error)
  {
    FirstFailureAt(LineResults(lines, atoi, parseFloat), k);
  }

  /** When every line parses, the load yields exactly the parsed segments,
      in file order. */
  lemma AllLinesGood(lines: seq<string>, atoi: IntParser, parseFloat: NumParser, segments: seq<Segment>)
    requires |segments| == |lines|
    requires forall m :: 0 <= m < |lines| ==> ParseLine(lines[m], m + 1, atoi, parseFloat) == Success(segments[m])
    ensures ParseLines(lines, atoi, parseFloat) == Success(segments)
  {
    var r := ParseLines(lines, atoi, parseFloat);
    assert r.Success?;
    assert r.value == segments;
  }
}
