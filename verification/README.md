# overlap — a Dafny model of the segment-overlap calculation

The Go package `overlap` reads a file of segments. Each line holds a tab-separated
`id`, `start` and `end`. The package reports every stretch between two boundary
points that more than one segment covers. The calculation runs in four stages:

1. **Load.** Split each line on tabs. Require exactly three fields. Convert the
   id with `strconv.Atoi` and both ends with `strconv.ParseFloat`. The first
   bad line stops the load.
2. **Boundary points.** Collect every start and end into a map, which removes
   duplicates. Sort the keys into `locList`.
3. **Membership.** For each location, collect the ids of the segments whose
   closed interval `[start, end]` contains it, in input order. Then sort the
   ids.
4. **Pair scan.** Compare every earlier point `i` with every later point `j`.
   Their shared list keeps the ids of `i`'s list that also occur in `j`'s, in
   `i`'s order. A pair with more than one shared id is stored in a nested map
   keyed by start and end. The map is flattened into `Result` records of
   length, start, end, count and list.

`Calculate` (overlap.go) is meant to return the records or the first load
error; as written it panics on every non-empty file that loads (see Findings),
and the model's `Calculate` is the intended behaviour. The
command-line `main` (main.go) runs the same stages, panics on any error, and
writes the records to a file.

The Dafny modules follow these stages:

- `Fields`: `strings.Split` on a tab, and its inverse `Join`.
- `Segments`: segments, the load errors, and the line and file loaders.
- `Points`: `pointImpl` with `addTo` and `belongsTo`.
- `Boundary`: `locMap` and `locList`.
- `Resolver`: the per-point membership.
- `Intersection`: the nested-loop intersection.
- `Scanner`: the pair scan and the assembly of results.
- `Overlap`: `Calculate` and the reference definition `Overlaps` with its
  properties.
- `MainProgram`: `main`.
- `Presized`: `Calculate` as overlap.go writes it, up to the nil dereference (see Findings).
- `Ordering`: sortedness, insertion sort and uniqueness of sorted
  permutations.
- `Wrappers`: `Option` and `Result`.

Go's `float64` locations are modelled as `real`. The program only compares
and subtracts them. The number parsers are parameters of type
`string -> Option<…>`. Because Go's map iteration order is unspecified, the
records are modelled as a `set`.

## Model

| member | source | states |
|---|---|---|
| Fields.Split | overlap.go:73 | `strings.Split` on a separator gives one more piece than there are separators, and no piece contains the separator |
| Fields.JoinSplit | overlap.go:73 | joining the pieces of a split with the separator gives back the original line |
| Fields.SplitJoin | overlap.go:73-77 | splitting a join of separator-free fields gives back exactly those fields |
| Segments.ParseLine | overlap.go:73-90 | a line fails on field count exactly when it does not hold two tabs, and the error reports the number of fields; a conversion error carries the row, a column in 1..3 and that field's raw text; a success is the conversion of three tab-separated fields |
| Segments.ParseJoinedLine | overlap.go:79-90 | for three tab-free fields, the id is tried first, then the start, then the end; the first field that fails is reported with its column and row, otherwise the segment is built from the three values |
| Segments.FirstFailure | overlap.go:65-92 | combining per-line outcomes succeeds exactly when every line succeeds, with the values in line order; otherwise it yields the error of the first failing line |
| Segments.ParseLines | overlap.go:65-92 | the load succeeds exactly when every line parses, with segment k taken from line k and rows counted from 1; otherwise it fails with the error of the first bad line |
| Points.PointImpl.AddTo | overlap.go:23-26 | `addTo` appends the id to the point's list, keeps the location, and returns the new length, which is one more than before |
| Points.AddAllBelongsTo | overlap.go:23-30 | after any sequence of `addTo` calls, `belongsTo` returns the earlier ids followed by the added ids in call order |
| Points.FreshPointAddOne | main_test.go:9-14 | a fresh point given segment 1 belongs to exactly `[1]`, and `addTo` reports length 1 |
| Ordering.InsertSorted | overlap.go:120 | inserting into an ascending list keeps it ascending and adds exactly that element to its multiset |
| Ordering.SortSpec | overlap.go:120 | `sort.Ints`: the result is ascending and a permutation of the input |
| Ordering.AscendingPermutationUnique | overlap.go:120 | two ascending lists with the same multiset are equal, so the sorted order is unique whatever algorithm `sort.Ints` uses |
| Ordering.InsertUnique | main.go:96-102 | inserting a value into a strictly ascending list keeps it strictly ascending; the result holds the old values plus the new one |
| Ordering.StrictlyAscendingUnique | main.go:96-102 | two strictly ascending lists with the same elements are equal |
| Boundary.LocMap | overlap.go:96-100 | the key set of `locMap` is exactly the set of segment starts and ends |
| Boundary.LocList | main.go:96-102 | `locList` is strictly ascending and holds exactly the keys of `locMap` |
| Boundary.LocListIsSortedKeys | main.go:96-102 | any strictly ascending list of the map's keys is `LocList`, so the unspecified map iteration order does not matter |
| Resolver.CoveringIds | main.go:106-111 | an id is collected for a location exactly when a segment with that id covers the location, and no more ids are collected than there are segments |
| Resolver.Collect | main.go:106-111 | the `addTo` loop leaves the location unchanged and appends the covering ids, in segment order, after the ids already present |
| Resolver.Membership | main.go:106-114 | a point's list is ascending, holds an id exactly when a segment with that id covers the point, and is a permutation of the collected ids, duplicates included |
| Resolver.ResolvePoints | main.go:105-116 | `points` has one point per location, in `locList` order, and each point's list is ascending and a permutation of the ids of the segments covering it |
| Resolver.DistinctIdsStrictMembership | main.go:106-114 | when segment ids are distinct, a membership list has no repeated id and is strictly ascending |
| Intersection.Shared | main.go:135-142 | the shared list holds exactly the ids found in both lists, and is no longer than the first |
| Intersection.SharedSnoc | main.go:135-142 | processing one more id of `segStart` appends it to the shared list exactly when `segEnd` holds it, and leaves the ids found so far unchanged |
| Intersection.SharedAscending | main.go:135-142 | the shared list of an ascending first list is ascending |
| Intersection.SharedStrictlyAscending | main.go:135-142 | the shared list of a strictly ascending first list is strictly ascending |
| Intersection.Intersect | main.go:135-142 | the nested loop with `break` computes `Shared`: each id of `segStart` is kept, in order, exactly when it occurs in `segEnd` |
| Scanner.MakeResult | overlap.go:160-166 | a record's length is its end minus its start, and its count is the length of its list |
| Scanner.ScanRow | main.go:129-150 | for point `i`, the inner `j` loop leaves a map whose keys are exactly the later points sharing more than one id with `i`, each mapped to the shared list, and nothing else |
| Scanner.ScanPairs | main.go:122-151 | for ascending points, every point but the last gets an inner map whose keys are exactly the later points sharing more than one id with it, each mapped to the shared list |
| Scanner.Assemble | overlap.go:155-169 | every stored (start, end) entry yields a record, and every record comes from a stored entry, carries its list, has length end minus start and count equal to its list length |
| Scanner.AssembleScanned | overlap.go:155-169 | flattening the scanned map gives exactly one record per pair of points i < j sharing more than one id; nothing is lost or overwritten |
| Overlap.PointsOfSpec | main.go:104-116 | `points` follows `locList` position by position, each point carrying its sorted membership, so locations strictly increase |
| Overlap.OverlapsOf | main.go:87-151 | the pipeline after loading yields exactly the reference set `Overlaps` of the loaded segments |
| Overlap.Calculate | overlap.go:51-172 | returns the first load error when a line is bad, and otherwise exactly the overlaps of the loaded segments |
| Overlap.EmptyFileNoOverlaps | overlap.go:65-172 | an empty file loads as zero segments, and `Calculate` then returns no overlaps |
| Overlap.OverlapsSound | overlap.go:128-166 | every record runs between two distinct segment endpoints, start below end, and carries the shared list of the memberships at its two ends, which has more than one id |
| Overlap.OverlapListSound | overlap.go:128-166 | a record's length is end minus start, its count is its list length and exceeds 1, its list is ascending, and every listed id belongs to a segment covering the start and to one covering the end |
| Overlap.OverlapsIfShared | main.go:122-145 | two endpoints s < e whose memberships share more than one id always get a record |
| Overlap.OverlapsComplete | main.go:122-145 | a record for (s, e) exists exactly when s and e are endpoints, s < e, and their memberships share more than one id |
| Overlap.OverlapsUnique | main.go:143-145 | a start and end pair identifies at most one record |
| Overlap.FewerThanTwoSegmentsNoOverlaps | main.go:143 | with fewer than two segments there is no overlap, so a segment never overlaps itself |
| Overlap.TwoSegmentsExample | overlap_test.go:50-62 | segments [50, 150] and [100, 200] give the single record of length 50 from 100 to 150, shared by both segments |
| MainProgram.RunMain | main.go:65-151 | `main` panics exactly when the load fails, with the first bad line's error; otherwise it produces exactly the overlaps `Calculate` returns |
| MainProgram.FirstBadLine | main.go:65-84 | when line k is the first that does not parse, the whole load fails with that line's error |
| MainProgram.AllLinesGood | main.go:65-84 | when every line parses, the load yields exactly the parsed segments in file order |
| Presized.PresizedLocList | overlap.go:103-106 | the as-written `locList` is twice as long as the set of distinct locations and starts with one zero per location |
| Presized.PresizedPoints | overlap.go:111-122 | the as-written `points` is twice as long as the as-written `locList`, starts with one nil entry per entry of that `locList` (twice the number of distinct locations), and then holds the resolved points |
| Presized.ScanAsWritten | overlap.go:128-131 | once there are two points the scan reads `points[0]`, so a nil first entry panics; with at most one point nothing is scanned |
| Presized.CalculateAsWritten | overlap.go:65-92 | the as-written `Calculate` still reports load errors like the corrected one |
| Presized.AsWrittenPanics | overlap.go:103-131 | the as-written `Calculate` panics on a nil pointer for every file that loads, unless the file is empty |

## Left out

- Reading the file is left out. `ioutil.ReadFile`, the `bufio.Scanner` line splitting and its error are not modelled; the model starts from the sequence of lines. The unreadable-file error of `Calculate` (overlap.go:53-56) is therefore not modelled.
- The internals of `strconv.Atoi` and `strconv.ParseFloat` are parameters. Floating-point behaviour is not modelled: rounding, NaN, infinities and `-0`. Locations are exact reals.
- The error message texts are left out. `CalcError` records which check failed, the field count, the column, the row and the raw field. It does not record the strconv error text.
- Segments.ParseLine: overlap.go's field-count error has no row number, so `FieldCount` carries only the number of fields.
- MainProgram.RunMain: main.go panics with the bare strconv error or a fixed message. `Panicked` carries the same `CalcError` as `Calculate`, which identifies the failing check more precisely than the Go panic value does.
- MainProgram.RunMain: the zap logger and the debug output are left out, and so is writing `results.txt`. That covers the `%.2f` year conversion and the `%0.f` formatting (main.go:153-169). The written records are modelled as the set of overlaps.
- Scanner.ScanPairs requires strictly increasing point locations. The program only ever passes the points built from the sorted, de-duplicated `locList`; `Overlap.PointsOfSpec` proves this holds.
- The order of the returned records is left out. It follows Go's map iteration, which is unspecified, so the records form a set.
- `PointImpl` values are immutable. `AddTo` returns the updated point together with the new length, instead of mutating through a pointer.
- cmd/overlap/main.go (the command-line wrapper that prints the records) is not part of this model.
- The tests' string ids are not modelled. overlap_test.go passes string ids to `addTo` and comma-separated lines to `Calculate`, which the code rejects. `TwoSegmentsExample` uses the test's two segments with integer ids 1 and 2; the test's expected list order (`bar,foo`) comes from its string ids and is not reproduced.
- There is no sweep-line algorithm and no configurable threshold; the threshold is the code's fixed `len(overlap) > 1`.
- Presized.PresizedLocList: the `sort.Float64s` call on the pre-sized list (overlap.go:108) is left out, because nothing before the nil dereference depends on the order of `locList`.
- Presized.ScanAsWritten: when every point is present it returns the reference set `PairOverlaps` instead of re-running the loops; the as-written `points` always has a nil first entry once it has two entries, so that branch is never reached from `CalculateAsWritten`.

## Findings

| source | as written | input that shows it | evidently intended | confidence | as-written member | corrected member |
|---|---|---|---|---|---|---|
| overlap.go:103-131 | `locList` and `points` are created with `make` at their final length and then appended to, so `points` starts with nil pointers and `points[0].loc` at line 131 dereferences nil | any file with one valid line, such as `1<TAB>50<TAB>150` | build both slices empty, as main.go:97 and main.go:105 do, and return the overlaps | not executed | Presized.AsWrittenPanics | Overlap.Calculate |
