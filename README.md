# UAV deconfliction core, modelled in Dafny

This project models the core of a UAV strategic deconfliction system. A
*primary mission* is a list of waypoints with a time window. It is checked
against simulated flights in two ways:

- **The spatial detector** compares every waypoint of every pair of flights.
  It reports each pair closer than a safety buffer (2.0). A report carries
  the location, a conflict time when both waypoints have a `time` tick, and
  the two flight ids.
- **The temporal detector** makes the same waypoint comparison with a buffer
  of 1.0, but only for pairs of flights whose time windows overlap. Its
  reports carry the overlap interval.

The simulation joins both lists and deduplicates them. Two reports are the
same when they have the same location and the same unordered pair of
flights. When both exist, the report with timing information wins.

The conflict resolver turns suggested resolutions into a resolved mission.
Each suggestion is a text answer with `ALTITUDE:`, `DELAY:`, `PATH:` and
`REASON:` lines. The resolver works as follows:

1. It sorts the solutions by conflict time.
2. For each solution, it collects the unmodified waypoints within 5.0 of the
   conflict.
3. It applies three edits to each of those waypoints:
   - the altitude keeps at least 20 of vertical separation;
   - the path point keeps at least 10 of horizontal separation, rescaled
     onto the circle when it is closer;
   - the delay is at least 5 minutes, and the first one also shifts the
     mission's time window.
4. When no waypoint was affected, it raises the nearest waypoint by 25.
5. Finally it smooths the altitude of the waypoint that follows each
   modified one.

The modules follow the program:

| module | file | models |
|---|---|---|
| `Model` | model.dfy | waypoints, flights, missions, conflicts, suggestions, solutions; the all-flights list |
| `Helpers` | helpers.dfy | `src/utils/helpers.py` |
| `SpatialCheck` | spatial.dfy | `check_spatial_conflict`, `calculate_distance` |
| `TemporalCheck` | temporal.dfy | `check_temporal_conflict` |
| `Simulator` | simulator.dfy | `deduplicate_conflicts`, `run_simulation` |
| `Text` | text.dfy | the Python string operations the resolver uses: `strip`, `replace`, `split`, `float` |
| `SuggestionText` | suggestion.dfy | the answer's line parser and `parse_coordinates` |
| `SolutionOrder` | solution_order.dfy | the sort of the solutions by conflict time |
| `ResolverEdits` | resolver_edits.dfy | the per-waypoint edits, the distance sort, the nearest waypoint, the smoothing |
| `Resolver` | resolver.dfy | `create_resolved_mission`: the specification functions and the in-place methods over an `array` of waypoints |
| `PairScan` | pairscan.dfy | the four nested loops both detectors run over flight pairs and waypoint pairs |
| `Squares`, `Wrappers` | squares.dfy, wrappers.dfy | squares of reals, `Option`/`Result` |

The detectors and the resolver work step by step in the source. They are
`method`s with loops, proved equal to specification functions. The
properties are proved about those functions. The resolver mutates a copied
list of waypoints, modelled as an `array<Waypoint>` that the methods modify
in place. Its modified-index set and its time window are threaded through
as values.

The model makes these choices:

- **Distances** are compared squared: `d < limit` becomes
  `0 < limit && d2 < limit * limit`. `Model.WithinSquaredIsDistanceBelow`
  shows that this is the same test.
- **Rescaling the path point** needs a square root, which the resolver
  takes as a parameter `sqrt` that satisfies `IsSqrt`.
- **Times** are real minutes. A waypoint's optional `time` tick is
  `tick: Option<real>`. Its `timestamp` is the minutes value of its ISO
  timestamp. A conflict time is an optional `(start, end)` pair.

The resolver's failures become `Err` values of `ResolveError`:

| `ResolveError` | Python failure it stands for |
|---|---|
| `MissingAltitude` | a `KeyError` on `wp['z']` |
| `DegeneratePath` | a `ZeroDivisionError` when the path point is the conflict |
| `EmptyMission` | a `ValueError` from `min` over no waypoints |
| `UnorderableTimes` | a `TypeError` when sorting `None` times |

## Model

| member | source | states |
|---|---|---|
| Model.AllFlights | src/deconfliction/spatial_check.py:19-20 | the flight list has the primary first, tagged "primary", followed by the simulated flights unchanged |
| Model.WithinSquaredIsDistanceBelow | src/deconfliction/spatial_check.py:36-39 | comparing squared distances against the squared limit is exactly the `distance < limit` test for the true, non-negative distance |
| PairScan.ScanEnumeratesHits | src/deconfliction/spatial_check.py:23-63 | the four nested loops over flights `i < j` and their waypoints emit one value per position where the test holds, in visiting order, each position once, and nothing else |
| Helpers.PlanarSquaredDistance | src/utils/helpers.py:1-3 | the planar distance is non-negative and zero for points that share x and y |
| Helpers.PlanarDistanceSymmetricAndPlanar | src/utils/helpers.py:1-3 | the distance is symmetric and reads only the first two coordinates |
| Helpers.PlanarDistancePositiveWhenApart | src/utils/helpers.py:1-3 | points that differ in x or y are at positive distance |
| Helpers.IsWithinTimeWindow | src/utils/helpers.py:5-7 | for ordered intervals, the test holds exactly when the two closed intervals share an instant; for any bounds, it fails exactly when one interval ends before the other starts |
| Helpers.IsWithinTimeWindowSymmetric | src/utils/helpers.py:5-7 | the overlap test gives the same answer with the two intervals swapped |
| Helpers.TouchingWindowsOverlap | src/utils/helpers.py:5-7 | intervals that only share an endpoint count as overlapping (the test is inclusive) |
| Helpers.FormatConflictDetails | src/utils/helpers.py:9-11 | the message holds the location, the time and the flight id, each verbatim at its place between the fixed phrases, and ends with a full stop |
| SpatialCheck.SquaredDistance | src/deconfliction/spatial_check.py:68-84 | the distance is defined exactly when both points are 2-D or both are 3-D (otherwise the `ValueError`), and it is then non-negative |
| SpatialCheck.SquaredDistanceSymmetric | src/deconfliction/spatial_check.py:68-84 | swapping the points gives the same distance, or the same error |
| SpatialCheck.SquaredDistanceToItself | src/deconfliction/spatial_check.py:79-82 | a point is at distance zero from itself |
| SpatialCheck.DetectorUsesCalculateDistance | src/deconfliction/spatial_check.py:34-36 | the detector's test on two waypoints (missing z read as 0) is `calculate_distance` on their 3-D points and never fails |
| SpatialCheck.ConflictTime | src/deconfliction/spatial_check.py:40-55 | a time exists exactly when both waypoints carry a tick; it is then the two absolute times, earlier first |
| SpatialCheck.SpatialConflicts | src/deconfliction/spatial_check.py:23-63 | the detector's output has exactly one record for each close waypoint pair of two flights `i < j` |
| SpatialCheck.WaypointPairConflicts | src/deconfliction/spatial_check.py:31-63 | the two waypoint loops emit the conflicts of one flight pair in loop order |
| SpatialCheck.FlightPairs | src/deconfliction/spatial_check.py:24-63 | the `j` loop emits, for flight `i`, the conflicts against every later flight in order |
| SpatialCheck.CheckSpatialConflict | src/deconfliction/spatial_check.py:3-66 | the detector returns the conflicts of every pair `i < j` of the all-flights list, in loop order |
| SpatialCheck.SpatialReportsEnumerateClosePairs | src/deconfliction/spatial_check.py:23-63 | the close pairs `(i, j, a, b)` with `i < j` are listed each once, in loop order, and the `k`-th record is the record of the `k`-th close pair, so the output length is the number of close pairs |
| SpatialCheck.SpatialConflictsExactly | src/deconfliction/spatial_check.py:3-66 | a record is reported if and only if some close waypoint pair of flights `i < j` produces it, with flight `i`'s waypoint as location, the tick-based time and the ids in list order |
| SpatialCheck.PrimaryListedFirst | src/deconfliction/spatial_check.py:19-24 | when no simulated flight is called "primary", the primary flight is never the second flight of a report |
| TemporalCheck.OverlapInterval | src/deconfliction/temporal_check.py:41 | the reported time lies inside both windows, its endpoints come from the windows, and it is non-empty (strictly, for proper windows) when the windows overlap |
| TemporalCheck.Overlaps | src/deconfliction/temporal_check.py:29 | for proper windows, the gate holds exactly when the two open windows share an instant |
| TemporalCheck.TemporalConflicts | src/deconfliction/temporal_check.py:17-43 | the detector's output has exactly one record for each close waypoint pair of two overlapping flights `i < j` |
| TemporalCheck.WaypointPairConflicts | src/deconfliction/temporal_check.py:31-43 | the two waypoint loops emit the conflicts of one overlapping flight pair in loop order |
| TemporalCheck.FlightPairs | src/deconfliction/temporal_check.py:18-43 | the `j` loop emits, for flight `i`, the conflicts against every later flight whose window overlaps |
| TemporalCheck.CheckTemporalConflict | src/deconfliction/temporal_check.py:4-45 | the detector returns the conflicts of every overlapping pair `i < j`, in loop order |
| TemporalCheck.TemporalReportsEnumerateClosePairs | src/deconfliction/temporal_check.py:17-43 | the close pairs of overlapping flights are listed each once, in loop order, and the `k`-th record is the record of the `k`-th such pair, so the output length is their number |
| TemporalCheck.TemporalConflictsExactly | src/deconfliction/temporal_check.py:4-45 | a record is reported if and only if the windows of flights `i < j` overlap and some waypoint pair of theirs is close, with flight `i`'s waypoint as location, the overlap as time and the ids in list order |
| TemporalCheck.EveryConflictHasOverlapTime | src/deconfliction/temporal_check.py:29-43 | for proper windows, every report carries the overlap of its two flights' windows as its time, a non-empty interval |
| TemporalCheck.NoConflictWithoutOverlap | src/deconfliction/temporal_check.py:29 | no report involves two flights whose windows do not overlap |
| TemporalCheck.OverlapsSymmetric | src/deconfliction/temporal_check.py:29 | the overlap gate does not depend on the order of the two flights |
| TemporalCheck.TouchingWindowsDoNotOverlap | src/deconfliction/temporal_check.py:29 | windows that only touch do not pass the strict gate, although the inclusive helper calls them overlapping |
| TemporalCheck.InclusiveTestIsGateOrTouching | src/deconfliction/temporal_check.py:29 | the helper's inclusive test holds exactly when the strict gate holds or the windows touch |
| TemporalCheck.PrimaryListedFirst | src/deconfliction/temporal_check.py:8-18 | when no simulated flight is called "primary", the primary flight is never the second flight of a report |
| Simulator.LexLessTotal | src/simulation/simulator.py:14 | string order is total and asymmetric on distinct ids |
| Simulator.SortedPair | src/simulation/simulator.py:14 | the sorted pair holds the same two ids, smaller first |
| Simulator.SortedPairSymmetric | src/simulation/simulator.py:14 | the key does not depend on the order the two ids were given in |
| Simulator.SwappedFlightsCollide | src/simulation/simulator.py:14 | two reports that differ only in the order of their flights have the same key |
| Simulator.KeyOf | src/simulation/simulator.py:14 | the key holds the conflict's location and its two flight ids, smaller first |
| Simulator.IndexOfKey | src/simulation/simulator.py:17 | the dictionary lookup finds the first stored conflict with the key, or says that no stored conflict has it |
| Simulator.Step | src/simulation/simulator.py:16-18 | after one step the conflict's key is stored, the list grows by one only for a new key, and it holds only earlier entries and this conflict |
| Simulator.Dedupe | src/simulation/simulator.py:4-20 | the merge is never longer than its input and holds only input conflicts |
| Simulator.Insert | src/simulation/simulator.py:16-18 | one loop step adds a new key at the end, replaces an untimed entry by a timed one, and otherwise keeps the dictionary; the key-to-position map stays correct |
| Simulator.DeduplicateConflicts | src/simulation/simulator.py:4-20 | the loop over the dictionary returns the fold of the insertion step over the input |
| Simulator.RunSimulation | src/simulation/simulator.py:22-47 | the simulation is the deduplication of the spatial reports followed by the temporal ones |
| Simulator.DedupeKeysInFirstSeenOrder | src/simulation/simulator.py:10-20 | the result has one conflict per key, with the keys in the order they were first seen in the input |
| Simulator.DedupeKeysDistinct | src/simulation/simulator.py:14-18 | no two results share a key |
| Simulator.DedupeKeepsEveryKey | src/simulation/simulator.py:14-18 | a key appears in the result if and only if it appears in the input |
| Simulator.DedupeKeepsPreferred | src/simulation/simulator.py:7-8 | for each key, the result keeps the first timed conflict with that key, or the first conflict when none is timed |
| Simulator.TimedConflictWins | src/simulation/simulator.py:7-8 | when some report of a key carries a time, the kept report carries one too |
| Simulator.DedupeOfDistinct | src/simulation/simulator.py:4-20 | input whose keys are already distinct comes back unchanged |
| Simulator.DedupeIdempotent | src/simulation/simulator.py:4-20 | deduplicating twice is the same as deduplicating once |
| Simulator.SimulationDrawsFromDetectors | src/simulation/simulator.py:36-47 | every simulated conflict was reported by the spatial or the temporal detector |
| Simulator.SimulationCoversDetectors | src/simulation/simulator.py:34-47 | the key of every spatial or temporal report is in the simulation result, and a timed report leaves a timed conflict under its key |
| Text.TrimLeft | src/deconfliction/conflict_resolver.py:95 | the left strip removes exactly the maximal prefix of dropped characters |
| Text.TrimRight | src/deconfliction/conflict_resolver.py:95 | the right strip removes exactly the maximal suffix of dropped characters |
| Text.RemoveAll | src/deconfliction/conflict_resolver.py:145 | `replace(pat, '')` never lengthens the text, and removing one character leaves none of it |
| Text.RemoveCharConcat | src/deconfliction/conflict_resolver.py:145 | removing a character distributes over concatenation |
| Text.Split | src/deconfliction/conflict_resolver.py:93 | `split` gives at least one part and no part holds the separator |
| Text.JoinSplit | src/deconfliction/conflict_resolver.py:93 | joining the parts with the separator gives back the text, so splitting loses nothing |
| Text.SplitWithoutSeparator | src/deconfliction/conflict_resolver.py:146 | text without the separator splits into itself alone |
| Text.SplitAtFirstSeparator | src/deconfliction/conflict_resolver.py:146 | the first part ends at the first separator and the rest splits on its own |
| Text.IntegerValueOfNatText | src/deconfliction/conflict_resolver.py:148 | reading the decimal text of a natural number gives that number back |
| Text.ParseNumberNatText | src/deconfliction/conflict_resolver.py:148 | `float` reads the decimal text of a natural number, and its negation, back as that value |
| Text.ParseNumber | src/deconfliction/conflict_resolver.py:148 | a number is read only from text that is not blank; once surrounding whitespace is stripped, text starting with a minus reads as at most zero and text starting with a digit as at least zero |
| Text.ParseDecimalText | src/deconfliction/conflict_resolver.py:148 | the text of a signed decimal, with or without a fractional part, reads back as its value |
| SuggestionText.LineField | src/deconfliction/conflict_resolver.py:94-101 | a line is assigned the first label it starts with, and no field when it starts with none |
| SuggestionText.Put | src/deconfliction/conflict_resolver.py:95-101 | storing a field sets that field and leaves the other three unchanged |
| SuggestionText.LineEntry | src/deconfliction/conflict_resolver.py:94-101 | a line gives an entry exactly when it starts with a label, and the entry is that field with the line's text, label removed and stripped |
| SuggestionText.FieldSetIffLabelled | src/deconfliction/conflict_resolver.py:92-101 | a field of the parsed suggestion is present if and only if some line is labelled with it |
| SuggestionText.LastLabelledLineWins | src/deconfliction/conflict_resolver.py:92-101 | a present field holds the text of the last line labelled with it |
| SuggestionText.ParseSuggestion | src/deconfliction/conflict_resolver.py:92-101 | a field of the suggestion read from an answer is present exactly when some line of the answer carries its label |
| SuggestionText.ParseCoordinates | src/deconfliction/conflict_resolver.py:141-152 | after stripping brackets, removing spaces and splitting on commas, a pair is returned exactly when there are at least two parts and both first parts read as numbers, and it is then those two numbers |
| SuggestionText.NoCommaNoPair | src/deconfliction/conflict_resolver.py:146-152 | text without a comma gives no coordinates |
| SuggestionText.ParenthesisedPairRoundTrip | src/deconfliction/conflict_resolver.py:141-152 | the text `(a, b)` of two naturals is read back as the pair `(a, b)` |
| SuggestionText.SignedDecimalPairRoundTrip | src/deconfliction/conflict_resolver.py:141-152 | the text `(x, y)` of two signed decimals is read back as the pair of their values |
| SolutionOrder.InsertByTime | src/deconfliction/conflict_resolver.py:169 | one insertion step adds exactly that solution and keeps the others |
| SolutionOrder.SortSolutions | src/deconfliction/conflict_resolver.py:169 | the sort is a permutation of the solutions |
| SolutionOrder.SortSolutionsSorted | src/deconfliction/conflict_resolver.py:169 | after the sort no solution is strictly earlier than one before it |
| SolutionOrder.SortAsWritten | src/deconfliction/conflict_resolver.py:169 | when the sort as written succeeds it is a permutation of the solutions |
| SolutionOrder.SortAsWrittenAgrees | src/deconfliction/conflict_resolver.py:169 | with fewer than two solutions, or all of them timed, the sort as written succeeds and equals the corrected sort |
| SolutionOrder.UntimedSolutionBreaksSort | src/deconfliction/conflict_resolver.py:169 | a timed solution next to an untimed one makes the sort as written fail, while the corrected sort puts the untimed one first |
| ResolverEdits.SeparatedAltitude | src/deconfliction/conflict_resolver.py:204-211 | the new altitude is at least 20 from the conflict: the proposal when it already is, otherwise exactly 20 above or below on the proposal's side |
| ResolverEdits.DelayMinutes | src/deconfliction/conflict_resolver.py:242-244 | the applied delay is at least 5 minutes, and is the proposal when that is already 5 or more |
| ResolverEdits.ParsedField | src/deconfliction/conflict_resolver.py:202-204 | a value is read only from a field that is present and not empty |
| ResolverEdits.PathPoint | src/deconfliction/conflict_resolver.py:222-234 | the new position lies on the line through the conflict and the proposed point |
| ResolverEdits.RescaleOntoCircle | src/deconfliction/conflict_resolver.py:230-232 | scaling an offset of length `dist` by `10 / dist` puts it exactly at distance 10 |
| ResolverEdits.PathPointSeparates | src/deconfliction/conflict_resolver.py:217-237 | the path edit fails exactly when the point is the conflict itself; a far point is kept; a near point is moved along the same ray, away from the conflict, to distance exactly 10 |
| ResolverEdits.EditEffects | src/deconfliction/conflict_resolver.py:201-259 | each value that was read enforces its minimum separation, each missing one leaves its part of the waypoint alone, the tick never changes, and the only failure is a path point on the conflict |
| ResolverEdits.EditWaypoint | src/deconfliction/conflict_resolver.py:201-259 | editing one waypoint fails only when a path was read, keeps its tick, and never moves its timestamp earlier |
| ResolverEdits.Nearest | src/deconfliction/conflict_resolver.py:266-269 | the fallback picks a waypoint at minimum distance, the first one when there are ties |
| ResolverEdits.SortByDistance | src/deconfliction/conflict_resolver.py:193 | the distance sort is a permutation of the affected waypoints |
| ResolverEdits.SortByDistanceOrders | src/deconfliction/conflict_resolver.py:193 | after the sort the affected waypoints come nearest first |
| ResolverEdits.SortKeepsDistinct | src/deconfliction/conflict_resolver.py:193 | the sort does not duplicate a waypoint index |
| ResolverEdits.Smoothed | src/deconfliction/conflict_resolver.py:277-286 | smoothing keeps the number of waypoints |
| ResolverEdits.SmoothingEffects | src/deconfliction/conflict_resolver.py:277-286 | smoothing changes only the altitude of an unmodified waypoint right after a modified one whose altitudes differ by more than 10, and then sets it to their mean, which halves the gap |
| Resolver.Affected | src/deconfliction/conflict_resolver.py:179-190 | the scan lists only unmodified waypoints, each once, in index order |
| Resolver.AffectedAreClose | src/deconfliction/conflict_resolver.py:186-190 | every listed waypoint carries its own squared distance to the conflict, which is inside the 5.0 radius |
| Resolver.AffectedComplete | src/deconfliction/conflict_resolver.py:182-190 | every unmodified waypoint inside the radius is listed |
| Resolver.ApplyEdit | src/deconfliction/conflict_resolver.py:201-261 | one waypoint's edits keep the number of waypoints |
| Resolver.Fallback | src/deconfliction/conflict_resolver.py:263-275 | the fallback keeps the number of waypoints |
| Resolver.ResolveOne | src/deconfliction/conflict_resolver.py:174-275 | one pass of the loop over solutions keeps the number of waypoints |
| Resolver.RunAll | src/deconfliction/conflict_resolver.py:174-275 | the loop over the solutions keeps the number of waypoints |
| Resolver.Resolve | src/deconfliction/conflict_resolver.py:154-288 | the resolved mission has as many waypoints as the input |
| Resolver.EvolvesTransitive | src/deconfliction/conflict_resolver.py:174-275 | the frame of the loop composes over several steps |
| Resolver.ApplyEditFails | src/deconfliction/conflict_resolver.py:217-237 | editing one waypoint fails exactly when the suggested path point is the conflict itself |
| Resolver.ApplyEditEvolves | src/deconfliction/conflict_resolver.py:201-261 | editing one unmodified waypoint keeps the frame and adds exactly that index to the modified set |
| Resolver.ApplyEditResult | src/deconfliction/conflict_resolver.py:201-259 | the edited waypoint is the result of the three edits, and the first delay while nothing is modified shifts the window by the applied delay |
| Resolver.ApplyAllFails | src/deconfliction/conflict_resolver.py:195-261 | the inner loop fails exactly when there is an affected waypoint and the path point is the conflict |
| Resolver.ApplyAllEvolves | src/deconfliction/conflict_resolver.py:195-261 | the inner loop keeps the frame and marks exactly the affected waypoints as modified |
| Resolver.ApplyAllEdits | src/deconfliction/conflict_resolver.py:195-261 | every affected waypoint ends up as the result of the three edits on its value before the loop |
| Resolver.ApplyAllWindow | src/deconfliction/conflict_resolver.py:251-256 | when nothing was modified before and a delay is read, the window ends up shifted by exactly that delay |
| Resolver.CandidatesAreNear | src/deconfliction/conflict_resolver.py:179-193 | the sorted candidates are exactly the unmodified waypoints inside the radius, each once |
| Resolver.FallbackEffect | src/deconfliction/conflict_resolver.py:263-275 | the fallback always succeeds on a non-empty mission; it raises the nearest waypoint by 25 and marks it, keeping x and y, unless that waypoint was already modified, in which case nothing changes |
| Resolver.ResolveOneFails | src/deconfliction/conflict_resolver.py:174-275 | one solution fails exactly on an unreadable altitude, an empty mission, or a path point on the conflict when some waypoint is near, each with its own error |
| Resolver.ResolveOneEffect | src/deconfliction/conflict_resolver.py:174-275 | one solution keeps the frame, always marks some waypoint, edits and marks exactly the near waypoints, and falls back only when none is near |
| Resolver.RunAllEvolves | src/deconfliction/conflict_resolver.py:174-275 | over any number of solutions the frame holds: a modified waypoint is never edited again, timestamps only move later, ticks never change |
| Resolver.RunAllStopsAtError | src/deconfliction/conflict_resolver.py:174-275 | the first failing solution ends the resolution with its error |
| Resolver.RunAllFails | src/deconfliction/conflict_resolver.py:174-275 | a failure is a missing altitude, an empty mission, or a solution whose path point is its conflict |
| Resolver.FirstPassFails | src/deconfliction/conflict_resolver.py:182-188 | with at least one solution, a waypoint without altitude or an empty mission makes the first pass fail |
| Resolver.SmoothingNothing | src/deconfliction/conflict_resolver.py:277-286 | smoothing with nothing modified changes nothing |
| Resolver.ResolveWithoutSolutions | src/deconfliction/conflict_resolver.py:154-288 | with no solutions the resolved mission equals the original |
| Resolver.ResolveOutcome | src/deconfliction/conflict_resolver.py:154-288 | the resolved mission has the same number of waypoints, timestamps only later, the same ticks, altitudes still present, and the window unchanged or shifted once by at least 5 minutes |
| Resolver.ResolveFails | src/deconfliction/conflict_resolver.py:154-288 | it fails with a missing altitude exactly when there is a solution and some waypoint lacks one, and with an empty mission exactly when there is a solution and no waypoint; a path failure needs a solution whose path point is its conflict; the corrected sort never fails |
| Resolver.RunAllFrom | src/deconfliction/conflict_resolver.py:171-275 | from the state after any prefix of the solutions to the end of the loop, a waypoint modified by then is never edited again |
| Resolver.EditedOnce | src/deconfliction/conflict_resolver.py:182-261 | a waypoint a pass finds affected still holds its original values, so it ends that pass as their edit and keeps it to the end of the loop |
| Resolver.FallbackOnce | src/deconfliction/conflict_resolver.py:263-275 | the waypoint a fallback climbs ends 25 above its original altitude and keeps that to the end of the loop |
| Resolver.RunEditsOnce | src/deconfliction/conflict_resolver.py:174-275 | over a whole run, a waypoint edited for the `k`-th solution ends as that solution's edit of its original values |
| Resolver.RunFallsBackOnce | src/deconfliction/conflict_resolver.py:174-275 | over a whole run, the waypoint a fallback of the `k`-th solution climbs ends 25 above its original altitude |
| Resolver.ResolvedKeepsModified | src/deconfliction/conflict_resolver.py:277-286 | smoothing leaves every modified waypoint as it was |
| Resolver.ResolvedEditsKeepSeparation | src/deconfliction/conflict_resolver.py:154-288 | in the resolved mission, a waypoint edited for a solution keeps at least 20 of altitude from its conflict when an altitude was read, at least 10 of horizontal distance when a path was read, and a timestamp at least 5 minutes later when a delay was read; each value not read leaves its part as planned |
| Resolver.ResolvedFallbackClimbs | src/deconfliction/conflict_resolver.py:263-288 | in the resolved mission, the waypoint a fallback climbed is 25 above its planned altitude |
| Resolver.CollectAffected | src/deconfliction/conflict_resolver.py:179-190 | the scan over the array fails on an unmodified waypoint without altitude, and otherwise returns the affected list |
| Resolver.NearestIndex | src/deconfliction/conflict_resolver.py:266-269 | the loop finds the nearest waypoint, the first one when there are ties |
| Resolver.ApplyCandidates | src/deconfliction/conflict_resolver.py:195-261 | the inner loop edits the array in place exactly as the specification of the inner loop says, or stops with its error |
| Resolver.SmoothInPlace | src/deconfliction/conflict_resolver.py:277-286 | the smoothing loop leaves the array equal to the smoothed waypoints |
| Resolver.FallbackInPlace | src/deconfliction/conflict_resolver.py:263-275 | the in-place fallback leaves the array and the modified set as the fallback specifies |
| Resolver.ResolveOneInPlace | src/deconfliction/conflict_resolver.py:175-275 | one iteration of the outer loop updates the array, window and modified set as `ResolveOne` specifies, or returns its error |
| Resolver.CreateResolvedMission | src/deconfliction/conflict_resolver.py:154-288 | the method returns the resolution the specification describes: the corrected sort, the loop over the solutions, then the smoothing |

## Left out

- `get_conflict_resolution` (src/deconfliction/conflict_resolver.py:11-139) is not modelled, apart from its line parser (lines 92-101). It covers the HTTP request to the language model, the prompt, the JSON handling, the retries and the sleeps. The model takes the answer text, or the parsed suggestion, as a parameter.
- `save_resolved_mission`, the visualisation, `conflict_explanation` and `main` are not part of this model. They are file I/O, plotting and a command-line driver.
- The `print` calls of every function are not modelled.
- Timestamps: ISO datetimes are modelled as real minutes, and a time window as two reals. Parsing and formatting ISO strings, time zones, the trailing `Z` and the `ValueError` raised by `datetime.fromisoformat` are not modelled.
- Conflict times: the string `"start to end"` is modelled as an optional `(start, end)` pair, and the sort compares these pairs instead of the strings. For uniformly formatted ISO strings the two orders agree.
- Locations: the conflict location is a formatted string that the resolver reads back with `eval`. The model keeps it as a `Location` of three reals, so `-0.0` against `0.0`, and `1` against `1.0`, are not told apart. The deduplication key does tell these apart in the source.
- `float()` is modelled for an optional sign, decimal digits, an optional fraction, and surrounding whitespace (the characters of `str.isspace`, which `Text.Strip` also removes). Exponents, `inf`, `nan`, underscores and Unicode digits are not modelled; they read as `None`.
- Square roots: distances are compared squared. The rescaling of the path point takes `sqrt` as a parameter constrained by `IsSqrt`. Floating-point rounding is not modelled.
- ResolverEdits.SortByDistance sorts by squared distance. This gives the same stable order as sorting by distance.
- Resolver.CreateResolvedMission: the source sorts the caller's `solutions` list in place. The model sorts a copy, so the caller never sees the reordering.
- Resolver.CreateResolvedMission: the deep copy through JSON is modelled by copying the waypoints into a fresh array.
- Edits replace a whole `Waypoint` record in the array. Aliasing between the dictionaries of a waypoint is not modelled.
- Resolver.ApplyEdit: the `ValueError` from an unreadable `DELAY:` or `ALTITUDE:` value is caught in the source. The model reads such a value as absent, as the source does. A `datetime` `ValueError` during the delay is not modelled, because timestamps are numbers.
- Resolver.CollectAffected: a `KeyError` on a missing `z` becomes `Err(MissingAltitude)`. A missing `x` or `y`, and a missing key anywhere in the detectors' input dictionaries, are not modelled: every waypoint has `x` and `y`.
- Helpers.FormatConflictDetails takes the three texts as parameters. The source reads `conflict['flight_id']`, a key that no detector record has, so on the records the detectors produce it raises `KeyError`; that failure is not modelled.
- Helpers.PlanarSquaredDistance requires points with at least two coordinates, where Python would raise an `IndexError`.
- Simulator.DeduplicateConflicts: the insertion-ordered `dict` is modelled by a sequence of values plus a map from each key to its position.

## Findings

| source | as written | input that shows it | evidently intended | confidence | as-written member | corrected member |
|---|---|---|---|---|---|---|
| src/deconfliction/conflict_resolver.py:169 | the sort key is the conflict's `time`, which is `None` for a spatial conflict between untimed waypoints; sorting two or more solutions with any `None` key raises `TypeError` | a timed solution followed by an untimed one (`SolutionOrder.UntimedSolutionBreaksSort`) | order the solutions by time, with untimed ones first | not executed | SolutionOrder.SortAsWritten | SolutionOrder.SortSolutions |
