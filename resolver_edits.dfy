/**
 * The per-waypoint edits of `create_resolved_mission`: reading the
 * suggested values, enforcing the vertical, horizontal and temporal
 * minimums, the fallback's nearest waypoint and the smoothing pass.
 */
module ResolverEdits {
  import opened Wrappers
  import opened Squares
  import opened Text
  import opened Model
  import opened SuggestionText

  /** Waypoints closer than this to a conflict are edited. */
  const SafetyRadius: real := 5.0
  const MinVerticalSeparation: real := 20.0
  const MinHorizontalSeparation: real := 10.0
  const MinDelay: real := 5.0
  /** The climb the fallback gives the nearest waypoint. */
  const FallbackClimb: real := 25.0
  /** Altitude steps larger than this after a modified waypoint are halved. */
  const SmoothingThreshold: real := 10.0

  function Abs(v: real): real {
    if v < 0.0 then -v else v
  }

  // --------------------------------------------------- the suggested values

  /** `float(text.replace(unit, '').strip())` for a present, non-empty field; `None` on a `ValueError`. */
  function ParsedField(field: Option<string>, unit: string): (r: Option<real>)
    requires unit != []
    ensures r.Some? ==> field.Some? && field.value != []
  {
    if field.Some? && field.value != [] then ParseNumber(Strip(RemoveAll(field.value, unit))) else None
  }

  function ParsedAltitude(s: Suggestion): Option<real> {
    ParsedField(s.altitude, "meters")
  }

  function ParsedDelay(s: Suggestion): Option<real> {
    ParsedField(s.delay, "minutes")
  }

  /** The PATH field's coordinates, when present, non-empty and readable. */
  function ParsedPath(s: Suggestion): Option<(real, real)> {
    if s.path.Some? && s.path.value != [] then ParseCoordinates(s.path.value) else None
  }

  // ------------------------------------------------------------- the edits

  /** At least the minimum horizontal separation from the conflict, compared squared. */
  predicate HorizontallySeparated(w: Waypoint, loc: Location) {
    Sq(w.x - loc.x) + Sq(w.y - loc.y) >= Sq(MinHorizontalSeparation)
  }

  /**
   * The altitude given to a waypoint for a proposal `proposed` and a
   * conflict at altitude `cz`: the proposal if it is at least 20 away,
   * otherwise 20 above or below the conflict on the proposal's side
   * (below when the proposal equals the conflict's altitude).
   */
  function SeparatedAltitude(proposed: real, cz: real): (r: real)
    ensures Abs(r - cz) >= MinVerticalSeparation
    ensures Abs(proposed - cz) >= MinVerticalSeparation ==> r == proposed
    ensures Abs(proposed - cz) < MinVerticalSeparation ==>
      Abs(r - cz) == MinVerticalSeparation && (r > cz <==> proposed > cz)
  {
    if Abs(proposed - cz) >= MinVerticalSeparation then proposed
    else cz + (if proposed > cz then MinVerticalSeparation else -MinVerticalSeparation)
  }

  /** The delay actually applied: the proposal, raised to at least 5 minutes. */
  function DelayMinutes(proposed: real): (r: real)
    ensures r >= MinDelay
    ensures proposed >= MinDelay ==> r == proposed
    ensures proposed < MinDelay ==> r == MinDelay
  {
    if proposed < MinDelay then MinDelay else proposed
  }

  /**
   * The horizontal position given to a waypoint for a proposed point `p`:
   * kept when its distance from the conflict is at least 10, otherwise
   * pushed out along the same direction to distance exactly 10. A point on
   * the conflict itself divides by zero.
   */
  function PathPoint(p: (real, real), loc: Location, sqrt: real -> real): (r: Result<(real, real), ResolveError>)
    ensures r.Ok? ==> (r.value.0 - loc.x) * (p.1 - loc.y) == (r.value.1 - loc.y) * (p.0 - loc.x)
  {
    var dx, dy := p.0 - loc.x, p.1 - loc.y;
    var dist := sqrt(Sq(dx) + Sq(dy));
    if dist >= MinHorizontalSeparation then Ok(p)
    else if dist == 0.0 then Err(DegeneratePath)
    else
      var scale := MinHorizontalSeparation / dist;
      Ok((loc.x + dx * scale, loc.y + dy * scale))
  }

  /** Scaling an offset of length `dist` by `10 / dist` gives length exactly 10. */
  lemma RescaleOntoCircle(dx: real, dy: real, dist: real)
    requires dist > 0.0 && Sq(dist) == Sq(dx) + Sq(dy)
    ensures Sq(dx * (MinHorizontalSeparation / dist)) + Sq(dy * (MinHorizontalSeparation / dist)) == Sq(MinHorizontalSeparation)
  {
    var k := MinHorizontalSeparation / dist;
    assert k * dist == MinHorizontalSeparation;
    calc {
      Sq(dx * k) + Sq(dy * k);
      == dx * k * (dx * k) + dy * k * (dy * k);
      == (dx * dx + dy * dy) * (k * k);
      == Sq(dist) * (k * k);
      == dist * dist * (k * k);
      == (k * dist) * (k * dist);
      == Sq(MinHorizontalSeparation);
    }
  }

  /**
   * After a path edit the waypoint is at least 10 from the conflict
   * horizontally; a point already that far is kept, a closer one lands at
   * exactly 10 on the same ray from the conflict, and only a point on the
   * conflict itself fails.
   */
  lemma PathPointSeparates(p: (real, real), loc: Location, sqrt: real -> real)
    requires IsSqrt(sqrt)
    ensures var d2 := Sq(p.0 - loc.x) + Sq(p.1 - loc.y);
      && (PathPoint(p, loc, sqrt).Err? <==> p == (loc.x, loc.y))
      && (d2 >= Sq(MinHorizontalSeparation) ==> PathPoint(p, loc, sqrt) == Ok(p))
      && (PathPoint(p, loc, sqrt).Ok? ==>
            Sq(PathPoint(p, loc, sqrt).value.0 - loc.x) + Sq(PathPoint(p, loc, sqrt).value.1 - loc.y) >= Sq(MinHorizontalSeparation))
      && (0.0 < d2 < Sq(MinHorizontalSeparation) ==>
            var q := PathPoint(p, loc, sqrt).value;
            && Sq(q.0 - loc.x) + Sq(q.1 - loc.y) == Sq(MinHorizontalSeparation)
            && (q.0 - loc.x) * (p.1 - loc.y) == (q.1 - loc.y) * (p.0 - loc.x)
            && (q.0 - loc.x) * (p.0 - loc.x) + (q.1 - loc.y) * (p.1 - loc.y) > 0.0)
  {
    var dx, dy := p.0 - loc.x, p.1 - loc.y;
    var d2 := Sq(dx) + Sq(dy);
    var dist := sqrt(d2);
    assert 0.0 <= dist && Sq(dist) == d2;
    SquareStrictlyMonotone(dist, MinHorizontalSeparation);
    if p != (loc.x, loc.y) {
      SumOfSquaresPositive(dx, dy);
      assert dist != 0.0;
    }
    if 0.0 < dist < MinHorizontalSeparation {
      var k := MinHorizontalSeparation / dist;
      RescaleOntoCircle(dx, dy, dist);
      var q := (loc.x + dx * k, loc.y + dy * k);
      assert q.0 - loc.x == dx * k && q.1 - loc.y == dy * k;
      assert k > 0.0;
      calc {
        (q.0 - loc.x) * dx + (q.1 - loc.y) * dy;
        == dx * k * dx + dy * k * dy;
        == k * d2;
      }
      assert k * d2 > 0.0;
    }
  }

  /** The edits one affected waypoint receives, in the source's order: altitude, path, delay. */
  function EditWaypoint(w: Waypoint, s: Suggestion, loc: Location, sqrt: real -> real): (r: Result<Waypoint, ResolveError>)
    ensures r.Err? ==> ParsedPath(s).Some?
    ensures r.Ok? ==> r.value.tick == w.tick && r.value.timestamp >= w.timestamp
  {
    Edit(w, ParsedAltitude(s), ParsedPath(s), ParsedDelay(s), loc, sqrt)
  }

  /** The three edits for the values that were read (`None` where a field is absent or unreadable). */
  function Edit(w: Waypoint, altitude: Option<real>, path: Option<(real, real)>, delay: Option<real>,
                loc: Location, sqrt: real -> real): Result<Waypoint, ResolveError> {
    var climbed := if altitude.Some? then w.(z := Some(SeparatedAltitude(altitude.value, loc.z))) else w;
    if path.Some? && PathPoint(path.value, loc, sqrt).Err? then Err(DegeneratePath)
    else
      var moved := if path.Some? then climbed.(x := PathPoint(path.value, loc, sqrt).value.0,
                                              y := PathPoint(path.value, loc, sqrt).value.1)
                   else climbed;
      Ok(if delay.Some? then moved.(timestamp := moved.timestamp + DelayMinutes(delay.value)) else moved)
  }

  /**
   * What an affected waypoint looks like afterwards: each value that was
   * read leaves its minimum enforced, each missing one leaves its part of
   * the waypoint alone, and the only failure is a path point on the conflict.
   */
  lemma EditEffects(w: Waypoint, altitude: Option<real>, path: Option<(real, real)>, delay: Option<real>,
                    loc: Location, sqrt: real -> real)
    requires IsSqrt(sqrt)
    ensures var r := Edit(w, altitude, path, delay, loc, sqrt);
      && (r.Err? <==> path == Some((loc.x, loc.y)))
      && (r.Ok? ==>
        && (altitude.Some? ==> r.value.z.Some? && Abs(r.value.z.value - loc.z) >= MinVerticalSeparation)
        && (altitude.None? ==> r.value.z == w.z)
        && (path.Some? ==> HorizontallySeparated(r.value, loc))
        && (path.None? ==> r.value.x == w.x && r.value.y == w.y)
        && (delay.Some? ==> r.value.timestamp == w.timestamp + DelayMinutes(delay.value))
        && (delay.None? ==> r.value.timestamp == w.timestamp)
        && r.value.tick == w.tick)
  {
    if path.Some? {
      PathPointSeparates(path.value, loc, sqrt);
    }
  }

  // ------------------------------------------------------------- distances

  /** Squared 3-D distance from a waypoint to a conflict location. */
  function SquaredDistanceTo(w: Waypoint, loc: Location): (d: real)
    ensures d >= 0.0
  {
    Sq(w.x - loc.x) + Sq(w.y - loc.y) + Sq(Altitude(w) - loc.z)
  }

  /** `min(range(n), key=distance)`: the first index of least distance. */
  function Nearest(wps: seq<Waypoint>, loc: Location): (k: nat)
    requires |wps| > 0
    ensures k < |wps|
    ensures forall i :: 0 <= i < |wps| ==> SquaredDistanceTo(wps[k], loc) <= SquaredDistanceTo(wps[i], loc)
    ensures forall i :: 0 <= i < k ==> SquaredDistanceTo(wps[i], loc) > SquaredDistanceTo(wps[k], loc)
  {
    if |wps| == 1 then 0
    else
      var init := wps[..|wps| - 1];
      var k := Nearest(init, loc);
      assert forall i :: 0 <= i < |init| ==> init[i] == wps[i];
      if SquaredDistanceTo(wps[|wps| - 1], loc) < SquaredDistanceTo(wps[k], loc) then |wps| - 1 else k
  }

  /** Stable insertion by distance: `c` goes after every candidate not farther than it. */
  function InsertByDistance(sorted: seq<(nat, real)>, c: (nat, real)): (r: seq<(nat, real)>)
    ensures multiset(r) == multiset(sorted) + multiset{c}
    ensures forall y :: y in r ==> y == c || y in sorted
  {
    if sorted == [] then [c]
    else
      var last := sorted[|sorted| - 1];
      if c.1 < last.1 then
        assert sorted == sorted[..|sorted| - 1] + [last];
        InsertByDistance(sorted[..|sorted| - 1], c) + [last]
      else sorted + [c]
  }

  /** `affected_waypoints.sort(key=distance)`: a stable sort, nearest first. */
  function SortByDistance(cs: seq<(nat, real)>): (r: seq<(nat, real)>)
    ensures multiset(r) == multiset(cs)
    ensures forall y :: y in r <==> y in cs
  {
    if cs == [] then []
    else
      assert cs == cs[..|cs| - 1] + [cs[|cs| - 1]];
      var r := InsertByDistance(SortByDistance(cs[..|cs| - 1]), cs[|cs| - 1]);
      assert forall y :: y in r <==> y in multiset(r);
      assert forall y :: y in cs <==> y in multiset(cs);
      r
  }

  predicate NearestFirst(cs: seq<(nat, real)>) {
    forall i, j :: 0 <= i < j < |cs| ==> cs[i].1 <= cs[j].1
  }

  lemma {:induction false} InsertKeepsNearestFirst(sorted: seq<(nat, real)>, c: (nat, real))
    requires NearestFirst(sorted)
    ensures NearestFirst(InsertByDistance(sorted, c))
  {
    if sorted != [] {
      var init, last := sorted[..|sorted| - 1], sorted[|sorted| - 1];
      if c.1 < last.1 {
        InsertKeepsNearestFirst(init, c);
        var front := InsertByDistance(init, c);
        forall k | 0 <= k < |front| ensures front[k].1 <= last.1 {
          assert front[k] in front;
        }
      }
    }
  }

  /** The candidates come out nearest first. */
  lemma {:induction false} SortByDistanceOrders(cs: seq<(nat, real)>)
    ensures NearestFirst(SortByDistance(cs))
  {
    if cs != [] {
      SortByDistanceOrders(cs[..|cs| - 1]);
      InsertKeepsNearestFirst(SortByDistance(cs[..|cs| - 1]), cs[|cs| - 1]);
    }
  }

  /** No waypoint index occurs twice among the candidates. */
  predicate DistinctIndices(cs: seq<(nat, real)>) {
    forall a, b :: 0 <= a < b < |cs| ==> cs[a].0 != cs[b].0
  }

  lemma {:induction false} InsertKeepsDistinct(sorted: seq<(nat, real)>, c: (nat, real))
    requires DistinctIndices(sorted)
    requires forall y :: y in sorted ==> y.0 != c.0
    ensures DistinctIndices(InsertByDistance(sorted, c))
  {
    if sorted != [] {
      var init, last := sorted[..|sorted| - 1], sorted[|sorted| - 1];
      if c.1 < last.1 {
        assert forall y :: y in init ==> y in sorted;
        InsertKeepsDistinct(init, c);
        var front := InsertByDistance(init, c);
        forall k | 0 <= k < |front| ensures front[k].0 != last.0 {
          assert front[k] in front;
          if front[k] != c {
            var m :| 0 <= m < |init| && init[m] == front[k];
            assert sorted[m] == front[k];
          }
        }
      } else {
        forall k | 0 <= k < |sorted| ensures sorted[k].0 != c.0 {
          assert sorted[k] in sorted;
        }
      }
    }
  }

  /** Sorting never makes two candidates share a waypoint. */
  lemma {:induction false} SortKeepsDistinct(cs: seq<(nat, real)>)
    requires DistinctIndices(cs)
    ensures DistinctIndices(SortByDistance(cs))
  {
    if cs != [] {
      var init, c := cs[..|cs| - 1], cs[|cs| - 1];
      SortKeepsDistinct(init);
      forall y | y in SortByDistance(init) ensures y.0 != c.0 {
        var m :| 0 <= m < |init| && init[m] == y;
        assert cs[m] == y;
      }
      InsertKeepsDistinct(SortByDistance(init), c);
    }
  }

  // -------------------------------------------------------------- smoothing

  /** The smoothing rule for waypoint `j`: half the step after a modified waypoint when the step exceeds 10. */
  function SmoothedAt(wps: seq<Waypoint>, modified: set<nat>, j: nat): Waypoint
    requires j < |wps|
  {
    if 1 <= j && j - 1 in modified && j !in modified
       && Abs(Altitude(wps[j - 1]) - Altitude(wps[j])) > SmoothingThreshold
    then wps[j].(z := Some((Altitude(wps[j - 1]) + Altitude(wps[j])) / 2.0))
    else wps[j]
  }

  /** The whole smoothing pass; it reads only altitudes that no step of the pass changes. */
  function Smoothed(wps: seq<Waypoint>, modified: set<nat>): (r: seq<Waypoint>)
    ensures |r| == |wps|
  {
    seq(|wps|, j requires 0 <= j < |wps| => SmoothedAt(wps, modified, j))
  }

  /**
   * Smoothing touches only the altitude of an unmodified waypoint that
   * follows a modified one across a step of more than 10, moves it to the
   * midpoint and so halves that step; positions, timestamps and modified
   * waypoints stay as they are.
   */
  lemma SmoothingEffects(wps: seq<Waypoint>, modified: set<nat>, j: nat)
    requires j < |wps|
    ensures var r := Smoothed(wps, modified);
      && r[j].x == wps[j].x && r[j].y == wps[j].y && r[j].timestamp == wps[j].timestamp && r[j].tick == wps[j].tick
      && (j in modified ==> r[j] == wps[j])
      && (r[j] != wps[j] ==>
            && 1 <= j && j - 1 in modified && j !in modified
            && Abs(Altitude(wps[j - 1]) - Altitude(wps[j])) > SmoothingThreshold
            && Altitude(r[j]) == (Altitude(wps[j - 1]) + Altitude(wps[j])) / 2.0
            && Abs(Altitude(r[j - 1]) - Altitude(r[j])) * 2.0 == Abs(Altitude(wps[j - 1]) - Altitude(wps[j])))
  {
    if 1 <= j && j - 1 in modified {
      assert Smoothed(wps, modified)[j - 1] == wps[j - 1];
    }
  }
}
