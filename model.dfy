/**
 * The records the deconfliction engine passes around: waypoints, missions,
 * flights, conflicts and resolution suggestions. Times are minutes on one
 * clock; coordinates are reals.
 */
module Model {
  import opened Wrappers
  import opened Squares

  /**
   * A waypoint: `z` may be missing (the detectors then read 0), `tick` is the
   * optional `time` field counted in 10-minute steps from the flight's window
   * start, and `timestamp` is the absolute time the resolver delays.
   */
  datatype Waypoint = Waypoint(x: real, y: real, z: Option<real>, tick: Option<real>, timestamp: real)

  datatype Window = Window(start: real, end: real)

  /** The primary mission: waypoints and a time window, no identifier of its own. */
  datatype Mission = Mission(waypoints: seq<Waypoint>, window: Window)

  /** A trajectory as the detectors see it, tagged with its `drone_id`. */
  datatype Flight = Flight(id: string, waypoints: seq<Waypoint>, window: Window)

  /** A conflict location `(x, y, z)`. */
  datatype Location = Location(x: real, y: real, z: real)

  /** A detected conflict: where, optionally when, and the two flights in detector order. */
  datatype Conflict = Conflict(location: Location, time: Option<(real, real)>, involved: (string, string))

  /** The labelled fields of an advisor answer, each the raw text after its label. */
  datatype Suggestion = Suggestion(altitude: Option<string>, delay: Option<string>, path: Option<string>, reason: Option<string>)

  /** A conflict paired with the suggestion made for it. */
  datatype Solution = Solution(conflict: Conflict, suggestion: Suggestion)

  /**
   * The ways building a resolved mission can fail: sorting solutions whose
   * times cannot be compared (`TypeError`), a waypoint without an altitude
   * (`KeyError`), a path point on the conflict itself (`ZeroDivisionError`),
   * a fallback over no waypoints (`ValueError` from `min`).
   */
  datatype ResolveError = UnorderableTimes | MissingAltitude | DegeneratePath | EmptyMission

  const PrimaryId: string := "primary"

  /** The altitude the detectors use: `wp.get('z', 0)`. */
  function Altitude(w: Waypoint): real {
    w.z.GetOr(0.0)
  }

  /** The flight list both detectors build: the primary first, tagged "primary", then the others. */
  function AllFlights(primary: Mission, others: seq<Flight>): (fs: seq<Flight>)
    ensures |fs| == |others| + 1 && fs[0].id == PrimaryId && fs[1..] == others
    ensures fs[0].waypoints == primary.waypoints && fs[0].window == primary.window
  {
    [Flight(PrimaryId, primary.waypoints, primary.window)] + others
  }

  /** The location a detector reports for a waypoint: its own coordinates, missing z as 0. */
  function LocationOf(w: Waypoint): Location {
    Location(w.x, w.y, Altitude(w))
  }

  /** Squared 3-D distance between two waypoints, missing altitudes read as 0. */
  function SquaredDistance3(a: Waypoint, b: Waypoint): (d: real)
    ensures d >= 0.0
  {
    Sq(a.x - b.x) + Sq(a.y - b.y) + Sq(Altitude(a) - Altitude(b))
  }

  /**
   * `sqrt(d2) < limit`, stated without the square root: for `d2 >= 0` this
   * holds exactly when the limit is positive and `d2 < limit * limit`.
   */
  predicate WithinSquared(d2: real, limit: real) {
    0.0 < limit && d2 < Sq(limit)
  }

  /** The defining property of a square root on the non-negative reals. */
  ghost predicate IsSqrt(sqrt: real -> real) {
    forall q :: 0.0 <= q ==> 0.0 <= sqrt(q) && Sq(sqrt(q)) == q
  }

  /** WithinSquared agrees with comparing the true distance `d` (any `d >= 0` with `d * d == d2`). */
  lemma WithinSquaredIsDistanceBelow(d2: real, d: real, limit: real)
    requires 0.0 <= d && Sq(d) == d2
    ensures WithinSquared(d2, limit) <==> d < limit
  {
    if 0.0 < limit {
      SquareStrictlyMonotone(d, limit);
    }
  }
}
