/** Small shared utilities: a planar distance, an inclusive window test and a conflict message. */
module Helpers {
  import opened Squares

  /**
   * `calculate_distance` of the utilities: Euclidean distance over the first
   * two components only (here squared). Shorter points raise `IndexError`
   * in the source, hence the precondition.
   */
  function PlanarSquaredDistance(p: seq<real>, q: seq<real>): (d: real)
    requires |p| >= 2 && |q| >= 2
    ensures d >= 0.0
    ensures p[0] == q[0] && p[1] == q[1] ==> d == 0.0
  {
    Sq(p[0] - q[0]) + Sq(p[1] - q[1])
  }

  /** Swapping the points does not change the distance; components past the second are ignored. */
  lemma PlanarDistanceSymmetricAndPlanar(p: seq<real>, q: seq<real>, p': seq<real>)
    requires |p| >= 2 && |q| >= 2 && |p'| >= 2
    requires p'[..2] == p[..2]
    ensures PlanarSquaredDistance(p, q) == PlanarSquaredDistance(q, p)
    ensures PlanarSquaredDistance(p', q) == PlanarSquaredDistance(p, q)
  {
    assert p'[0] == p'[..2][0] == p[..2][0] == p[0];
    assert p'[1] == p'[..2][1] == p[..2][1] == p[1];
  }

  /** Distinct planar positions are at a positive distance. */
  lemma PlanarDistancePositiveWhenApart(p: seq<real>, q: seq<real>)
    requires |p| >= 2 && |q| >= 2
    requires p[0] != q[0] || p[1] != q[1]
    ensures PlanarSquaredDistance(p, q) > 0.0
  {
    SumOfSquaresPositive(p[0] - q[0], p[1] - q[1]);
  }

  /** The closed interval [lo, hi] contains `t`. */
  predicate Contains(lo: real, hi: real, t: real) {
    lo <= t <= hi
  }

  /**
   * `is_within_time_window`: for well-formed intervals, [start, end] and
   * [window.0, window.1] share an instant, endpoints included; for any
   * bounds, neither interval lies wholly before the other.
   */
  function IsWithinTimeWindow(start: real, end: real, window: (real, real)): (r: bool)
    ensures start <= end && window.0 <= window.1 ==>
      (r <==> exists t :: Contains(start, end, t) && Contains(window.0, window.1, t))
    ensures !r <==> end < window.0 || start > window.1
  {
    var meets := !(end < window.0 || start > window.1);
    var latestStart := if start >= window.0 then start else window.0;
    assert start <= end && window.0 <= window.1 && meets ==>
      Contains(start, end, latestStart) && Contains(window.0, window.1, latestStart);
    meets
  }

  /** Asking about the window against the interval gives the same answer. */
  lemma IsWithinTimeWindowSymmetric(start: real, end: real, window: (real, real))
    ensures IsWithinTimeWindow(start, end, window) == IsWithinTimeWindow(window.0, window.1, (start, end))
  {
  }

  /** Intervals that only touch at an endpoint count as overlapping. */
  lemma TouchingWindowsOverlap(start: real, end: real, later: real)
    requires start <= end <= later
    ensures IsWithinTimeWindow(start, end, (end, later))
    ensures IsWithinTimeWindow(end, later, (start, end))
  {
  }

  const DetailsLead: string := "Conflict detected at location "
  const DetailsTime: string := " during time "
  const DetailsFlight: string := " with flight "

  /**
   * `format_conflict_details`: the location, time and flight id text of a
   * conflict, each embedded after its own phrase, ending in a full stop.
   */
  function FormatConflictDetails(location: string, time: string, flightId: string): (r: string)
    ensures |r| == |DetailsLead| + |location| + |DetailsTime| + |time| + |DetailsFlight| + |flightId| + 1
    ensures r[|DetailsLead|..|DetailsLead| + |location|] == location
    ensures r[|DetailsLead| + |location| + |DetailsTime|..][..|time|] == time
    ensures r[|r| - 1 - |flightId|..|r| - 1] == flightId
    ensures r[|r| - 1] == '.'
  {
    DetailsLead + location + DetailsTime + time + DetailsFlight + flightId + "."
  }
}
