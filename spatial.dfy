/**
 * The spatial detector (`check_spatial_conflict`): every unordered pair of
 * flights, primary first, every waypoint of one against every waypoint of
 * the other, one conflict per pair of waypoints closer than the buffer.
 */
module SpatialCheck {
  import opened Wrappers
  import opened Squares
  import opened Model
  import opened PairScan

  const DefaultSafetyBuffer: real := 2.0

  /** Waypoint `time` values count 10-minute ticks from the flight's window start. */
  const TickMinutes: real := 10.0

  datatype DistanceError = DimensionMismatch

  /**
   * The detector's `calculate_distance` (squared): both points 2-D or both
   * 3-D, otherwise the source raises `ValueError`.
   */
  function SquaredDistance(p: seq<real>, q: seq<real>): (r: Result<real, DistanceError>)
    ensures r.Ok? <==> (|p| == 2 && |q| == 2) || (|p| == 3 && |q| == 3)
    ensures r.Ok? ==> r.value >= 0.0
  {
    if |p| == 2 && |q| == 2 then Ok(Sq(p[0] - q[0]) + Sq(p[1] - q[1]))
    else if |p| == 3 && |q| == 3 then Ok(Sq(p[0] - q[0]) + Sq(p[1] - q[1]) + Sq(p[2] - q[2]))
    else Err(DimensionMismatch)
  }

  lemma SquaredDistanceSymmetric(p: seq<real>, q: seq<real>)
    ensures SquaredDistance(p, q) == SquaredDistance(q, p)
  {
    if |p| == |q| && 2 <= |p| <= 3 {
      SquareOfDifferenceSymmetric(p[0], q[0]);
      SquareOfDifferenceSymmetric(p[1], q[1]);
      if |p| == 3 { SquareOfDifferenceSymmetric(p[2], q[2]); }
    }
  }

  lemma SquaredDistanceToItself(p: seq<real>)
    requires |p| == 2 || |p| == 3
    ensures SquaredDistance(p, p) == Ok(0.0)
  {
  }

  /** The 3-D point the detector builds from a waypoint. */
  function PointOf(w: Waypoint): seq<real> {
    [w.x, w.y, Altitude(w)]
  }

  /** The detector's proximity test is `calculate_distance` on the two 3-D points. */
  lemma DetectorUsesCalculateDistance(a: Waypoint, b: Waypoint)
    ensures SquaredDistance(PointOf(a), PointOf(b)) == Ok(SquaredDistance3(a, b))
  {
  }

  /** Minute at which a waypoint with a tick is reached. */
  function TickTime(f: Flight, tick: real): real {
    f.window.start + TickMinutes * tick
  }

  /**
   * The conflict time: present exactly when both waypoints carry a tick, and
   * then the interval between the two absolute times, earlier first.
   */
  function ConflictTime(f1: Flight, f2: Flight, w1: Waypoint, w2: Waypoint): (t: Option<(real, real)>)
    ensures t.Some? <==> w1.tick.Some? && w2.tick.Some?
    ensures t.Some? ==>
      var t1, t2 := TickTime(f1, w1.tick.value), TickTime(f2, w2.tick.value);
      t.value.0 <= t.value.1 && (t.value == (t1, t2) || t.value == (t2, t1))
  {
    match (w1.tick, w2.tick)
    case (Some(k1), Some(k2)) =>
      var t1, t2 := TickTime(f1, k1), TickTime(f2, k2);
      Some(if t1 <= t2 then (t1, t2) else (t2, t1))
    case _ => None
  }

  /** The record emitted for a close pair: flight1's waypoint as location, ids in list order. */
  function SpatialConflictOf(f1: Flight, f2: Flight, w1: Waypoint, w2: Waypoint): Conflict {
    Conflict(LocationOf(w1), ConflictTime(f1, f2, w1, w2), (f1.id, f2.id))
  }

  predicate Close(w1: Waypoint, w2: Waypoint, buffer: real) {
    WithinSquared(SquaredDistance3(w1, w2), buffer)
  }

  /** `t` names two flights `i < j` of the list and a waypoint of each. */
  predicate IsSlot(fs: seq<Flight>, t: Slot) {
    t.i < t.j < |fs| && t.a < |fs[t.i].waypoints| && t.b < |fs[t.j].waypoints|
  }

  /** The two waypoints at `t` are closer than the buffer. */
  predicate CloseAt(fs: seq<Flight>, buffer: real, t: Slot)
    requires IsSlot(fs, t)
  {
    Close(fs[t.i].waypoints[t.a], fs[t.j].waypoints[t.b], buffer)
  }

  /** The record the detector appends at `t`. */
  function ConflictAt(fs: seq<Flight>, t: Slot): Conflict
    requires IsSlot(fs, t)
  {
    SpatialConflictOf(fs[t.i], fs[t.j], fs[t.i].waypoints[t.a], fs[t.j].waypoints[t.b])
  }

  /** Number of waypoints of each flight of the list. */
  function Sizes(fs: seq<Flight>): nat -> nat {
    (k: nat) => if k < |fs| then |fs[k].waypoints| else 0
  }

  /** The loops' test, as a function of the position. */
  function HitAt(fs: seq<Flight>, buffer: real): Slot -> bool {
    (t: Slot) => IsSlot(fs, t) && CloseAt(fs, buffer, t)
  }

  /** The loops' record, as a function of the position (the scan never asks outside the list). */
  function ReportAt(fs: seq<Flight>): Slot -> Conflict {
    (t: Slot) => if IsSlot(fs, t) then ConflictAt(fs, t) else Conflict(Location(0.0, 0.0, 0.0), None, ([], []))
  }

  /**
   * The detector's output for a flight list, in the order the loops emit
   * it: one record per close waypoint pair.
   */
  function SpatialConflicts(fs: seq<Flight>, buffer: real): (r: seq<Conflict>)
    ensures |r| == |CloseSlots(fs, buffer)|
  {
    ScanEnumeratesHits(Sizes(fs), HitAt(fs, buffer), ReportAt(fs), |fs|);
    Scan(Sizes(fs), HitAt(fs, buffer), ReportAt(fs), |fs|, |fs|)
  }

  /** The positions of the close waypoint pairs, in the order the loops visit them. */
  function CloseSlots(fs: seq<Flight>, buffer: real): seq<Slot> {
    Hits(Sizes(fs), HitAt(fs, buffer), |fs|)
  }

  /** The two inner loops: every waypoint of flight `i` against every waypoint of flight `j`. */
  method WaypointPairConflicts(fs: seq<Flight>, i: nat, j: nat, buffer: real) returns (found: seq<Conflict>)
    requires i < j < |fs|
    ensures found == Cross(Sizes(fs), HitAt(fs, buffer), ReportAt(fs), i, j, |fs[i].waypoints|)
  {
    var flight1, flight2 := fs[i], fs[j];
    found := [];
    for a := 0 to |flight1.waypoints|
      invariant found == Cross(Sizes(fs), HitAt(fs, buffer), ReportAt(fs), i, j, a)
    {
      var wp1 := flight1.waypoints[a];
      ghost var rowsSoFar := found;
      for b := 0 to |flight2.waypoints|
        invariant found == rowsSoFar + Row(HitAt(fs, buffer), ReportAt(fs), i, j, a, b)
      {
        var wp2 := flight2.waypoints[b];
        if WithinSquared(SquaredDistance3(wp1, wp2), buffer) {
          found := found + [SpatialConflictOf(flight1, flight2, wp1, wp2)];
        }
      }
    }
  }

  /** One pass of the outer loop: flight `i` against every later flight. */
  method FlightPairs(fs: seq<Flight>, i: nat, buffer: real) returns (found: seq<Conflict>)
    requires i < |fs|
    ensures found == Pairs(Sizes(fs), HitAt(fs, buffer), ReportAt(fs), i, |fs|)
  {
    found := [];
    for j := i + 1 to |fs|
      invariant found == Pairs(Sizes(fs), HitAt(fs, buffer), ReportAt(fs), i, j)
    {
      var cross := WaypointPairConflicts(fs, i, j, buffer);
      found := found + cross;
    }
  }

  method CheckSpatialConflict(primary: Mission, others: seq<Flight>, buffer: real) returns (conflicts: seq<Conflict>)
    ensures conflicts == SpatialConflicts(AllFlights(primary, others), buffer)
  {
    var fs := AllFlights(primary, others);
    conflicts := [];
    for i := 0 to |fs|
      invariant conflicts == Scan(Sizes(fs), HitAt(fs, buffer), ReportAt(fs), |fs|, i)
    {
      var row := FlightPairs(fs, i, buffer);
      conflicts := conflicts + row;
    }
  }

  // ------------------------------------------------ what the output contains

  /**
   * One record per close pair of waypoints and nothing else: the output has
   * exactly as many records as there are close pairs `(i, j, a, b)` with
   * `i < j`, and the `k`-th record is the one for the `k`-th close pair in
   * loop order.
   */
  lemma SpatialReportsEnumerateClosePairs(fs: seq<Flight>, buffer: real)
    ensures forall t :: t in CloseSlots(fs, buffer) <==> IsSlot(fs, t) && CloseAt(fs, buffer, t)
    ensures Increasing(CloseSlots(fs, buffer))
    ensures |SpatialConflicts(fs, buffer)| == |CloseSlots(fs, buffer)|
    ensures forall k :: 0 <= k < |CloseSlots(fs, buffer)| ==>
      IsSlot(fs, CloseSlots(fs, buffer)[k]) && SpatialConflicts(fs, buffer)[k] == ConflictAt(fs, CloseSlots(fs, buffer)[k])
  {
    ScanEnumeratesHits(Sizes(fs), HitAt(fs, buffer), ReportAt(fs), |fs|);
    var slots := CloseSlots(fs, buffer);
    forall k | 0 <= k < |slots|
      ensures IsSlot(fs, slots[k])
    {
      assert slots[k] in slots;
    }
  }

  /**
   * The detector emits exactly the records of pairs of waypoints from two
   * different list positions `i < j` that are closer than the buffer.
   */
  lemma SpatialConflictsExactly(fs: seq<Flight>, buffer: real, c: Conflict)
    ensures c in SpatialConflicts(fs, buffer) <==> exists t :: IsSlot(fs, t) && CloseAt(fs, buffer, t) && c == ConflictAt(fs, t)
  {
    SpatialReportsEnumerateClosePairs(fs, buffer);
    var slots := CloseSlots(fs, buffer);
    if c in SpatialConflicts(fs, buffer) {
      var k :| 0 <= k < |SpatialConflicts(fs, buffer)| && SpatialConflicts(fs, buffer)[k] == c;
      assert slots[k] in slots;
    }
    if exists t :: IsSlot(fs, t) && CloseAt(fs, buffer, t) && c == ConflictAt(fs, t) {
      var t :| IsSlot(fs, t) && CloseAt(fs, buffer, t) && c == ConflictAt(fs, t);
      var k :| 0 <= k < |slots| && slots[k] == t;
      assert SpatialConflicts(fs, buffer)[k] == c;
    }
  }

  /**
   * When no other flight is tagged "primary", the primary never appears
   * second in a record: it is listed first whenever it is involved.
   */
  lemma PrimaryListedFirst(primary: Mission, others: seq<Flight>, buffer: real, c: Conflict)
    requires forall k :: 0 <= k < |others| ==> others[k].id != PrimaryId
    requires c in SpatialConflicts(AllFlights(primary, others), buffer)
    ensures c.involved.1 != PrimaryId
  {
    var fs := AllFlights(primary, others);
    SpatialConflictsExactly(fs, buffer, c);
    var t :| IsSlot(fs, t) && CloseAt(fs, buffer, t) && c == ConflictAt(fs, t);
    assert fs[t.j] == others[t.j - 1];
  }
}
