/**
 * The temporal detector (`check_temporal_conflict`): like the spatial one,
 * but a pair of flights is examined only when their time windows overlap
 * as open intervals, the buffer is tighter, and every record carries the
 * overlap of the two windows as its time.
 */
module TemporalCheck {
  import opened Wrappers
  import opened Squares
  import opened Model
  import opened PairScan
  import Helpers

  const DefaultSafetyBuffer: real := 1.0

  /** The open interval (lo, hi) contains `t`. */
  predicate During(lo: real, hi: real, t: real) {
    lo < t < hi
  }

  /**
   * The window gate: `start1 < end2 and end1 > start2`. For proper windows
   * it holds exactly when the two open windows share an instant, so windows
   * that only touch fail it.
   */
  function Overlaps(w1: Window, w2: Window): (r: bool)
    ensures w1.start < w1.end && w2.start < w2.end ==>
      (r <==> exists t :: During(w1.start, w1.end, t) && During(w2.start, w2.end, t))
  {
    var gate := w1.start < w2.end && w1.end > w2.start;
    var lo := if w1.start >= w2.start then w1.start else w2.start;
    var hi := if w1.end <= w2.end then w1.end else w2.end;
    assert w1.start < w1.end && w2.start < w2.end && gate ==>
      During(w1.start, w1.end, (lo + hi) / 2.0) && During(w2.start, w2.end, (lo + hi) / 2.0);
    gate
  }

  /** `[max(start1, start2), min(end1, end2)]`: inside both windows, non-empty when they overlap. */
  function OverlapInterval(w1: Window, w2: Window): (t: (real, real))
    ensures t.0 >= w1.start && t.0 >= w2.start && t.1 <= w1.end && t.1 <= w2.end
    ensures t.0 == w1.start || t.0 == w2.start
    ensures t.1 == w1.end || t.1 == w2.end
    ensures Overlaps(w1, w2) && w1.start <= w1.end && w2.start <= w2.end ==> t.0 <= t.1
    ensures Overlaps(w1, w2) && w1.start < w1.end && w2.start < w2.end ==> t.0 < t.1
  {
    (if w1.start >= w2.start then w1.start else w2.start, if w1.end <= w2.end then w1.end else w2.end)
  }

  /** The record emitted for a close pair of an overlapping pair of flights. */
  function TemporalConflictOf(f1: Flight, f2: Flight, w1: Waypoint): Conflict {
    Conflict(LocationOf(w1), Some(OverlapInterval(f1.window, f2.window)), (f1.id, f2.id))
  }

  predicate Close(w1: Waypoint, w2: Waypoint, buffer: real) {
    WithinSquared(SquaredDistance3(w1, w2), buffer)
  }

  /** `t` names two flights `i < j` of the list and a waypoint of each. */
  predicate IsSlot(fs: seq<Flight>, t: Slot) {
    t.i < t.j < |fs| && t.a < |fs[t.i].waypoints| && t.b < |fs[t.j].waypoints|
  }

  /** The two waypoints at `t` are closer than the buffer. */
  predicate CloseAt(fs: seq<Flight>, buffer: real, t: Slot)
    requires IsSlot(fs, t)
  {
    Close(fs[t.i].waypoints[t.a], fs[t.j].waypoints[t.b], buffer)
  }

  /** The windows of the two flights at `t` pass the gate. */
  predicate GateAt(fs: seq<Flight>, t: Slot)
    requires IsSlot(fs, t)
  {
    Overlaps(fs[t.i].window, fs[t.j].window)
  }

  /** The record the detector appends at `t`. */
  function ConflictAt(fs: seq<Flight>, t: Slot): Conflict
    requires IsSlot(fs, t)
  {
    TemporalConflictOf(fs[t.i], fs[t.j], fs[t.i].waypoints[t.a])
  }

  /** Number of waypoints of each flight of the list. */
  function Sizes(fs: seq<Flight>): nat -> nat {
    (k: nat) => if k < |fs| then |fs[k].waypoints| else 0
  }

  /** The loops' test, gate included, as a function of the position. */
  function HitAt(fs: seq<Flight>, buffer: real): Slot -> bool {
    (t: Slot) => IsSlot(fs, t) && GateAt(fs, t) && CloseAt(fs, buffer, t)
  }

  /** The loops' record, as a function of the position (the scan never asks outside the list). */
  function ReportAt(fs: seq<Flight>): Slot -> Conflict {
    (t: Slot) => if IsSlot(fs, t) then ConflictAt(fs, t) else Conflict(Location(0.0, 0.0, 0.0), None, ([], []))
  }

  /**
   * The detector's output for a flight list, in the order the loops emit
   * it: one record per close waypoint pair of overlapping flights.
   */
  function TemporalConflicts(fs: seq<Flight>, buffer: real): (r: seq<Conflict>)
    ensures |r| == |CloseSlots(fs, buffer)|
  {
    ScanEnumeratesHits(Sizes(fs), HitAt(fs, buffer), ReportAt(fs), |fs|);
    Scan(Sizes(fs), HitAt(fs, buffer), ReportAt(fs), |fs|, |fs|)
  }

  /** The positions of the close waypoint pairs of overlapping flights, in loop order. */
  function CloseSlots(fs: seq<Flight>, buffer: real): seq<Slot> {
    Hits(Sizes(fs), HitAt(fs, buffer), |fs|)
  }

  /** The two inner loops, run once the gate has let flights `i` and `j` through. */
  method WaypointPairConflicts(fs: seq<Flight>, i: nat, j: nat, buffer: real) returns (found: seq<Conflict>)
    requires i < j < |fs| && Overlaps(fs[i].window, fs[j].window)
    ensures found == Cross(Sizes(fs), HitAt(fs, buffer), ReportAt(fs), i, j, |fs[i].waypoints|)
  {
    var flight1, flight2 := fs[i], fs[j];
    found := [];
    for a := 0 to |flight1.waypoints|
      invariant found == Cross(Sizes(fs), HitAt(fs, buffer), ReportAt(fs), i, j, a)
    {
      var wp1 := flight1.waypoints[a];
      ghost var rowsSoFar := found;
      for b := 0 to |flight2.waypoints|
        invariant found == rowsSoFar + Row(HitAt(fs, buffer), ReportAt(fs), i, j, a, b)
      {
        var wp2 := flight2.waypoints[b];
        if WithinSquared(SquaredDistance3(wp1, wp2), buffer) {
          found := found + [TemporalConflictOf(flight1, flight2, wp1)];
        }
      }
    }
  }

  /** One pass of the outer loop: flight `i` against every later flight whose window overlaps. */
  method FlightPairs(fs: seq<Flight>, i: nat, buffer: real) returns (found: seq<Conflict>)
    requires i < |fs|
    ensures found == Pairs(Sizes(fs), HitAt(fs, buffer), ReportAt(fs), i, |fs|)
  {
    found := [];
    for j := i + 1 to |fs|
      invariant found == Pairs(Sizes(fs), HitAt(fs, buffer), ReportAt(fs), i, j)
    {
      var f1, f2 := fs[i], fs[j];
      if f1.window.start < f2.window.end && f1.window.end > f2.window.start {
        var cross := WaypointPairConflicts(fs, i, j, buffer);
        found := found + cross;
      } else {
        CrossSilent(Sizes(fs), HitAt(fs, buffer), ReportAt(fs), i, j, |fs[i].waypoints|);
      }
    }
  }

  method CheckTemporalConflict(primary: Mission, others: seq<Flight>, buffer: real) returns (conflicts: seq<Conflict>)
    ensures conflicts == TemporalConflicts(AllFlights(primary, others), buffer)
  {
    var fs := AllFlights(primary, others);
    conflicts := [];
    for i := 0 to |fs|
      invariant conflicts == Scan(Sizes(fs), HitAt(fs, buffer), ReportAt(fs), |fs|, i)
    {
      var row := FlightPairs(fs, i, buffer);
      conflicts := conflicts + row;
    }
  }

  // ------------------------------------------------ what the output contains

  /**
   * One record per close pair of waypoints of two flights whose windows
   * overlap, and nothing else: the output has exactly as many records as
   * there are such pairs `(i, j, a, b)` with `i < j`, and the `k`-th record
   * is the one for the `k`-th such pair in loop order.
   */
  lemma TemporalReportsEnumerateClosePairs(fs: seq<Flight>, buffer: real)
    ensures forall t :: t in CloseSlots(fs, buffer) <==> IsSlot(fs, t) && GateAt(fs, t) && CloseAt(fs, buffer, t)
    ensures Increasing(CloseSlots(fs, buffer))
    ensures |TemporalConflicts(fs, buffer)| == |CloseSlots(fs, buffer)|
    ensures forall k :: 0 <= k < |CloseSlots(fs, buffer)| ==>
      IsSlot(fs, CloseSlots(fs, buffer)[k]) && TemporalConflicts(fs, buffer)[k] == ConflictAt(fs, CloseSlots(fs, buffer)[k])
  {
    ScanEnumeratesHits(Sizes(fs), HitAt(fs, buffer), ReportAt(fs), |fs|);
    var slots := CloseSlots(fs, buffer);
    forall k | 0 <= k < |slots|
      ensures IsSlot(fs, slots[k])
    {
      assert slots[k] in slots;
    }
  }

  /**
   * The detector emits exactly the records of close waypoint pairs of list
   * positions `i < j` whose windows overlap.
   */
  lemma TemporalConflictsExactly(fs: seq<Flight>, buffer: real, c: Conflict)
    ensures c in TemporalConflicts(fs, buffer)
      <==> exists t :: IsSlot(fs, t) && GateAt(fs, t) && CloseAt(fs, buffer, t) && c == ConflictAt(fs, t)
  {
    TemporalReportsEnumerateClosePairs(fs, buffer);
    var slots := CloseSlots(fs, buffer);
    if c in TemporalConflicts(fs, buffer) {
      var k :| 0 <= k < |TemporalConflicts(fs, buffer)| && TemporalConflicts(fs, buffer)[k] == c;
      assert slots[k] in slots;
    }
    if exists t :: IsSlot(fs, t) && GateAt(fs, t) && CloseAt(fs, buffer, t) && c == ConflictAt(fs, t) {
      var t :| IsSlot(fs, t) && GateAt(fs, t) && CloseAt(fs, buffer, t) && c == ConflictAt(fs, t);
      var k :| 0 <= k < |slots| && slots[k] == t;
      assert TemporalConflicts(fs, buffer)[k] == c;
    }
  }

  /** A record's slot, for the lemmas below. */
  lemma SlotOf(fs: seq<Flight>, buffer: real, c: Conflict) returns (t: Slot)
    requires c in TemporalConflicts(fs, buffer)
    ensures IsSlot(fs, t) && GateAt(fs, t) && CloseAt(fs, buffer, t) && c == ConflictAt(fs, t)
  {
    TemporalConflictsExactly(fs, buffer, c);
    t :| IsSlot(fs, t) && GateAt(fs, t) && CloseAt(fs, buffer, t) && c == ConflictAt(fs, t);
  }

  /**
   * Every record comes from two flights whose windows overlap, and its time
   * is their overlap, a non-empty interval when the windows are well formed.
   */
  lemma EveryConflictHasOverlapTime(fs: seq<Flight>, buffer: real, c: Conflict)
    requires forall k :: 0 <= k < |fs| ==> fs[k].window.start < fs[k].window.end
    requires c in TemporalConflicts(fs, buffer)
    ensures exists i, j :: (0 <= i < j < |fs| && Overlaps(fs[i].window, fs[j].window)
      && c.involved == (fs[i].id, fs[j].id) && c.time == Some(OverlapInterval(fs[i].window, fs[j].window)))
    ensures c.time.Some? && c.time.value.0 < c.time.value.1
  {
    var t := SlotOf(fs, buffer, c);
    assert 0 <= t.i < t.j < |fs| && Overlaps(fs[t.i].window, fs[t.j].window);
  }

  /** No pair whose windows fail the gate contributes anything, however close its waypoints. */
  lemma NoConflictWithoutOverlap(fs: seq<Flight>, buffer: real, c: Conflict)
    requires c in TemporalConflicts(fs, buffer)
    ensures exists i, j :: 0 <= i < j < |fs| && Overlaps(fs[i].window, fs[j].window) && c.involved == (fs[i].id, fs[j].id)
  {
    var t := SlotOf(fs, buffer, c);
    assert 0 <= t.i < t.j < |fs| && Overlaps(fs[t.i].window, fs[t.j].window);
  }

  /** The gate gives the same verdict with the two flights swapped. */
  lemma OverlapsSymmetric(w1: Window, w2: Window)
    ensures Overlaps(w1, w2) <==> Overlaps(w2, w1)
  {
  }

  /** Windows that only touch do not overlap, but the utilities' inclusive test says they do. */
  lemma TouchingWindowsDoNotOverlap(start: real, end: real, later: real)
    requires start < end < later
    ensures !Overlaps(Window(start, end), Window(end, later))
    ensures Helpers.IsWithinTimeWindow(start, end, (end, later))
  {
  }

  /** For well-formed windows the inclusive test is the strict gate plus the touching case. */
  lemma InclusiveTestIsGateOrTouching(w1: Window, w2: Window)
    requires w1.start <= w1.end && w2.start <= w2.end
    ensures Helpers.IsWithinTimeWindow(w1.start, w1.end, (w2.start, w2.end))
      <==> Overlaps(w1, w2) || w1.end == w2.start || w2.end == w1.start
  {
  }

  /**
   * When no other flight is tagged "primary", the primary never appears
   * second in a record: it is listed first whenever it is involved.
   */
  lemma PrimaryListedFirst(primary: Mission, others: seq<Flight>, buffer: real, c: Conflict)
    requires forall k :: 0 <= k < |others| ==> others[k].id != PrimaryId
    requires c in TemporalConflicts(AllFlights(primary, others), buffer)
    ensures c.involved.1 != PrimaryId
  {
    var fs := AllFlights(primary, others);
    var t := SlotOf(fs, buffer, c);
    assert fs[t.j] == others[t.j - 1];
  }
}
