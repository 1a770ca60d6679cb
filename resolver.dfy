/**
 * `create_resolved_mission`: applies the advisor's suggestions to a copy of
 * the primary mission, conflict by conflict in time order, then smooths the
 * altitude steps it introduced. The functions below state the algorithm one
 * solution at a time; `CreateResolvedMission` is the in-place version and is
 * proved equal to `Resolve`.
 */
module Resolver {
  import opened Wrappers
  import opened Model
  import opened SuggestionText
  import opened SolutionOrder
  import opened ResolverEdits
  import opened Squares

  /** The state the loop over solutions carries: the waypoints, the window and `modified_waypoints`. */
  datatype Progress = Progress(waypoints: seq<Waypoint>, window: Window, modified: set<nat>)

  function Shifted(w: Window, d: real): Window {
    Window(w.start + d, w.end + d)
  }

  predicate AllAltitudesPresent(wps: seq<Waypoint>) {
    forall j :: 0 <= j < |wps| ==> wps[j].z.Some?
  }

  /** The scan reads `z` of every waypoint not yet modified. */
  predicate AltitudesReadable(p: Progress) {
    forall j :: 0 <= j < |p.waypoints| && j !in p.modified ==> p.waypoints[j].z.Some?
  }

  /**
   * The affected waypoints among the first `n`, in index order: those not
   * yet modified and closer than the safety radius, each with its squared
   * distance.
   */
  function Affected(wps: seq<Waypoint>, modified: set<nat>, loc: Location, n: nat): (cs: seq<(nat, real)>)
    requires n <= |wps|
    ensures forall c :: c in cs ==> c.0 < n && c.0 !in modified
    ensures forall a, b :: 0 <= a < b < |cs| ==> cs[a].0 < cs[b].0
  {
    if n == 0 then []
    else
      var earlier := Affected(wps, modified, loc, n - 1);
      var d2 := SquaredDistanceTo(wps[n - 1], loc);
      if n - 1 !in modified && WithinSquared(d2, SafetyRadius) then earlier + [(n - 1, d2)] else earlier
  }

  /** Every affected waypoint carries its own squared distance, which is within the radius. */
  lemma {:induction false} AffectedAreClose(wps: seq<Waypoint>, modified: set<nat>, loc: Location, n: nat, c: (nat, real))
    requires n <= |wps| && c in Affected(wps, modified, loc, n)
    ensures c.0 < n && c.1 == SquaredDistanceTo(wps[c.0], loc) && WithinSquared(c.1, SafetyRadius)
  {
    if c !in Affected(wps, modified, loc, n - 1) {
      assert c == (n - 1, SquaredDistanceTo(wps[n - 1], loc));
    } else {
      AffectedAreClose(wps, modified, loc, n - 1, c);
    }
  }

  /** Every unmodified waypoint closer than the safety radius is among the affected ones. */
  lemma {:induction false} AffectedComplete(wps: seq<Waypoint>, modified: set<nat>, loc: Location, n: nat, j: nat)
    requires n <= |wps| && j < n && j !in modified
    requires WithinSquared(SquaredDistanceTo(wps[j], loc), SafetyRadius)
    ensures (j, SquaredDistanceTo(wps[j], loc)) in Affected(wps, modified, loc, n)
  {
    if j < n - 1 {
      AffectedComplete(wps, modified, loc, n - 1, j);
    }
  }

  /** One affected waypoint's edits; the window moves with the delay only while nothing is modified yet. */
  function ApplyEdit(p: Progress, idx: nat, s: Suggestion, loc: Location, sqrt: real -> real): (r: Result<Progress, ResolveError>)
    requires idx < |p.waypoints|
    ensures r.Ok? ==> |r.value.waypoints| == |p.waypoints|
  {
    match EditWaypoint(p.waypoints[idx], s, loc, sqrt)
    case Err(e) => Err(e)
    case Ok(w) =>
      var window := if ParsedDelay(s).Some? && p.modified == {}
                    then Shifted(p.window, DelayMinutes(ParsedDelay(s).value))
                    else p.window;
      Ok(Progress(p.waypoints[idx := w], window, p.modified + {idx}))
  }

  /** The inner loop over the affected waypoints, stopping at the first error. */
  function ApplyAll(p: Progress, cs: seq<(nat, real)>, s: Suggestion, loc: Location, sqrt: real -> real): (r: Result<Progress, ResolveError>)
    requires forall c :: c in cs ==> c.0 < |p.waypoints|
    ensures r.Ok? ==> |r.value.waypoints| == |p.waypoints|
  {
    if cs == [] then Ok(p)
    else
      var init := cs[..|cs| - 1];
      assert forall c :: c in init ==> c in cs;
      match ApplyAll(p, init, s, loc, sqrt)
      case Err(e) => Err(e)
      case Ok(q) => ApplyEdit(q, cs[|cs| - 1].0, s, loc, sqrt)
  }

  /** The fallback's edit: 25 higher, everything else as it was. */
  function Climbed(w: Waypoint): Waypoint {
    w.(z := Some(Altitude(w) + FallbackClimb))
  }

  /** The fallback when nothing is affected: the nearest waypoint climbs 25, unless it was modified before. */
  function Fallback(p: Progress, loc: Location): (r: Result<Progress, ResolveError>)
    ensures r.Ok? ==> |r.value.waypoints| == |p.waypoints|
  {
    if |p.waypoints| == 0 then Err(EmptyMission)
    else
      var k := Nearest(p.waypoints, loc);
      if k in p.modified then Ok(p)
      else
        var w := p.waypoints[k];
        Ok(Progress(p.waypoints[k := Climbed(w)], p.window, p.modified + {k}))
  }

  /** The candidates of one conflict, nearest first. */
  function Candidates(p: Progress, loc: Location): (cs: seq<(nat, real)>)
    ensures forall c :: c in cs ==> c.0 < |p.waypoints|
  {
    SortByDistance(Affected(p.waypoints, p.modified, loc, |p.waypoints|))
  }

  /** One pass of the loop over solutions: the scan (failing on a missing altitude), then the edits or the fallback. */
  function ResolveOne(p: Progress, sol: Solution, sqrt: real -> real): (r: Result<Progress, ResolveError>)
    ensures r.Ok? ==> |r.value.waypoints| == |p.waypoints|
  {
    if !AltitudesReadable(p) then Err(MissingAltitude)
    else
      var loc := sol.conflict.location;
      var cs := Candidates(p, loc);
      if cs == [] then Fallback(p, loc) else ApplyAll(p, cs, sol.suggestion, loc, sqrt)
  }

  /** The loop over the solutions in the order given, stopping at the first error. */
  function RunAll(p: Progress, sols: seq<Solution>, sqrt: real -> real): (r: Result<Progress, ResolveError>)
    ensures r.Ok? ==> |r.value.waypoints| == |p.waypoints|
  {
    if sols == [] then Ok(p)
    else
      match RunAll(p, sols[..|sols| - 1], sqrt)
      case Err(e) => Err(e)
      case Ok(q) => ResolveOne(q, sols[|sols| - 1], sqrt)
  }

  /** The loop's state before the first solution: a copy of the mission, nothing modified. */
  function Start(m: Mission): Progress {
    Progress(m.waypoints, m.window, {})
  }

  /** The resolved mission: solutions sorted by time, every solution applied, then the smoothing pass. */
  function Resolve(m: Mission, sols: seq<Solution>, sqrt: real -> real): (r: Result<Mission, ResolveError>)
    ensures r.Ok? ==> |r.value.waypoints| == |m.waypoints|
  {
    match RunAll(Start(m), SortSolutions(sols), sqrt)
    case Err(e) => Err(e)
    case Ok(p) => Ok(Mission(Smoothed(p.waypoints, p.modified), p.window))
  }

  // ------------------------------------------------------------ the frame

  /**
   * What the loop may do between two states: keep the length, only grow the
   * modified set, never touch a waypoint that was already modified or is
   * still unmodified, never move a timestamp earlier or change a `time`
   * tick, keep altitudes present, and shift the window at most once, by at
   * least the minimum delay, and only while nothing was modified.
   */
  ghost predicate Evolves(p: Progress, q: Progress) {
    && |q.waypoints| == |p.waypoints|
    && p.modified <= q.modified
    && (forall j :: j in q.modified - p.modified ==> j < |p.waypoints|)
    && (forall j :: 0 <= j < |p.waypoints| && (j in p.modified || j !in q.modified) ==> q.waypoints[j] == p.waypoints[j])
    && (forall j :: 0 <= j < |p.waypoints| ==>
          q.waypoints[j].timestamp >= p.waypoints[j].timestamp && q.waypoints[j].tick == p.waypoints[j].tick)
    && (AllAltitudesPresent(p.waypoints) ==> AllAltitudesPresent(q.waypoints))
    && (q.window == p.window || (p.modified == {} && q.modified != {} && exists d :: d >= MinDelay && q.window == Shifted(p.window, d)))
  }

  lemma EvolvesTransitive(p: Progress, q: Progress, r: Progress)
    requires Evolves(p, q) && Evolves(q, r)
    ensures Evolves(p, r)
  {
    forall j | j in r.modified - p.modified ensures j < |p.waypoints| {
      if j !in q.modified {
        assert j in r.modified - q.modified;
      } else {
        assert j in q.modified - p.modified;
      }
    }
    if r.window != p.window {
      if q.window == p.window {
        assert p.modified == {};
      } else {
        assert r.window == q.window;
      }
    }
  }

  /** A single edit fails exactly when the path point sits on the conflict. */
  lemma ApplyEditFails(p: Progress, idx: nat, s: Suggestion, loc: Location, sqrt: real -> real)
    requires IsSqrt(sqrt)
    requires idx < |p.waypoints|
    ensures var r := ApplyEdit(p, idx, s, loc, sqrt);
      && (r.Err? <==> ParsedPath(s) == Some((loc.x, loc.y)))
      && (r.Err? ==> r.error == DegeneratePath)
  {
    EditEffects(p.waypoints[idx], ParsedAltitude(s), ParsedPath(s), ParsedDelay(s), loc, sqrt);
  }

  /** A successful single edit keeps the frame and marks exactly its waypoint. */
  lemma ApplyEditEvolves(p: Progress, idx: nat, s: Suggestion, loc: Location, sqrt: real -> real)
    requires IsSqrt(sqrt)
    requires idx < |p.waypoints| && idx !in p.modified
    ensures var r := ApplyEdit(p, idx, s, loc, sqrt);
      r.Ok? ==> Evolves(p, r.value) && r.value.modified == p.modified + {idx}
  {
    var r := ApplyEdit(p, idx, s, loc, sqrt);
    if r.Ok? {
      var old_w := p.waypoints[idx];
      EditEffects(old_w, ParsedAltitude(s), ParsedPath(s), ParsedDelay(s), loc, sqrt);
      var w := EditWaypoint(old_w, s, loc, sqrt).value;
      assert r.value.waypoints == p.waypoints[idx := w];
      assert w.timestamp >= old_w.timestamp && w.tick == old_w.tick;
      assert old_w.z.Some? ==> w.z.Some?;
      if r.value.window != p.window {
        assert r.value.window == Shifted(p.window, DelayMinutes(ParsedDelay(s).value));
      }
    }
  }

  /** After a successful single edit its waypoint is the edited one, and the window moved if this is the first delay. */
  lemma ApplyEditResult(p: Progress, idx: nat, s: Suggestion, loc: Location, sqrt: real -> real)
    requires idx < |p.waypoints|
    ensures var r := ApplyEdit(p, idx, s, loc, sqrt);
      r.Ok? ==>
        && Ok(r.value.waypoints[idx]) == EditWaypoint(p.waypoints[idx], s, loc, sqrt)
        && (ParsedDelay(s).Some? && p.modified == {} ==> r.value.window == Shifted(p.window, DelayMinutes(ParsedDelay(s).value)))
  {
  }

  function CandidateIndices(cs: seq<(nat, real)>): set<nat> {
    set c | c in cs :: c.0
  }

  /** The inner loop fails exactly when there is a candidate and the path point sits on the conflict. */
  lemma {:induction false} ApplyAllFails(p: Progress, cs: seq<(nat, real)>, s: Suggestion, loc: Location, sqrt: real -> real)
    requires IsSqrt(sqrt)
    requires forall c :: c in cs ==> c.0 < |p.waypoints| && c.0 !in p.modified
    requires DistinctIndices(cs)
    ensures var r := ApplyAll(p, cs, s, loc, sqrt);
      && (r.Err? <==> cs != [] && ParsedPath(s) == Some((loc.x, loc.y)))
      && (r.Err? ==> r.error == DegeneratePath)
  {
    if cs != [] {
      var init, last := cs[..|cs| - 1], cs[|cs| - 1];
      assert forall c :: c in init ==> c in cs;
      ApplyAllFails(p, init, s, loc, sqrt);
      var mid := ApplyAll(p, init, s, loc, sqrt);
      if mid.Ok? {
        ApplyAllEvolves(p, init, s, loc, sqrt);
        var q := mid.value;
        ApplyEditFails(q, last.0, s, loc, sqrt);
      }
    }
  }

  /** A successful inner loop keeps the frame, and exactly the candidates join the modified set. */
  lemma {:induction false} ApplyAllEvolves(p: Progress, cs: seq<(nat, real)>, s: Suggestion, loc: Location, sqrt: real -> real)
    requires IsSqrt(sqrt)
    requires forall c :: c in cs ==> c.0 < |p.waypoints| && c.0 !in p.modified
    requires DistinctIndices(cs)
    ensures var r := ApplyAll(p, cs, s, loc, sqrt);
      r.Ok? ==> Evolves(p, r.value) && r.value.modified == p.modified + CandidateIndices(cs)
  {
    var r := ApplyAll(p, cs, s, loc, sqrt);
    if cs != [] && r.Ok? {
      var init, last := cs[..|cs| - 1], cs[|cs| - 1];
      assert forall c :: c in init ==> c in cs;
      ApplyAllEvolves(p, init, s, loc, sqrt);
      var q := ApplyAll(p, init, s, loc, sqrt).value;
      LastCandidateIsFresh(p, cs, q);
      ApplyEditEvolves(q, last.0, s, loc, sqrt);
      EvolvesTransitive(p, q, r.value);
      CandidateIndicesOfLast(cs);
    }
  }

  lemma CandidateIndicesOfLast(cs: seq<(nat, real)>)
    requires cs != []
    ensures CandidateIndices(cs) == CandidateIndices(cs[..|cs| - 1]) + {cs[|cs| - 1].0}
  {
    assert cs == cs[..|cs| - 1] + [cs[|cs| - 1]];
  }

  /** The last candidate's waypoint was not modified by the earlier candidates. */
  lemma LastCandidateIsFresh(p: Progress, cs: seq<(nat, real)>, q: Progress)
    requires cs != [] && DistinctIndices(cs)
    requires forall c :: c in cs ==> c.0 !in p.modified
    requires q.modified == p.modified + CandidateIndices(cs[..|cs| - 1])
    ensures cs[|cs| - 1].0 !in q.modified
  {
    var init, last := cs[..|cs| - 1], cs[|cs| - 1];
    forall c | c in init ensures c.0 != last.0 {
      var m :| 0 <= m < |init| && init[m] == c;
      assert cs[m] == c;
    }
  }

  /** After a successful inner loop each candidate waypoint is its edited version. */
  lemma {:induction false} ApplyAllEdits(p: Progress, cs: seq<(nat, real)>, s: Suggestion, loc: Location, sqrt: real -> real)
    requires IsSqrt(sqrt)
    requires forall c :: c in cs ==> c.0 < |p.waypoints| && c.0 !in p.modified
    requires DistinctIndices(cs)
    ensures var r := ApplyAll(p, cs, s, loc, sqrt);
      r.Ok? ==> forall c :: c in cs ==> Ok(r.value.waypoints[c.0]) == EditWaypoint(p.waypoints[c.0], s, loc, sqrt)
  {
    var r := ApplyAll(p, cs, s, loc, sqrt);
    if cs != [] && r.Ok? {
      var init, last := cs[..|cs| - 1], cs[|cs| - 1];
      assert forall c :: c in init ==> c in cs;
      ApplyAllEdits(p, init, s, loc, sqrt);
      ApplyAllEvolves(p, init, s, loc, sqrt);
      var q := ApplyAll(p, init, s, loc, sqrt).value;
      LastCandidateIsFresh(p, cs, q);
      ApplyEditEvolves(q, last.0, s, loc, sqrt);
      ApplyEditResult(q, last.0, s, loc, sqrt);
      forall c | c in cs ensures Ok(r.value.waypoints[c.0]) == EditWaypoint(p.waypoints[c.0], s, loc, sqrt) {
        if c in init {
          assert c.0 in q.modified;
        }
      }
    }
  }

  /** The first delay applied while nothing is modified moves the window by the applied delay. */
  lemma {:induction false} ApplyAllWindow(p: Progress, cs: seq<(nat, real)>, s: Suggestion, loc: Location, sqrt: real -> real)
    requires IsSqrt(sqrt)
    requires forall c :: c in cs ==> c.0 < |p.waypoints| && c.0 !in p.modified
    requires DistinctIndices(cs)
    ensures var r := ApplyAll(p, cs, s, loc, sqrt);
      r.Ok? && cs != [] && ParsedDelay(s).Some? && p.modified == {} ==>
        r.value.window == Shifted(p.window, DelayMinutes(ParsedDelay(s).value))
  {
    var r := ApplyAll(p, cs, s, loc, sqrt);
    if cs != [] && r.Ok? {
      var init, last := cs[..|cs| - 1], cs[|cs| - 1];
      assert forall c :: c in init ==> c in cs;
      ApplyAllWindow(p, init, s, loc, sqrt);
      ApplyAllEvolves(p, init, s, loc, sqrt);
      var q := ApplyAll(p, init, s, loc, sqrt).value;
      LastCandidateIsFresh(p, cs, q);
      ApplyEditResult(q, last.0, s, loc, sqrt);
      if init != [] {
        assert init[0].0 in q.modified;
      }
    }
  }

  // ------------------------------------------------------- one solution

  /** The waypoints a conflict at `loc` affects: unmodified and closer than the safety radius. */
  function Near(p: Progress, loc: Location): set<nat> {
    set j: nat | j < |p.waypoints| && j !in p.modified && WithinSquared(SquaredDistanceTo(p.waypoints[j], loc), SafetyRadius)
  }

  /** The candidates are exactly the affected waypoints, each once. */
  lemma CandidatesAreNear(p: Progress, loc: Location)
    ensures CandidateIndices(Candidates(p, loc)) == Near(p, loc)
    ensures DistinctIndices(Candidates(p, loc))
    ensures forall c :: c in Candidates(p, loc) ==> c.0 !in p.modified
  {
    var n := |p.waypoints|;
    var found := Affected(p.waypoints, p.modified, loc, n);
    SortKeepsDistinct(found);
    forall c | c in Candidates(p, loc) ensures c.0 in Near(p, loc) {
      AffectedAreClose(p.waypoints, p.modified, loc, n, c);
    }
    forall j | j in Near(p, loc) ensures j in CandidateIndices(Candidates(p, loc)) {
      AffectedComplete(p.waypoints, p.modified, loc, n, j);
      assert (j, SquaredDistanceTo(p.waypoints[j], loc)) in Candidates(p, loc);
    }
  }

  /** The fallback over a non-empty mission: the nearest waypoint climbs 25 unless already modified. */
  lemma FallbackEffect(p: Progress, loc: Location)
    requires |p.waypoints| > 0
    ensures var k := Nearest(p.waypoints, loc);
      && Fallback(p, loc).Ok?
      && Evolves(p, Fallback(p, loc).value)
      && Fallback(p, loc).value.modified != {}
      && (k in p.modified ==> Fallback(p, loc) == Ok(p))
      && (k !in p.modified ==>
            && Fallback(p, loc).value.modified == p.modified + {k}
            && Fallback(p, loc).value.waypoints[k].z == Some(Altitude(p.waypoints[k]) + FallbackClimb)
            && Fallback(p, loc).value.waypoints[k].x == p.waypoints[k].x
            && Fallback(p, loc).value.waypoints[k].y == p.waypoints[k].y)
  {
  }

  /**
   * One solution fails exactly when an unmodified waypoint has no altitude
   * (the scan's `KeyError`), when the mission has no waypoints (the
   * fallback's `min`), or when it affects some waypoint and its path point
   * sits on the conflict.
   */
  lemma ResolveOneFails(p: Progress, sol: Solution, sqrt: real -> real)
    requires IsSqrt(sqrt)
    ensures var loc := sol.conflict.location;
      var r := ResolveOne(p, sol, sqrt);
      && (r.Err? <==> !AltitudesReadable(p) || |p.waypoints| == 0 || (Near(p, loc) != {} && ParsedPath(sol.suggestion) == Some((loc.x, loc.y))))
      && (!AltitudesReadable(p) ==> r == Err(MissingAltitude))
      && (r.Err? && AltitudesReadable(p) && |p.waypoints| == 0 ==> r.error == EmptyMission)
      && (r.Err? && AltitudesReadable(p) && |p.waypoints| != 0 ==> r.error == DegeneratePath)
  {
    if !AltitudesReadable(p) {
      return;
    }
    var loc := sol.conflict.location;
    var cs := Candidates(p, loc);
    CandidatesAreNear(p, loc);
    if cs == [] {
      assert Near(p, loc) == {};
      if |p.waypoints| > 0 {
        FallbackEffect(p, loc);
      }
    } else {
      assert cs[0].0 in Near(p, loc);
      ApplyAllFails(p, cs, sol.suggestion, loc, sqrt);
    }
  }

  /**
   * A successful pass keeps the frame and leaves something modified; when
   * some waypoint is affected, exactly the affected ones are edited, each
   * from its state before the pass; otherwise the fallback ran.
   */
  lemma ResolveOneEffect(p: Progress, sol: Solution, sqrt: real -> real)
    requires IsSqrt(sqrt)
    ensures var loc := sol.conflict.location;
      var r := ResolveOne(p, sol, sqrt);
      r.Ok? ==>
        && Evolves(p, r.value)
        && (|p.waypoints| > 0 ==> r.value.modified != {})
        && (Near(p, loc) != {} ==>
              && r.value.modified == p.modified + Near(p, loc)
              && forall j :: j in Near(p, loc) ==> Ok(r.value.waypoints[j]) == EditWaypoint(p.waypoints[j], sol.suggestion, loc, sqrt))
        && (Near(p, loc) == {} ==> r == Fallback(p, loc))
  {
    var loc := sol.conflict.location;
    var cs := Candidates(p, loc);
    var r := ResolveOne(p, sol, sqrt);
    CandidatesAreNear(p, loc);
    if cs == [] {
      assert Near(p, loc) == {};
      if |p.waypoints| > 0 {
        FallbackEffect(p, loc);
      }
    } else if r.Ok? {
      ApplyAllEvolves(p, cs, sol.suggestion, loc, sqrt);
      ApplyAllEdits(p, cs, sol.suggestion, loc, sqrt);
      assert cs[0].0 in r.value.modified;
      forall j | j in Near(p, loc)
        ensures Ok(r.value.waypoints[j]) == EditWaypoint(p.waypoints[j], sol.suggestion, loc, sqrt)
      {
        var c :| c in cs && c.0 == j;
      }
    }
  }

  // --------------------------------------------------------- all solutions

  /** The solution's path point sits on its own conflict's horizontal position. */
  predicate PathOnConflict(sol: Solution) {
    ParsedPath(sol.suggestion) == Some((sol.conflict.location.x, sol.conflict.location.y))
  }

  /** Over any number of solutions the frame holds: modified waypoints are never edited again. */
  lemma {:induction false} RunAllEvolves(p: Progress, sols: seq<Solution>, sqrt: real -> real)
    requires IsSqrt(sqrt)
    ensures RunAll(p, sols, sqrt).Ok? ==> Evolves(p, RunAll(p, sols, sqrt).value)
  {
    if sols != [] && RunAll(p, sols, sqrt).Ok? {
      var init := sols[..|sols| - 1];
      RunAllEvolves(p, init, sqrt);
      var q := RunAll(p, init, sqrt).value;
      ResolveOneEffect(q, sols[|sols| - 1], sqrt);
      EvolvesTransitive(p, q, RunAll(p, sols, sqrt).value);
    }
  }

  /** One more solution after a successful prefix is one more pass of `ResolveOne`. */
  lemma RunAllStep(p: Progress, sols: seq<Solution>, k: nat, sqrt: real -> real)
    requires k < |sols| && RunAll(p, sols[..k], sqrt).Ok?
    ensures RunAll(p, sols[..k + 1], sqrt) == ResolveOne(RunAll(p, sols[..k], sqrt).value, sols[k], sqrt)
  {
    assert sols[..k + 1][..k] == sols[..k];
  }

  /** Once a prefix of the solutions has failed, the whole run fails the same way. */
  lemma {:induction false} RunAllStopsAtError(p: Progress, sols: seq<Solution>, k: nat, sqrt: real -> real)
    requires k <= |sols| && RunAll(p, sols[..k], sqrt).Err?
    ensures RunAll(p, sols, sqrt) == RunAll(p, sols[..k], sqrt)
  {
    if k < |sols| {
      var init := sols[..|sols| - 1];
      assert init[..k] == sols[..k];
      RunAllStopsAtError(p, init, k, sqrt);
    } else {
      assert sols[..k] == sols;
    }
  }

  /**
   * The run fails only on a missing altitude that was missing from the
   * start, by the fallback over an empty mission, or by a path point on its
   * own conflict.
   */
  lemma {:induction false} RunAllFails(p: Progress, sols: seq<Solution>, sqrt: real -> real)
    requires IsSqrt(sqrt)
    ensures var r := RunAll(p, sols, sqrt);
      r.Err? ==>
        || (r.error == MissingAltitude && !AllAltitudesPresent(p.waypoints))
        || (r.error == EmptyMission && |p.waypoints| == 0)
        || (r.error == DegeneratePath && exists i :: 0 <= i < |sols| && PathOnConflict(sols[i]))
  {
    if sols != [] {
      var init, last := sols[..|sols| - 1], sols[|sols| - 1];
      RunAllFails(p, init, sqrt);
      var mid := RunAll(p, init, sqrt);
      if mid.Err? {
        if mid.error == DegeneratePath && |p.waypoints| != 0 && AllAltitudesPresent(p.waypoints) {
          var i :| 0 <= i < |init| && PathOnConflict(init[i]);
          assert sols[i] == init[i];
        }
      } else {
        RunAllEvolves(p, init, sqrt);
        ResolveOneFails(mid.value, last, sqrt);
        if ResolveOne(mid.value, last, sqrt).Err? && |p.waypoints| != 0 && AllAltitudesPresent(p.waypoints) {
          assert PathOnConflict(sols[|sols| - 1]);
        }
      }
    }
  }

  /** The first solution meets the untouched mission: a missing altitude or an empty mission fails at once. */
  lemma FirstPassFails(p: Progress, sols: seq<Solution>, sqrt: real -> real)
    requires IsSqrt(sqrt)
    requires sols != [] && p.modified == {}
    ensures !AllAltitudesPresent(p.waypoints) ==> RunAll(p, sols, sqrt) == Err(MissingAltitude)
    ensures AllAltitudesPresent(p.waypoints) && |p.waypoints| == 0 ==> RunAll(p, sols, sqrt) == Err(EmptyMission)
  {
    assert sols[..1][..0] == [];
    ResolveOneFails(p, sols[0], sqrt);
    if !AllAltitudesPresent(p.waypoints) || |p.waypoints| == 0 {
      RunAllStopsAtError(p, sols, 1, sqrt);
    }
  }

  // ------------------------------------------------------------ the result

  /** Smoothing with nothing modified changes nothing. */
  lemma SmoothingNothing(wps: seq<Waypoint>)
    ensures Smoothed(wps, {}) == wps
  {
    forall j | 0 <= j < |wps| ensures Smoothed(wps, {})[j] == wps[j] {
      SmoothingEffects(wps, {}, j);
    }
  }

  /** Without solutions the resolved mission is the input mission. */
  lemma ResolveWithoutSolutions(m: Mission, sqrt: real -> real)
    ensures Resolve(m, [], sqrt) == Ok(m)
  {
    SmoothingNothing(m.waypoints);
  }

  /**
   * The resolved mission has as many waypoints as the input; no timestamp
   * moves earlier and no `time` tick or altitude presence is lost; the
   * window is either unchanged or shifted once by at least the minimum
   * delay.
   */
  lemma ResolveOutcome(m: Mission, sols: seq<Solution>, sqrt: real -> real)
    requires IsSqrt(sqrt)
    ensures var r := Resolve(m, sols, sqrt);
      r.Ok? ==>
        && |r.value.waypoints| == |m.waypoints|
        && (forall j :: 0 <= j < |m.waypoints| ==>
              r.value.waypoints[j].timestamp >= m.waypoints[j].timestamp && r.value.waypoints[j].tick == m.waypoints[j].tick)
        && (AllAltitudesPresent(m.waypoints) ==> AllAltitudesPresent(r.value.waypoints))
        && (r.value.window == m.window || exists d :: d >= MinDelay && r.value.window == Shifted(m.window, d))
  {
    var init := Start(m);
    var ordered := SortSolutions(sols);
    RunAllEvolves(init, ordered, sqrt);
    var r := Resolve(m, sols, sqrt);
    if r.Ok? {
      var q := RunAll(init, ordered, sqrt).value;
      forall j | 0 <= j < |m.waypoints|
        ensures r.value.waypoints[j].timestamp >= m.waypoints[j].timestamp && r.value.waypoints[j].tick == m.waypoints[j].tick
      {
        SmoothingEffects(q.waypoints, q.modified, j);
      }
      if AllAltitudesPresent(m.waypoints) {
        forall j | 0 <= j < |m.waypoints| ensures r.value.waypoints[j].z.Some? {
          SmoothingEffects(q.waypoints, q.modified, j);
        }
      }
    }
  }

  /** Nothing changes in zero steps. */
  lemma EvolvesReflexive(p: Progress)
    ensures Evolves(p, p)
  {
  }

  /**
   * From the state after any prefix of the solutions to the final state the
   * frame holds: a waypoint modified by then is never edited again.
   */
  lemma {:induction false} RunAllFrom(p: Progress, sols: seq<Solution>, k: nat, sqrt: real -> real)
    requires IsSqrt(sqrt)
    requires k <= |sols| && RunAll(p, sols, sqrt).Ok?
    ensures RunAll(p, sols[..k], sqrt).Ok?
    ensures Evolves(RunAll(p, sols[..k], sqrt).value, RunAll(p, sols, sqrt).value)
  {
    if k == |sols| {
      assert sols[..k] == sols;
      EvolvesReflexive(RunAll(p, sols, sqrt).value);
    } else {
      var init := sols[..|sols| - 1];
      assert init[..k] == sols[..k];
      RunAllFrom(p, init, k, sqrt);
      var q := RunAll(p, init, sqrt).value;
      ResolveOneEffect(q, sols[|sols| - 1], sqrt);
      EvolvesTransitive(RunAll(p, sols[..k], sqrt).value, q, RunAll(p, sols, sqrt).value);
    }
  }

  /** The state just before the `k`-th solution in time order, when the run gets that far. */
  function Before(m: Mission, sols: seq<Solution>, k: nat, sqrt: real -> real): Result<Progress, ResolveError>
    requires k <= |SortSolutions(sols)|
  {
    RunAll(Start(m), SortSolutions(sols)[..k], sqrt)
  }

  /**
   * One pass seen from the start: a waypoint the pass finds affected still
   * holds its starting values, so the pass leaves it as the edit of those;
   * and whatever follows the pass never touches it again.
   */
  lemma EditedOnce(p0: Progress, before: Progress, sol: Solution, q: Progress, sqrt: real -> real, j: nat)
    requires IsSqrt(sqrt)
    requires Evolves(p0, before) && p0.modified == {}
    requires ResolveOne(before, sol, sqrt).Ok? && Evolves(ResolveOne(before, sol, sqrt).value, q)
    requires j in Near(before, sol.conflict.location)
    ensures j < |p0.waypoints| == |q.waypoints| && j in q.modified
    ensures Ok(q.waypoints[j]) == EditWaypoint(p0.waypoints[j], sol.suggestion, sol.conflict.location, sqrt)
  {
    ResolveOneEffect(before, sol, sqrt);
  }

  /**
   * One fallback seen from the start: the nearest waypoint, when still
   * unmodified, climbs 25 from its starting altitude, and whatever follows
   * never touches it again.
   */
  lemma FallbackOnce(p0: Progress, before: Progress, sol: Solution, q: Progress, sqrt: real -> real)
    requires IsSqrt(sqrt)
    requires Evolves(p0, before) && p0.modified == {}
    requires ResolveOne(before, sol, sqrt).Ok? && Evolves(ResolveOne(before, sol, sqrt).value, q)
    requires |before.waypoints| > 0 && Near(before, sol.conflict.location) == {}
    requires Nearest(before.waypoints, sol.conflict.location) !in before.modified
    ensures var n := Nearest(before.waypoints, sol.conflict.location);
      && n < |p0.waypoints| == |q.waypoints| && n in q.modified
      && q.waypoints[n] == Climbed(p0.waypoints[n])
  {
    var loc := sol.conflict.location;
    var r := ResolveOne(before, sol, sqrt).value;
    var n := Nearest(before.waypoints, loc);
    ResolveOneEffect(before, sol, sqrt);
    FallbackEffect(before, loc);
    assert n in r.modified && r.waypoints[n] == Climbed(before.waypoints[n]);
    assert before.waypoints[n] == p0.waypoints[n];
  }

  /** The run up to and past the `k`-th solution, as the two lemmas above need it. */
  lemma AroundStep(p0: Progress, sols: seq<Solution>, sqrt: real -> real, k: nat)
    requires IsSqrt(sqrt)
    requires RunAll(p0, sols, sqrt).Ok?
    requires k < |sols|
    ensures RunAll(p0, sols[..k], sqrt).Ok?
    ensures Evolves(p0, RunAll(p0, sols[..k], sqrt).value)
    ensures ResolveOne(RunAll(p0, sols[..k], sqrt).value, sols[k], sqrt).Ok?
    ensures Evolves(ResolveOne(RunAll(p0, sols[..k], sqrt).value, sols[k], sqrt).value, RunAll(p0, sols, sqrt).value)
  {
    RunAllFrom(p0, sols, k, sqrt);
    RunAllFrom(p0, sols, k + 1, sqrt);
    RunAllEvolves(p0, sols[..k], sqrt);
    RunAllStep(p0, sols, k, sqrt);
  }

  /** Over a whole run: a waypoint edited by the `k`-th solution ends as the edit of its starting values. */
  lemma RunEditsOnce(p0: Progress, sols: seq<Solution>, sqrt: real -> real, k: nat, j: nat)
    requires IsSqrt(sqrt) && p0.modified == {}
    requires RunAll(p0, sols, sqrt).Ok?
    requires k < |sols| && RunAll(p0, sols[..k], sqrt).Ok?
    requires j in Near(RunAll(p0, sols[..k], sqrt).value, sols[k].conflict.location)
    ensures var q := RunAll(p0, sols, sqrt).value;
      && j < |p0.waypoints| == |q.waypoints| && j in q.modified
      && Ok(q.waypoints[j]) == EditWaypoint(p0.waypoints[j], sols[k].suggestion, sols[k].conflict.location, sqrt)
  {
    AroundStep(p0, sols, sqrt, k);
    EditedOnce(p0, RunAll(p0, sols[..k], sqrt).value, sols[k], RunAll(p0, sols, sqrt).value, sqrt, j);
  }

  /** Over a whole run: the waypoint a fallback of the `k`-th solution climbs ends 25 above its starting altitude. */
  lemma RunFallsBackOnce(p0: Progress, sols: seq<Solution>, sqrt: real -> real, k: nat)
    requires IsSqrt(sqrt) && p0.modified == {}
    requires RunAll(p0, sols, sqrt).Ok?
    requires k < |sols| && RunAll(p0, sols[..k], sqrt).Ok?
    requires var before := RunAll(p0, sols[..k], sqrt).value;
      && |before.waypoints| > 0
      && Near(before, sols[k].conflict.location) == {}
      && Nearest(before.waypoints, sols[k].conflict.location) !in before.modified
    ensures var q := RunAll(p0, sols, sqrt).value;
      var n := Nearest(RunAll(p0, sols[..k], sqrt).value.waypoints, sols[k].conflict.location);
      && n < |p0.waypoints| == |q.waypoints| && n in q.modified
      && q.waypoints[n] == Climbed(p0.waypoints[n])
  {
    AroundStep(p0, sols, sqrt, k);
    FallbackOnce(p0, RunAll(p0, sols[..k], sqrt).value, sols[k], RunAll(p0, sols, sqrt).value, sqrt);
  }

  /** A modified waypoint leaves smoothing as it entered. */
  lemma ResolvedKeepsModified(m: Mission, sols: seq<Solution>, sqrt: real -> real, j: nat)
    requires Resolve(m, sols, sqrt).Ok?
    requires j in RunAll(Start(m), SortSolutions(sols), sqrt).value.modified
    requires j < |m.waypoints|
    ensures Resolve(m, sols, sqrt).value.waypoints[j] == RunAll(Start(m), SortSolutions(sols), sqrt).value.waypoints[j]
  {
    var q := RunAll(Start(m), SortSolutions(sols), sqrt).value;
    SmoothingEffects(q.waypoints, q.modified, j);
  }

  /**
   * The separation minimums in the resolved mission: a waypoint that the
   * `k`-th solution (in time order) found within the safety radius of its
   * conflict ends up as that solution's edit of its ORIGINAL values, never
   * touched again, not even by smoothing. So it keeps 20 of altitude from
   * the conflict when an altitude was read, 10 of horizontal distance when
   * a path was read, and is at least 5 minutes later than planned when a
   * delay was read; a value not read leaves its part of the waypoint as
   * planned.
   */
  lemma ResolvedEditsKeepSeparation(m: Mission, sols: seq<Solution>, sqrt: real -> real, k: nat, j: nat)
    requires IsSqrt(sqrt)
    requires Resolve(m, sols, sqrt).Ok?
    requires k < |SortSolutions(sols)| && Before(m, sols, k, sqrt).Ok?
    requires j in Near(Before(m, sols, k, sqrt).value, SortSolutions(sols)[k].conflict.location)
    ensures j < |m.waypoints|
    ensures var sol := SortSolutions(sols)[k];
      var loc := sol.conflict.location;
      var w := Resolve(m, sols, sqrt).value.waypoints[j];
      && Ok(w) == EditWaypoint(m.waypoints[j], sol.suggestion, loc, sqrt)
      && (ParsedAltitude(sol.suggestion).Some? ==> w.z.Some? && Abs(w.z.value - loc.z) >= MinVerticalSeparation)
      && (ParsedAltitude(sol.suggestion).None? ==> w.z == m.waypoints[j].z)
      && (ParsedPath(sol.suggestion).Some? ==> HorizontallySeparated(w, loc))
      && (ParsedPath(sol.suggestion).None? ==> w.x == m.waypoints[j].x && w.y == m.waypoints[j].y)
      && (ParsedDelay(sol.suggestion).Some? ==> w.timestamp >= m.waypoints[j].timestamp + MinDelay)
      && (ParsedDelay(sol.suggestion).None? ==> w.timestamp == m.waypoints[j].timestamp)
  {
    var sol := SortSolutions(sols)[k];
    RunEditsOnce(Start(m), SortSolutions(sols), sqrt, k, j);
    ResolvedKeepsModified(m, sols, sqrt, j);
    EditEffects(m.waypoints[j], ParsedAltitude(sol.suggestion), ParsedPath(sol.suggestion), ParsedDelay(sol.suggestion),
                sol.conflict.location, sqrt);
  }

  /**
   * The fallback in the resolved mission: when the `k`-th solution affects
   * no waypoint and the nearest waypoint was not modified before, that
   * waypoint ends 25 above its planned altitude, otherwise as planned.
   */
  lemma ResolvedFallbackClimbs(m: Mission, sols: seq<Solution>, sqrt: real -> real, k: nat)
    requires IsSqrt(sqrt)
    requires Resolve(m, sols, sqrt).Ok?
    requires k < |SortSolutions(sols)| && Before(m, sols, k, sqrt).Ok?
    requires var before := Before(m, sols, k, sqrt).value;
      var loc := SortSolutions(sols)[k].conflict.location;
      && |before.waypoints| > 0
      && Near(before, loc) == {}
      && Nearest(before.waypoints, loc) !in before.modified
    ensures var n := Nearest(Before(m, sols, k, sqrt).value.waypoints, SortSolutions(sols)[k].conflict.location);
      && n < |m.waypoints|
      && Resolve(m, sols, sqrt).value.waypoints[n] == Climbed(m.waypoints[n])
  {
    var sol := SortSolutions(sols)[k];
    var before := Before(m, sols, k, sqrt).value;
    RunFallsBackOnce(Start(m), SortSolutions(sols), sqrt, k);
    ResolvedKeepsModified(m, sols, sqrt, Nearest(before.waypoints, sol.conflict.location));
  }

  /**
   * How creating the resolved mission fails: a missing altitude exactly
   * when there is a solution and some waypoint lacks `z`; the fallback's
   * empty `min` exactly when there is a solution and no waypoint; a
   * division by zero only for a solution whose path point sits on its own
   * conflict; and never on the ordering of the solutions.
   */
  lemma ResolveFails(m: Mission, sols: seq<Solution>, sqrt: real -> real)
    requires IsSqrt(sqrt)
    ensures var r := Resolve(m, sols, sqrt);
      && (r == Err(MissingAltitude) <==> sols != [] && !AllAltitudesPresent(m.waypoints))
      && (r == Err(EmptyMission) <==> sols != [] && |m.waypoints| == 0)
      && (r == Err(DegeneratePath) ==> exists sol :: sol in sols && PathOnConflict(sol))
      && r != Err(UnorderableTimes)
  {
    var init := Start(m);
    var ordered := SortSolutions(sols);
    RunAllFails(init, ordered, sqrt);
    assert |ordered| == |sols| by {
      assert |multiset(ordered)| == |multiset(sols)|;
    }
    if sols != [] {
      FirstPassFails(init, ordered, sqrt);
    }
    var r := RunAll(init, ordered, sqrt);
    if r.Err? && r.error == DegeneratePath {
      var i :| 0 <= i < |ordered| && PathOnConflict(ordered[i]);
      assert ordered[i] in multiset(sols);
    }
  }

  /** One more candidate after a successful prefix is one more edit. */
  lemma ApplyAllStep(p: Progress, cs: seq<(nat, real)>, k: nat, s: Suggestion, loc: Location, sqrt: real -> real)
    requires k < |cs|
    requires forall c :: c in cs[..k + 1] ==> c.0 < |p.waypoints|
    requires ApplyAll(p, cs[..k], s, loc, sqrt).Ok?
    ensures ApplyAll(p, cs[..k + 1], s, loc, sqrt) == ApplyEdit(ApplyAll(p, cs[..k], s, loc, sqrt).value, cs[k].0, s, loc, sqrt)
  {
    assert cs[..k + 1][..k] == cs[..k];
    assert cs[..k + 1][k] == cs[k];
  }

  /** Once a prefix of the candidates has failed, the whole inner loop fails the same way. */
  lemma {:induction false} ApplyAllStopsAtError(p: Progress, cs: seq<(nat, real)>, k: nat, s: Suggestion, loc: Location, sqrt: real -> real)
    requires forall c :: c in cs ==> c.0 < |p.waypoints|
    requires k <= |cs|
    requires forall c :: c in cs[..k] ==> c.0 < |p.waypoints|
    requires ApplyAll(p, cs[..k], s, loc, sqrt).Err?
    ensures ApplyAll(p, cs, s, loc, sqrt) == ApplyAll(p, cs[..k], s, loc, sqrt)
  {
    if k < |cs| {
      var init := cs[..|cs| - 1];
      assert init[..k] == cs[..k];
      assert forall c :: c in init ==> c in cs;
      ApplyAllStopsAtError(p, init, k, s, loc, sqrt);
    } else {
      assert cs[..k] == cs;
    }
  }

  // ------------------------------------------------------ the in-place pass

  /**
   * The scan of one conflict over the waypoint list: the unmodified
   * waypoints closer than the safety radius, in index order; reading the
   * altitude of an unmodified waypoint that has none fails.
   */
  method CollectAffected(wps: array<Waypoint>, modified: set<nat>, loc: Location) returns (r: Result<seq<(nat, real)>, ResolveError>)
    ensures (exists j :: 0 <= j < wps.Length && j !in modified && wps[j].z.None?) ==> r == Err(MissingAltitude)
    ensures (forall j :: 0 <= j < wps.Length && j !in modified ==> wps[j].z.Some?) ==>
      r == Ok(Affected(wps[..], modified, loc, wps.Length))
  {
    var found: seq<(nat, real)> := [];
    var j := 0;
    while j < wps.Length
      invariant 0 <= j <= wps.Length
      invariant forall i :: 0 <= i < j && i !in modified ==> wps[i].z.Some?
      invariant found == Affected(wps[..], modified, loc, j)
    {
      if j !in modified {
        if wps[j].z.None? {
          return Err(MissingAltitude);
        }
        var d2 := SquaredDistanceTo(wps[j], loc);
        if WithinSquared(d2, SafetyRadius) {
          found := found + [(j, d2)];
        }
      }
      j := j + 1;
    }
    return Ok(found);
  }

  /** `min(range(n), key=distance)` as a scan that keeps the first least distance. */
  method NearestIndex(wps: array<Waypoint>, loc: Location) returns (k: nat)
    requires wps.Length > 0
    ensures k == Nearest(wps[..], loc)
  {
    k := 0;
    var i := 1;
    assert wps[..1] == [wps[0]];
    while i < wps.Length
      invariant 1 <= i <= wps.Length
      invariant k == Nearest(wps[..i], loc)
    {
      assert wps[..i + 1][..i] == wps[..i];
      if SquaredDistanceTo(wps[i], loc) < SquaredDistanceTo(wps[k], loc) {
        k := i;
      }
      i := i + 1;
    }
    assert wps[..i] == wps[..];
  }

  /** The inner loop in place: each candidate waypoint is edited and marked, the first delay moves the window. */
  method ApplyCandidates(wps: array<Waypoint>, cs: seq<(nat, real)>, s: Suggestion, loc: Location, sqrt: real -> real,
                         window: Window, modified: set<nat>)
    returns (err: Option<ResolveError>, newWindow: Window, newModified: set<nat>)
    requires forall c :: c in cs ==> c.0 < wps.Length
    modifies wps
    ensures err.None? ==>
      ApplyAll(Progress(old(wps[..]), window, modified), cs, s, loc, sqrt) == Ok(Progress(wps[..], newWindow, newModified))
    ensures err.Some? ==>
      ApplyAll(Progress(old(wps[..]), window, modified), cs, s, loc, sqrt) == Err(err.value)
  {
    ghost var start := Progress(wps[..], window, modified);
    newWindow, newModified := window, modified;
    var i := 0;
    while i < |cs|
      invariant 0 <= i <= |cs|
      invariant forall c :: c in cs[..i] ==> c.0 < |start.waypoints|
      invariant ApplyAll(start, cs[..i], s, loc, sqrt) == Ok(Progress(wps[..], newWindow, newModified))
    {
      var idx := cs[i].0;
      assert cs[i] in cs;
      assert forall c :: c in cs[..i + 1] ==> c in cs;
      ApplyAllStep(start, cs, i, s, loc, sqrt);
      var edited := EditWaypoint(wps[idx], s, loc, sqrt);
      if edited.Err? {
        ApplyAllStopsAtError(start, cs, i + 1, s, loc, sqrt);
        return Some(edited.error), newWindow, newModified;
      }
      if ParsedDelay(s).Some? && newModified == {} {
        newWindow := Shifted(newWindow, DelayMinutes(ParsedDelay(s).value));
      }
      wps[idx] := edited.value;
      newModified := newModified + {idx};
      i := i + 1;
    }
    assert cs[..i] == cs;
    err := None;
  }

  /** The smoothing loop in place; it reads only waypoints it never writes. */
  method SmoothInPlace(wps: array<Waypoint>, modified: set<nat>)
    modifies wps
    ensures wps[..] == Smoothed(old(wps[..]), modified)
  {
    if wps.Length == 0 {
      return;
    }
    var i := 0;
    while i + 1 < wps.Length
      invariant 0 <= i < wps.Length
      invariant forall j :: 0 <= j <= i ==> wps[j] == SmoothedAt(old(wps[..]), modified, j)
      invariant forall j :: i < j < wps.Length ==> wps[j] == old(wps[j])
    {
      if i in modified && i + 1 !in modified {
        var curr, next := wps[i], wps[i + 1];
        if Abs(Altitude(curr) - Altitude(next)) > SmoothingThreshold {
          wps[i + 1] := next.(z := Some((Altitude(curr) + Altitude(next)) / 2.0));
        }
      }
      i := i + 1;
    }
  }

  /** The fallback in place: the nearest waypoint climbs unless it was modified before. */
  method FallbackInPlace(wps: array<Waypoint>, loc: Location, window: Window, modified: set<nat>) returns (newModified: set<nat>)
    requires wps.Length > 0
    modifies wps
    ensures Fallback(Progress(old(wps[..]), window, modified), loc) == Ok(Progress(wps[..], window, newModified))
  {
    var near := NearestIndex(wps, loc);
    newModified := modified;
    if near !in modified {
      wps[near] := wps[near].(z := Some(Altitude(wps[near]) + FallbackClimb));
      newModified := modified + {near};
    }
  }

  /** One pass of the loop over solutions, in place: the scan, then the inner loop or the fallback. */
  method ResolveOneInPlace(wps: array<Waypoint>, sol: Solution, sqrt: real -> real, window: Window, modified: set<nat>)
    returns (err: Option<ResolveError>, newWindow: Window, newModified: set<nat>)
    modifies wps
    ensures err.None? ==> ResolveOne(Progress(old(wps[..]), window, modified), sol, sqrt) == Ok(Progress(wps[..], newWindow, newModified))
    ensures err.Some? ==> ResolveOne(Progress(old(wps[..]), window, modified), sol, sqrt) == Err(err.value)
  {
    newWindow, newModified := window, modified;
    var loc := sol.conflict.location;
    var scan := CollectAffected(wps, modified, loc);
    if scan.Err? {
      return Some(MissingAltitude), newWindow, newModified;
    }
    var cs := SortByDistance(scan.value);
    if cs == [] {
      if wps.Length == 0 {
        return Some(EmptyMission), newWindow, newModified;
      }
      newModified := FallbackInPlace(wps, loc, window, modified);
      err := None;
    } else {
      err, newWindow, newModified := ApplyCandidates(wps, cs, sol.suggestion, loc, sqrt, window, modified);
    }
  }

  /**
   * `create_resolved_mission`: copies the waypoints into a fresh array,
   * sorts the solutions by time, applies each one in place and smooths the
   * result; it yields exactly `Resolve`.
   */
  method CreateResolvedMission(primary: Mission, solutions: seq<Solution>, sqrt: real -> real)
    returns (r: Result<Mission, ResolveError>)
    ensures r == Resolve(primary, solutions, sqrt)
  {
    var n := |primary.waypoints|;
    var wps := new Waypoint[n](i requires 0 <= i < n => primary.waypoints[i]);
    var window := primary.window;
    var modified: set<nat> := {};
    var ordered := SortSolutions(solutions);
    ghost var init := Progress(primary.waypoints, primary.window, {});
    assert wps[..] == primary.waypoints;
    var k := 0;
    while k < |ordered|
      invariant 0 <= k <= |ordered| && wps.Length == n
      invariant RunAll(init, ordered[..k], sqrt) == Ok(Progress(wps[..], window, modified))
    {
      RunAllStep(init, ordered, k, sqrt);
      var err, newWindow, newModified := ResolveOneInPlace(wps, ordered[k], sqrt, window, modified);
      if err.Some? {
        RunAllStopsAtError(init, ordered, k + 1, sqrt);
        return Err(err.value);
      }
      window, modified := newWindow, newModified;
      k := k + 1;
    }
    assert ordered[..k] == ordered;
    SmoothInPlace(wps, modified);
    r := Ok(Mission(wps[..], window));
  }
}
