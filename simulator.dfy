/**
 * The simulation driver: run both detectors and merge their reports,
 * keeping one conflict per (location, unordered pair of flights) and
 * preferring a conflict that carries a time.
 */
module Simulator {
  import opened Wrappers
  import opened Model
  import SpatialCheck
  import TemporalCheck

  // ------------------------------------------------------------------ keys

  /** Python's `<` on strings: code point by code point, a proper prefix first. */
  predicate LexLess(a: string, b: string) {
    if a == [] then b != []
    else if b == [] then false
    else if a[0] != b[0] then a[0] < b[0]
    else LexLess(a[1..], b[1..])
  }

  /** Two different strings are ordered one way exactly. */
  lemma {:induction false} LexLessTotal(a: string, b: string)
    ensures a != b ==> (LexLess(a, b) <==> !LexLess(b, a))
    ensures !(LexLess(a, b) && LexLess(b, a))
  {
    if a != [] && b != [] && a[0] == b[0] {
      LexLessTotal(a[1..], b[1..]);
      if a != b {
        assert a == [a[0]] + a[1..] && b == [b[0]] + b[1..];
      }
    }
  }

  /** `tuple(sorted([a, b]))`. */
  function SortedPair(a: string, b: string): (r: (string, string))
    ensures !LexLess(r.1, r.0)
    ensures (r.0 == a && r.1 == b) || (r.0 == b && r.1 == a)
  {
    LexLessTotal(a, b);
    if LexLess(b, a) then (b, a) else (a, b)
  }

  /** The two ids in either order give the same sorted pair. */
  lemma SortedPairSymmetric(a: string, b: string)
    ensures SortedPair(a, b) == SortedPair(b, a)
  {
    LexLessTotal(a, b);
  }

  type Key = (Location, (string, string))

  /** The deduplication key: the location and the two flight ids, smaller first. */
  function KeyOf(c: Conflict): (k: Key)
    ensures k.0 == c.location
    ensures k.1 == c.involved || k.1 == (c.involved.1, c.involved.0)
    ensures !LexLess(k.1.1, k.1.0)
  {
    (c.location, SortedPair(c.involved.0, c.involved.1))
  }

  /** Reports that differ only in the order of the two flights collide. */
  lemma SwappedFlightsCollide(c: Conflict)
    ensures KeyOf(c) == KeyOf(c.(involved := (c.involved.1, c.involved.0)))
  {
    SortedPairSymmetric(c.involved.0, c.involved.1);
  }

  // ------------------------------------------------------- the dictionary

  /** Position of the first conflict in `acc` with key `key`. */
  function IndexOfKey(acc: seq<Conflict>, key: Key): (r: Option<nat>)
    ensures r.Some? ==> r.value < |acc| && KeyOf(acc[r.value]) == key
    ensures r.Some? ==> forall p :: 0 <= p < r.value ==> KeyOf(acc[p]) != key
    ensures r.None? ==> forall p :: 0 <= p < |acc| ==> KeyOf(acc[p]) != key
  {
    if acc == [] then None
    else if KeyOf(acc[0]) == key then Some(0)
    else match IndexOfKey(acc[1..], key)
      case None => None
      case Some(p) => Some(p + 1)
  }

  /** Appending a conflict leaves every earlier key where it was and finds a new key at the end. */
  lemma IndexOfKeyAppend(acc: seq<Conflict>, c: Conflict, key: Key)
    ensures IndexOfKey(acc + [c], key) ==
      if IndexOfKey(acc, key).Some? then IndexOfKey(acc, key)
      else if KeyOf(c) == key then Some(|acc|)
      else None
  {
    match IndexOfKey(acc, key)
    case Some(p) =>
      assert (acc + [c])[p] == acc[p];
    case None =>
      assert (acc + [c])[|acc|] == c;
  }

  /** Overwriting a slot with a conflict of the same key finds every key where it was. */
  lemma IndexOfKeyReplace(acc: seq<Conflict>, p: nat, c: Conflict, key: Key)
    requires p < |acc| && KeyOf(c) == KeyOf(acc[p])
    ensures IndexOfKey(acc[p := c], key) == IndexOfKey(acc, key)
  {
    var r, s := IndexOfKey(acc[p := c], key), IndexOfKey(acc, key);
    if r.Some? {
      assert KeyOf(acc[r.value]) == key;
    }
    if s.Some? {
      assert KeyOf(acc[p := c][s.value]) == key;
    }
  }

  /**
   * One pass of the loop body on the list of stored values: a new key is
   * appended; a stored conflict without a time is replaced in place by a
   * timed one; otherwise nothing changes.
   */
  function Step(acc: seq<Conflict>, c: Conflict): (r: seq<Conflict>)
    ensures |r| == |acc| || (|r| == |acc| + 1 && forall p :: 0 <= p < |acc| ==> KeyOf(acc[p]) != KeyOf(c))
    ensures exists p :: 0 <= p < |r| && KeyOf(r[p]) == KeyOf(c)
    ensures forall x :: x in r ==> x in acc || x == c
  {
    match IndexOfKey(acc, KeyOf(c))
    case None =>
      assert (acc + [c])[|acc|] == c;
      acc + [c]
    case Some(p) =>
      if c.time.Some? && acc[p].time.None? then
        assert acc[p := c][p] == c;
        assert forall x :: x in acc[p := c] ==> x in acc || x == c by {
          forall x | x in acc[p := c] ensures x in acc || x == c {
            var i :| 0 <= i < |acc| && acc[p := c][i] == x;
            if i != p { assert acc[i] in acc; }
          }
        }
        acc[p := c]
      else acc
  }

  /** `deduplicate_conflicts` as a fold over the input: never longer than the input, and drawn from it. */
  function Dedupe(cs: seq<Conflict>): (r: seq<Conflict>)
    ensures |r| <= |cs|
    ensures forall x :: x in r ==> x in cs
  {
    if cs == [] then []
    else
      var init := cs[..|cs| - 1];
      assert forall x :: x in init ==> x in cs;
      Step(Dedupe(init), cs[|cs| - 1])
  }

  /** The dictionary `slot` maps each stored key to its position in `values`. */
  ghost predicate SlotsAgree(slot: map<Key, nat>, values: seq<Conflict>) {
    forall key :: IndexOfKey(values, key) == (if key in slot then Some(slot[key]) else None)
  }

  lemma SlotsAgreeAppend(slot: map<Key, nat>, values: seq<Conflict>, c: Conflict)
    requires SlotsAgree(slot, values) && KeyOf(c) !in slot
    ensures SlotsAgree(slot[KeyOf(c) := |values|], values + [c])
  {
    forall k: Key ensures IndexOfKey(values + [c], k) == (if k in slot[KeyOf(c) := |values|] then Some(slot[KeyOf(c) := |values|][k]) else None) {
      IndexOfKeyAppend(values, c, k);
    }
  }

  lemma SlotsAgreeReplace(slot: map<Key, nat>, values: seq<Conflict>, p: nat, c: Conflict)
    requires SlotsAgree(slot, values) && p < |values| && KeyOf(c) == KeyOf(values[p])
    ensures SlotsAgree(slot, values[p := c])
  {
    forall k: Key ensures IndexOfKey(values[p := c], k) == IndexOfKey(values, k) {
      IndexOfKeyReplace(values, p, c, k);
    }
  }

  /** The loop body of `deduplicate_conflicts` on the dictionary's values and key slots. */
  method Insert(unique: seq<Conflict>, slot: map<Key, nat>, c: Conflict) returns (unique': seq<Conflict>, slot': map<Key, nat>)
    requires SlotsAgree(slot, unique)
    ensures unique' == Step(unique, c)
    ensures SlotsAgree(slot', unique')
  {
    var key := KeyOf(c);
    assert IndexOfKey(unique, key) == (if key in slot then Some(slot[key]) else None);
    unique', slot' := unique, slot;
    if key !in slot {
      SlotsAgreeAppend(slot, unique, c);
      slot' := slot[key := |unique|];
      unique' := unique + [c];
    } else if c.time.Some? && unique[slot[key]].time.None? {
      SlotsAgreeReplace(slot, unique, slot[key], c);
      unique' := unique[slot[key] := c];
    }
  }

  /**
   * `deduplicate_conflicts`: the insertion-ordered dictionary is a list of
   * stored values and a map from key to position in that list.
   */
  method DeduplicateConflicts(conflicts: seq<Conflict>) returns (unique: seq<Conflict>)
    ensures unique == Dedupe(conflicts)
  {
    unique := [];
    var slot: map<Key, nat> := map[];
    for i := 0 to |conflicts|
      invariant unique == Dedupe(conflicts[..i])
      invariant SlotsAgree(slot, unique)
    {
      assert conflicts[..i + 1][..i] == conflicts[..i];
      unique, slot := Insert(unique, slot, conflicts[i]);
    }
    assert conflicts[..|conflicts|] == conflicts;
  }

  /** `run_simulation`: spatial reports (buffer 2) first, then temporal ones (buffer 1), merged. */
  method RunSimulation(primary: Mission, others: seq<Flight>) returns (conflicts: seq<Conflict>)
    ensures var fs := AllFlights(primary, others);
      conflicts == Dedupe(SpatialCheck.SpatialConflicts(fs, SpatialCheck.DefaultSafetyBuffer)
                          + TemporalCheck.TemporalConflicts(fs, TemporalCheck.DefaultSafetyBuffer))
  {
    var spatial := SpatialCheck.CheckSpatialConflict(primary, others, SpatialCheck.DefaultSafetyBuffer);
    var temporal := TemporalCheck.CheckTemporalConflict(primary, others, TemporalCheck.DefaultSafetyBuffer);
    conflicts := DeduplicateConflicts(spatial + temporal);
  }

  // ------------------------------------------------ reference definitions

  /** Keys in order of first appearance, each once. */
  function FirstSeenKeys(cs: seq<Conflict>): (ks: seq<Key>)
    ensures forall p, q :: 0 <= p < q < |ks| ==> ks[p] != ks[q]
    ensures forall k :: k in ks <==> exists q :: 0 <= q < |cs| && KeyOf(cs[q]) == k
  {
    if cs == [] then []
    else
      var ks := FirstSeenKeys(cs[..|cs| - 1]);
      var k := KeyOf(cs[|cs| - 1]);
      assert forall q :: 0 <= q < |cs| - 1 ==> cs[..|cs| - 1][q] == cs[q];
      if k in ks then ks else ks + [k]
  }

  /** The keys of a list of conflicts, in list order. */
  function Keys(s: seq<Conflict>): (ks: seq<Key>)
    ensures |ks| == |s| && forall p :: 0 <= p < |s| ==> ks[p] == KeyOf(s[p])
  {
    seq(|s|, p requires 0 <= p < |s| => KeyOf(s[p]))
  }

  /** The first conflict with key `k`, and when `timedOnly`, the first such conflict with a time. */
  function FirstMatch(cs: seq<Conflict>, k: Key, timedOnly: bool): (r: Option<Conflict>)
    ensures r.Some? ==> r.value in cs && KeyOf(r.value) == k && (timedOnly ==> r.value.time.Some?)
    ensures r.None? <==> forall q :: 0 <= q < |cs| ==> !(KeyOf(cs[q]) == k && (timedOnly ==> cs[q].time.Some?))
  {
    if cs == [] then None
    else
      var prev := FirstMatch(cs[..|cs| - 1], k, timedOnly);
      var c := cs[|cs| - 1];
      assert forall q :: 0 <= q < |cs| - 1 ==> cs[..|cs| - 1][q] == cs[q];
      if prev.Some? then prev
      else if KeyOf(c) == k && (timedOnly ==> c.time.Some?) then Some(c)
      else None
  }

  /** The conflict the merge should keep for key `k`: the first timed one, else the first one. */
  function Preferred(cs: seq<Conflict>, k: Key): Option<Conflict> {
    var timed := FirstMatch(cs, k, true);
    if timed.Some? then timed else FirstMatch(cs, k, false)
  }

  // ------------------------------------------------------------ properties

  /** The merged list holds one conflict per key, in the order the keys were first seen. */
  lemma {:induction false} DedupeKeysInFirstSeenOrder(cs: seq<Conflict>)
    ensures Keys(Dedupe(cs)) == FirstSeenKeys(cs)
  {
    if cs != [] {
      var init := cs[..|cs| - 1];
      var acc, c := Dedupe(init), cs[|cs| - 1];
      DedupeKeysInFirstSeenOrder(init);
      match IndexOfKey(acc, KeyOf(c))
      case None =>
        assert KeyOf(c) !in Keys(acc);
        assert Keys(acc + [c]) == Keys(acc) + [KeyOf(c)];
      case Some(p) =>
        assert KeyOf(c) in Keys(acc);
        if c.time.Some? && acc[p].time.None? {
          assert Keys(acc[p := c]) == Keys(acc);
        }
    }
  }

  /** No two merged conflicts share a key. */
  lemma DedupeKeysDistinct(cs: seq<Conflict>)
    ensures forall p, q :: 0 <= p < q < |Dedupe(cs)| ==> KeyOf(Dedupe(cs)[p]) != KeyOf(Dedupe(cs)[q])
  {
    DedupeKeysInFirstSeenOrder(cs);
    var out := Dedupe(cs);
    forall p, q | 0 <= p < q < |out| ensures KeyOf(out[p]) != KeyOf(out[q]) {
      assert Keys(out)[p] == KeyOf(out[p]) && Keys(out)[q] == KeyOf(out[q]);
    }
  }

  /** A key occurs in the merged list exactly when it occurs in the input. */
  lemma DedupeKeepsEveryKey(cs: seq<Conflict>, k: Key)
    ensures (exists p :: 0 <= p < |Dedupe(cs)| && KeyOf(Dedupe(cs)[p]) == k)
        <==> (exists q :: 0 <= q < |cs| && KeyOf(cs[q]) == k)
  {
    DedupeKeysInFirstSeenOrder(cs);
    var out := Dedupe(cs);
    if k in FirstSeenKeys(cs) {
      var p :| 0 <= p < |out| && Keys(out)[p] == k;
      assert KeyOf(out[p]) == k;
    }
    if exists p :: 0 <= p < |out| && KeyOf(out[p]) == k {
      var p :| 0 <= p < |out| && KeyOf(out[p]) == k;
      assert Keys(out)[p] == k;
    }
  }

  /**
   * For every key, the merged list keeps the preferred conflict: the first
   * input with that key that has a time, or the first input with that key
   * when none has.
   */
  lemma {:induction false} DedupeKeepsPreferred(cs: seq<Conflict>, k: Key)
    ensures IndexOfKey(Dedupe(cs), k).None? <==> Preferred(cs, k).None?
    ensures IndexOfKey(Dedupe(cs), k).Some? ==> Preferred(cs, k) == Some(Dedupe(cs)[IndexOfKey(Dedupe(cs), k).value])
  {
    if cs != [] {
      var init := cs[..|cs| - 1];
      var acc, c := Dedupe(init), cs[|cs| - 1];
      DedupeKeepsPreferred(init, k);
      assert FirstMatch(cs, k, true) == if FirstMatch(init, k, true).Some? then FirstMatch(init, k, true)
        else if KeyOf(c) == k && c.time.Some? then Some(c) else None;
      assert FirstMatch(cs, k, false) == if FirstMatch(init, k, false).Some? then FirstMatch(init, k, false)
        else if KeyOf(c) == k then Some(c) else None;
      match IndexOfKey(acc, KeyOf(c))
      case None =>
        IndexOfKeyAppend(acc, c, k);
      case Some(p) =>
        if c.time.Some? && acc[p].time.None? {
          IndexOfKeyReplace(acc, p, c, k);
        }
    }
  }

  /** A key that has a timed conflict in the input keeps a timed conflict in the output. */
  lemma TimedConflictWins(cs: seq<Conflict>, q: nat)
    requires q < |cs| && cs[q].time.Some?
    ensures var r := IndexOfKey(Dedupe(cs), KeyOf(cs[q]));
      r.Some? && Dedupe(cs)[r.value].time.Some?
  {
    var k := KeyOf(cs[q]);
    DedupeKeepsPreferred(cs, k);
    assert FirstMatch(cs, k, true).Some?;
  }

  /** A list whose keys are already distinct is left as it is. */
  lemma {:induction false} DedupeOfDistinct(s: seq<Conflict>)
    requires forall p, q :: 0 <= p < q < |s| ==> KeyOf(s[p]) != KeyOf(s[q])
    ensures Dedupe(s) == s
  {
    if s != [] {
      var init := s[..|s| - 1];
      DedupeOfDistinct(init);
      assert IndexOfKey(init, KeyOf(s[|s| - 1])).None?;
      assert init + [s[|s| - 1]] == s;
    }
  }

  /** Merging twice gives what merging once gives. */
  lemma DedupeIdempotent(cs: seq<Conflict>)
    ensures Dedupe(Dedupe(cs)) == Dedupe(cs)
  {
    DedupeKeysDistinct(cs);
    DedupeOfDistinct(Dedupe(cs));
  }

  /** Every simulation result comes from one of the two detectors, and spatial reports are met first. */
  lemma SimulationDrawsFromDetectors(fs: seq<Flight>, c: Conflict)
    requires c in Dedupe(SpatialCheck.SpatialConflicts(fs, SpatialCheck.DefaultSafetyBuffer)
                         + TemporalCheck.TemporalConflicts(fs, TemporalCheck.DefaultSafetyBuffer))
    ensures c in SpatialCheck.SpatialConflicts(fs, SpatialCheck.DefaultSafetyBuffer)
         || c in TemporalCheck.TemporalConflicts(fs, TemporalCheck.DefaultSafetyBuffer)
  {
  }

  /**
   * No detector report is lost: the key of every spatial or temporal report
   * occurs in the simulation result, and a timed report leaves a timed
   * conflict under its key.
   */
  lemma SimulationCoversDetectors(fs: seq<Flight>, c: Conflict)
    requires c in SpatialCheck.SpatialConflicts(fs, SpatialCheck.DefaultSafetyBuffer)
          || c in TemporalCheck.TemporalConflicts(fs, TemporalCheck.DefaultSafetyBuffer)
    ensures var out := Dedupe(SpatialCheck.SpatialConflicts(fs, SpatialCheck.DefaultSafetyBuffer)
                              + TemporalCheck.TemporalConflicts(fs, TemporalCheck.DefaultSafetyBuffer));
      && IndexOfKey(out, KeyOf(c)).Some?
      && (c.time.Some? ==> out[IndexOfKey(out, KeyOf(c)).value].time.Some?)
  {
    var all := SpatialCheck.SpatialConflicts(fs, SpatialCheck.DefaultSafetyBuffer)
               + TemporalCheck.TemporalConflicts(fs, TemporalCheck.DefaultSafetyBuffer);
    assert c in all;
    var q :| 0 <= q < |all| && all[q] == c;
    DedupeKeepsPreferred(all, KeyOf(c));
    assert FirstMatch(all, KeyOf(c), false).Some?;
    if c.time.Some? {
      TimedConflictWins(all, q);
    }
  }
}
