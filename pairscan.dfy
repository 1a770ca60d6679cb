/**
 * The four nested loops both detectors run: every pair of flights `i < j`,
 * every waypoint `a` of flight `i` against every waypoint `b` of flight `j`,
 * emitting one value at each position where the test holds. The detectors
 * supply the test and the value; what the loops emit is proved here once.
 */
module PairScan {

  /** A position of the loops: flights `i < j`, waypoint `a` of flight `i`, waypoint `b` of flight `j`. */
  datatype Slot = Slot(i: nat, j: nat, a: nat, b: nat)

  /** `t` is a position of the loops over `n` flights, flight `k` having `len(k)` waypoints. */
  predicate InScan(len: nat -> nat, n: nat, t: Slot) {
    t.i < t.j < n && t.a < len(t.i) && t.b < len(t.j)
  }

  /** `s` is visited before `t`: lexicographic order on `(i, j, a, b)`. */
  predicate Before(s: Slot, t: Slot) {
    || s.i < t.i
    || (s.i == t.i && s.j < t.j)
    || (s.i == t.i && s.j == t.j && s.a < t.a)
    || (s.i == t.i && s.j == t.j && s.a == t.a && s.b < t.b)
  }

  /** Strictly increasing in visiting order, so in particular without repetition. */
  predicate Increasing(ss: seq<Slot>) {
    forall p, q :: 0 <= p < q < |ss| ==> Before(ss[p], ss[q])
  }

  /** Innermost loop: waypoint `a` of flight `i` against waypoints `b < m` of flight `j`. */
  function Row<T>(hit: Slot -> bool, val: Slot -> T, i: nat, j: nat, a: nat, m: nat): seq<T> {
    if m == 0 then []
    else Row(hit, val, i, j, a, m - 1) + (if hit(Slot(i, j, a, m - 1)) then [val(Slot(i, j, a, m - 1))] else [])
  }

  /** Waypoints `a < k` of flight `i` against every waypoint of flight `j`. */
  function Cross<T>(len: nat -> nat, hit: Slot -> bool, val: Slot -> T, i: nat, j: nat, k: nat): seq<T> {
    if k == 0 then []
    else Cross(len, hit, val, i, j, k - 1) + Row(hit, val, i, j, k - 1, len(j))
  }

  /** Flight `i` against flights `i + 1 .. k - 1`. */
  function Pairs<T>(len: nat -> nat, hit: Slot -> bool, val: Slot -> T, i: nat, k: nat): seq<T>
    decreases k
  {
    if k <= i + 1 then []
    else Pairs(len, hit, val, i, k - 1) + Cross(len, hit, val, i, k - 1, len(i))
  }

  /** Flights `i < m` against every later flight among the `n`. */
  function Scan<T>(len: nat -> nat, hit: Slot -> bool, val: Slot -> T, n: nat, m: nat): seq<T> {
    if m == 0 then []
    else Scan(len, hit, val, n, m - 1) + Pairs(len, hit, val, m - 1, n)
  }

  function Id(t: Slot): Slot {
    t
  }

  /** The positions at which the loops emit, in the order they emit. */
  function Hits(len: nat -> nat, hit: Slot -> bool, n: nat): seq<Slot> {
    Scan(len, hit, Id, n, n)
  }

  /** `val` applied to every position of `ss`. */
  function Apply<T>(val: Slot -> T, ss: seq<Slot>): (r: seq<T>)
    ensures |r| == |ss|
    ensures forall k :: 0 <= k < |ss| ==> r[k] == val(ss[k])
  {
    seq(|ss|, k requires 0 <= k < |ss| => val(ss[k]))
  }

  lemma ApplyAppend<T>(val: Slot -> T, x: seq<Slot>, y: seq<Slot>)
    ensures Apply(val, x + y) == Apply(val, x) + Apply(val, y)
  {
    assert forall k :: 0 <= k < |x + y| ==> Apply(val, x + y)[k] == (Apply(val, x) + Apply(val, y))[k];
  }

  // ------------------------------------------------------ where it emits

  lemma {:induction false} RowHits(hit: Slot -> bool, i: nat, j: nat, a: nat, m: nat, t: Slot)
    ensures t in Row(hit, Id, i, j, a, m) <==> t.i == i && t.j == j && t.a == a && t.b < m && hit(t)
  {
    if m > 0 {
      RowHits(hit, i, j, a, m - 1, t);
    }
  }

  lemma {:induction false} CrossHits(len: nat -> nat, hit: Slot -> bool, i: nat, j: nat, k: nat, t: Slot)
    ensures t in Cross(len, hit, Id, i, j, k) <==> t.i == i && t.j == j && t.a < k && t.b < len(j) && hit(t)
  {
    if k > 0 {
      var earlier, last := Cross(len, hit, Id, i, j, k - 1), Row(hit, Id, i, j, k - 1, len(j));
      assert Cross(len, hit, Id, i, j, k) == earlier + last;
      CrossHits(len, hit, i, j, k - 1, t);
      RowHits(hit, i, j, k - 1, len(j), t);
    }
  }

  lemma {:induction false} PairsHits(len: nat -> nat, hit: Slot -> bool, i: nat, k: nat, t: Slot)
    ensures t in Pairs(len, hit, Id, i, k) <==> t.i == i && i < t.j < k && t.a < len(i) && t.b < len(t.j) && hit(t)
    decreases k
  {
    if k > i + 1 {
      var earlier, last := Pairs(len, hit, Id, i, k - 1), Cross(len, hit, Id, i, k - 1, len(i));
      assert Pairs(len, hit, Id, i, k) == earlier + last;
      PairsHits(len, hit, i, k - 1, t);
      CrossHits(len, hit, i, k - 1, len(i), t);
    }
  }

  lemma {:induction false} ScanHits(len: nat -> nat, hit: Slot -> bool, n: nat, m: nat, t: Slot)
    ensures t in Scan(len, hit, Id, n, m) <==> t.i < m && InScan(len, n, t) && hit(t)
  {
    if m > 0 {
      var earlier, last := Scan(len, hit, Id, n, m - 1), Pairs(len, hit, Id, m - 1, n);
      assert Scan(len, hit, Id, n, m) == earlier + last;
      ScanHits(len, hit, n, m - 1, t);
      PairsHits(len, hit, m - 1, n, t);
      assert t in last <==> t.i == m - 1 && InScan(len, n, t) && hit(t);
    }
  }

  // ------------------------------------------------ in which order it emits

  lemma IncreasingAppend(x: seq<Slot>, y: seq<Slot>)
    requires Increasing(x) && Increasing(y)
    requires forall u, v :: u in x && v in y ==> Before(u, v)
    ensures Increasing(x + y)
  {
    forall p, q | 0 <= p < q < |x + y|
      ensures Before((x + y)[p], (x + y)[q])
    {
      if q < |x| {
      } else if p >= |x| {
        assert (x + y)[p] == y[p - |x|] && (x + y)[q] == y[q - |x|];
      } else {
        assert (x + y)[p] == x[p] && (x + y)[q] == y[q - |x|];
      }
    }
  }

  lemma {:induction false} RowIncreasing(hit: Slot -> bool, i: nat, j: nat, a: nat, m: nat)
    ensures Increasing(Row(hit, Id, i, j, a, m))
  {
    if m > 0 {
      var earlier := Row(hit, Id, i, j, a, m - 1);
      var last: seq<Slot> := if hit(Slot(i, j, a, m - 1)) then [Slot(i, j, a, m - 1)] else [];
      RowIncreasing(hit, i, j, a, m - 1);
      forall u | u in earlier
        ensures u.i == i && u.j == j && u.a == a && u.b < m - 1
      {
        RowHits(hit, i, j, a, m - 1, u);
      }
      IncreasingAppend(earlier, last);
      assert Row(hit, Id, i, j, a, m) == earlier + last;
    }
  }

  lemma {:induction false} CrossIncreasing(len: nat -> nat, hit: Slot -> bool, i: nat, j: nat, k: nat)
    ensures Increasing(Cross(len, hit, Id, i, j, k))
  {
    if k > 0 {
      var earlier := Cross(len, hit, Id, i, j, k - 1);
      var last := Row(hit, Id, i, j, k - 1, len(j));
      CrossIncreasing(len, hit, i, j, k - 1);
      RowIncreasing(hit, i, j, k - 1, len(j));
      forall u, v | u in earlier && v in last
        ensures Before(u, v)
      {
        CrossHits(len, hit, i, j, k - 1, u);
        RowHits(hit, i, j, k - 1, len(j), v);
      }
      IncreasingAppend(earlier, last);
    }
  }

  lemma {:induction false} PairsIncreasing(len: nat -> nat, hit: Slot -> bool, i: nat, k: nat)
    ensures Increasing(Pairs(len, hit, Id, i, k))
    decreases k
  {
    if k > i + 1 {
      var earlier := Pairs(len, hit, Id, i, k - 1);
      var last := Cross(len, hit, Id, i, k - 1, len(i));
      PairsIncreasing(len, hit, i, k - 1);
      CrossIncreasing(len, hit, i, k - 1, len(i));
      forall u, v | u in earlier && v in last
        ensures Before(u, v)
      {
        PairsHits(len, hit, i, k - 1, u);
        CrossHits(len, hit, i, k - 1, len(i), v);
      }
      IncreasingAppend(earlier, last);
    }
  }

  lemma {:induction false} ScanIncreasing(len: nat -> nat, hit: Slot -> bool, n: nat, m: nat)
    ensures Increasing(Scan(len, hit, Id, n, m))
  {
    if m > 0 {
      var earlier := Scan(len, hit, Id, n, m - 1);
      var last := Pairs(len, hit, Id, m - 1, n);
      ScanIncreasing(len, hit, n, m - 1);
      PairsIncreasing(len, hit, m - 1, n);
      forall u, v | u in earlier && v in last
        ensures Before(u, v)
      {
        ScanHits(len, hit, n, m - 1, u);
        PairsHits(len, hit, m - 1, n, v);
      }
      IncreasingAppend(earlier, last);
    }
  }

  // ---------------------------------------------------- what it emits there

  lemma {:induction false} RowApply<T>(hit: Slot -> bool, val: Slot -> T, i: nat, j: nat, a: nat, m: nat)
    ensures Row(hit, val, i, j, a, m) == Apply(val, Row(hit, Id, i, j, a, m))
  {
    if m > 0 {
      var last: seq<Slot> := if hit(Slot(i, j, a, m - 1)) then [Slot(i, j, a, m - 1)] else [];
      RowApply(hit, val, i, j, a, m - 1);
      ApplyAppend(val, Row(hit, Id, i, j, a, m - 1), last);
      assert Row(hit, Id, i, j, a, m) == Row(hit, Id, i, j, a, m - 1) + last;
    }
  }

  lemma {:induction false} CrossApply<T>(len: nat -> nat, hit: Slot -> bool, val: Slot -> T, i: nat, j: nat, k: nat)
    ensures Cross(len, hit, val, i, j, k) == Apply(val, Cross(len, hit, Id, i, j, k))
  {
    if k > 0 {
      CrossApply(len, hit, val, i, j, k - 1);
      RowApply(hit, val, i, j, k - 1, len(j));
      ApplyAppend(val, Cross(len, hit, Id, i, j, k - 1), Row(hit, Id, i, j, k - 1, len(j)));
    }
  }

  lemma {:induction false} PairsApply<T>(len: nat -> nat, hit: Slot -> bool, val: Slot -> T, i: nat, k: nat)
    ensures Pairs(len, hit, val, i, k) == Apply(val, Pairs(len, hit, Id, i, k))
    decreases k
  {
    if k > i + 1 {
      PairsApply(len, hit, val, i, k - 1);
      CrossApply(len, hit, val, i, k - 1, len(i));
      ApplyAppend(val, Pairs(len, hit, Id, i, k - 1), Cross(len, hit, Id, i, k - 1, len(i)));
    }
  }

  lemma {:induction false} ScanApply<T>(len: nat -> nat, hit: Slot -> bool, val: Slot -> T, n: nat, m: nat)
    ensures Scan(len, hit, val, n, m) == Apply(val, Scan(len, hit, Id, n, m))
  {
    if m > 0 {
      ScanApply(len, hit, val, n, m - 1);
      PairsApply(len, hit, val, m - 1, n);
      ApplyAppend(val, Scan(len, hit, Id, n, m - 1), Pairs(len, hit, Id, m - 1, n));
    }
  }

  /**
   * The loops emit one value per position where the test holds, and nothing
   * else: the positions, in visiting order, are exactly the hits, each once,
   * and the `k`-th value emitted is the value at the `k`-th hit.
   */
  lemma ScanEnumeratesHits<T>(len: nat -> nat, hit: Slot -> bool, val: Slot -> T, n: nat)
    ensures forall t :: t in Hits(len, hit, n) <==> InScan(len, n, t) && hit(t)
    ensures Increasing(Hits(len, hit, n))
    ensures Scan(len, hit, val, n, n) == Apply(val, Hits(len, hit, n))
  {
    forall t
      ensures t in Hits(len, hit, n) <==> InScan(len, n, t) && hit(t)
    {
      ScanHits(len, hit, n, n, t);
    }
    ScanIncreasing(len, hit, n, n);
    ScanApply(len, hit, val, n, n);
  }

  // ------------------------------------------------------- a closed gate

  lemma {:induction false} RowSilent<T>(hit: Slot -> bool, val: Slot -> T, i: nat, j: nat, a: nat, m: nat)
    requires forall t: Slot :: t.i == i && t.j == j ==> !hit(t)
    ensures Row(hit, val, i, j, a, m) == []
  {
    if m > 0 {
      RowSilent(hit, val, i, j, a, m - 1);
      assert !hit(Slot(i, j, a, m - 1));
    }
  }

  /** A pair for which the test never holds contributes nothing. */
  lemma {:induction false} CrossSilent<T>(len: nat -> nat, hit: Slot -> bool, val: Slot -> T, i: nat, j: nat, k: nat)
    requires forall t: Slot :: t.i == i && t.j == j ==> !hit(t)
    ensures Cross(len, hit, val, i, j, k) == []
  {
    if k > 0 {
      CrossSilent(len, hit, val, i, j, k - 1);
      RowSilent(hit, val, i, j, k - 1, len(j));
      assert Cross(len, hit, val, i, j, k) == Cross(len, hit, val, i, j, k - 1) + Row(hit, val, i, j, k - 1, len(j));
    }
  }
}
