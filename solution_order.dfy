/**
 * The order in which the resolver applies solutions: by conflict time,
 * earliest first. The source sorts on the raw `time` value, which is a
 * "start to end" text for timed conflicts and `None` for untimed ones.
 */
module SolutionOrder {
  import opened Wrappers
  import opened Model

  /**
   * The order of the time texts: by start, then by end (the order of the
   * texts when both are rendered in the same date format). An absent time
   * comes first, as the empty text `''` of the sort key's default would.
   */
  predicate TimeLess(a: Option<(real, real)>, b: Option<(real, real)>) {
    match (a, b)
    case (None, None) => false
    case (None, Some(_)) => true
    case (Some(_), None) => false
    case (Some(x), Some(y)) => x.0 < y.0 || (x.0 == y.0 && x.1 < y.1)
  }

  predicate Before(s: Solution, t: Solution) {
    TimeLess(s.conflict.time, t.conflict.time)
  }

  /** No later solution is strictly earlier than an earlier one. */
  predicate SortedByTime(s: seq<Solution>) {
    forall i, j :: 0 <= i < j < |s| ==> !Before(s[j], s[i])
  }

  /** Places `x` after every element of `sorted` that is not later than it (a stable insertion). */
  function InsertByTime(sorted: seq<Solution>, x: Solution): (r: seq<Solution>)
    ensures multiset(r) == multiset(sorted) + multiset{x}
    ensures forall y :: y in r ==> y == x || y in sorted
  {
    if sorted == [] then [x]
    else
      var last := sorted[|sorted| - 1];
      if Before(x, last) then
        assert sorted == sorted[..|sorted| - 1] + [last];
        InsertByTime(sorted[..|sorted| - 1], x) + [last]
      else sorted + [x]
  }

  /** The corrected sort: a stable sort by time that orders every list. */
  function SortSolutions(s: seq<Solution>): (r: seq<Solution>)
    ensures multiset(r) == multiset(s)
  {
    if s == [] then []
    else
      assert s == s[..|s| - 1] + [s[|s| - 1]];
      InsertByTime(SortSolutions(s[..|s| - 1]), s[|s| - 1])
  }

  /** "Not later than" is transitive. */
  lemma NotBeforeTransitive(a: Solution, b: Solution, c: Solution)
    requires !Before(b, a) && !Before(c, b)
    ensures !Before(c, a)
  {
  }

  lemma {:induction false} InsertKeepsSorted(sorted: seq<Solution>, x: Solution)
    requires SortedByTime(sorted)
    ensures SortedByTime(InsertByTime(sorted, x))
  {
    if sorted != [] {
      var init, last := sorted[..|sorted| - 1], sorted[|sorted| - 1];
      var r := InsertByTime(sorted, x);
      if Before(x, last) {
        InsertKeepsSorted(init, x);
        var front := InsertByTime(init, x);
        assert r == front + [last];
        forall k | 0 <= k < |front| ensures !Before(last, front[k]) {
          assert front[k] in front;
        }
      } else {
        assert r == sorted + [x];
        forall k | 0 <= k < |sorted| ensures !Before(x, sorted[k]) {
          NotBeforeTransitive(sorted[k], last, x);
        }
      }
    }
  }

  /** The corrected sort leaves the solutions ordered by time. */
  lemma {:induction false} SortSolutionsSorted(s: seq<Solution>)
    ensures SortedByTime(SortSolutions(s))
  {
    if s != [] {
      SortSolutionsSorted(s[..|s| - 1]);
      InsertKeepsSorted(SortSolutions(s[..|s| - 1]), s[|s| - 1]);
    }
  }

  /**
   * `solutions.sort(key=...)` as written: Python compares `None` with
   * nothing, so two or more solutions of which one is untimed raise a
   * `TypeError`; otherwise the list is sorted by its time texts.
   */
  function SortAsWritten(s: seq<Solution>): (r: Result<seq<Solution>, ResolveError>)
    ensures r.Ok? ==> multiset(r.value) == multiset(s)
  {
    if |s| >= 2 && exists i :: 0 <= i < |s| && s[i].conflict.time.None? then Err(UnorderableTimes)
    else Ok(SortSolutions(s))
  }

  /** Where the written sort succeeds it agrees with the corrected one. */
  lemma SortAsWrittenAgrees(s: seq<Solution>)
    requires |s| < 2 || forall i :: 0 <= i < |s| ==> s[i].conflict.time.Some?
    ensures SortAsWritten(s) == Ok(SortSolutions(s))
  {
  }

  /**
   * An untimed spatial conflict next to a timed temporal one: the written
   * sort fails, the corrected one puts the untimed solution first.
   */
  lemma UntimedSolutionBreaksSort()
    ensures var untimed := Solution(Conflict(Location(0.0, 0.0, 0.0), None, ("primary", "drone1")), Suggestion(None, None, None, None));
      var timed := Solution(Conflict(Location(0.0, 0.0, 0.0), Some((0.0, 10.0)), ("primary", "drone1")), Suggestion(None, None, None, None));
      SortAsWritten([timed, untimed]) == Err(UnorderableTimes)
      && SortSolutions([timed, untimed]) == [untimed, timed]
  {
    var untimed := Solution(Conflict(Location(0.0, 0.0, 0.0), None, ("primary", "drone1")), Suggestion(None, None, None, None));
    var timed := Solution(Conflict(Location(0.0, 0.0, 0.0), Some((0.0, 10.0)), ("primary", "drone1")), Suggestion(None, None, None, None));
    assert [timed, untimed][1].conflict.time.None?;
    assert [timed, untimed][..1] == [timed];
  }
}
