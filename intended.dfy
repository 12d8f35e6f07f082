/** The streak lengths `splitStreakPeriods` is documented to return (one per
    run of consecutive days, newest first, cut to the cap), where they differ
    from what its loop returns, and a corrected loop that returns them. */
module IntendedStreaks {
  import opened Dates
  import opened Sessions
  import opened Streaks
  import opened StreakProperties

  /** The documented result for the newest-first completed sessions `s`: the
      length of every run, newest first, cut to the first `amountOfPeriods` runs
      when that is truthy; no lengths at all when there is no session. */
  function IntendedPeriods(s: seq<Session>, amountOfPeriods: Option<int>): (r: seq<int>)
    ensures |s| == 0 ==> r == []
    ensures |s| > 0 ==> 1 <= |r| <= |Runs(s, 0)| && r == Runs(s, 0)[..|r|]
    ensures amountOfPeriods.Some? && amountOfPeriods.value >= 1 ==> |r| <= amountOfPeriods.value
  {
    if |s| == 0 then []
    else
      var runs := Runs(s, 0);
      if CapWithin(amountOfPeriods, |runs|) then runs[..amountOfPeriods.value] else runs
  }

  /** The documented lengths are the runs newest first, each at least one day,
      as many as the cap or the runs allow. */
  lemma IntendedPeriodsAreRuns(s: seq<Session>, amountOfPeriods: Option<int>)
    requires NewestFirst(s)
    ensures var r := IntendedPeriods(s, amountOfPeriods);
      && (|s| == 0 ==> r == [])
      && (|s| > 0 ==>
            var n := 1 + CountGaps(s, 0);
            && |r| == (if CapWithin(amountOfPeriods, n) then amountOfPeriods.value else n)
            && r == Runs(s, 0)[..|r|]
            && (forall k :: 0 <= k < |r| ==> r[k] >= 1))
  {
    if |s| > 0 {
      var runs := Runs(s, 0);
      RunsCount(s, 0);
      RunsPositive(s, 0);
      if !CapWithin(amountOfPeriods, |runs|) {
        assert runs == runs[..|runs|];
      }
    }
  }

  /** Without a cap that stops it early, the documented lengths together with
      the days inside the gaps account for every day from the oldest session to
      the newest. */
  lemma IntendedPeriodsSpan(s: seq<Session>, amountOfPeriods: Option<int>)
    requires NewestFirst(s) && |s| > 0
    requires !CapWithin(amountOfPeriods, CountGaps(s, 0))
    ensures Sum(IntendedPeriods(s, amountOfPeriods)) + GapDays(s, 0)
            == DayOf(s[0].dateSession) - DayOf(s[|s| - 1].dateSession) + 1
  {
    RunsCount(s, 0);
    RunsSpan(s, 0);
    IntendedUncapped(s, amountOfPeriods);
  }

  /** A cap that does not stop the loop before the oldest run leaves every run in. */
  lemma IntendedUncapped(s: seq<Session>, amountOfPeriods: Option<int>)
    requires |s| > 0
    requires !CapWithin(amountOfPeriods, |Runs(s, 0)| - 1)
    ensures IntendedPeriods(s, amountOfPeriods) == Runs(s, 0)
  {
    CutUncapped(Runs(s, 0), amountOfPeriods);
  }

  /** Cutting lengths to a cap that is not below their number keeps them all. */
  lemma CutUncapped(runs: seq<int>, amountOfPeriods: Option<int>)
    requires !CapWithin(amountOfPeriods, |runs| - 1)
    ensures (if CapWithin(amountOfPeriods, |runs|) then runs[..amountOfPeriods.value] else runs) == runs
  {
    assert runs[..|runs|] == runs;
  }

  /** Where a list holds a gap, the loop as written returns the documented
      lengths exactly when the cap stops it before the oldest run. */
  lemma CodeMatchesIntendedOnlyWhenCapped(s: seq<Session>, amountOfPeriods: Option<int>)
    requires NewestFirst(s)
    requires exists i :: Gap(s, i)
    ensures ExpectedPeriods(s, amountOfPeriods) == Periods(IntendedPeriods(s, amountOfPeriods))
            <==> CapWithin(amountOfPeriods, |Runs(s, 0)| - 1)
  {
    var i :| Gap(s, i);
    GapFound(s, i);
    var runs := Runs(s, 0);
    if !CapWithin(amountOfPeriods, |runs| - 1) {
      OldestRunMismeasured(s, amountOfPeriods);
      RunsPositive(s, 0);
      var lengths := ExpectedPeriods(s, amountOfPeriods).lengths;
      var r := IntendedPeriods(s, amountOfPeriods);
      IntendedUncapped(s, amountOfPeriods);
      assert lengths[|lengths| - 1] <= 0 < r[|r| - 1];
    }
  }

  /** Where the loop as written throws (no session, or no gap), the documented
      result is a list: empty, or the one run's length. */
  lemma CodeThrowsWhereIntendedDoesNot(s: seq<Session>, amountOfPeriods: Option<int>)
    requires NewestFirst(s)
    requires forall i :: 0 <= i ==> !Gap(s, i)
    ensures ExpectedPeriods(s, amountOfPeriods).UndefinedSession?
    ensures |s| == 0 ==> IntendedPeriods(s, amountOfPeriods) == []
    ensures |s| > 0 ==> IntendedPeriods(s, amountOfPeriods)
                        == [DayOf(s[0].dateSession) - DayOf(s[|s| - 1].dateSession) + 1]
  {
    ThrowsExactly(s, amountOfPeriods);
    if |s| > 0 {
      ScanFrom(s, 0);
      assert s[0..] == s;
      RunsStep(s, 0);
      RunsHead(s, 0);
      MeasureInOrder(s, 0, |s| - 1);
    }
  }

  /** Sessions completed on day 1 and on day 5: two one-day runs. The loop as
      written measures the older run against day 5 and reports -2. */
  lemma OldestRunExample()
    ensures var h := [Session(MsPerDay, true), Session(5 * MsPerDay, true)];
      var s := NewestFirstOrder(Completed(h));
      && ExpectedPeriods(s, None) == Periods([1, -2])
      && IntendedPeriods(s, None) == [1, 1]
  {
    var h := [Session(MsPerDay, true), Session(5 * MsPerDay, true)];
    var s := [h[1], h[0]];
    ExampleOrder(h[0], h[1]);
    TwoRuns(s);
  }

  /** Two sessions four days apart, newest first, form two one-day runs. */
  lemma TwoRuns(s: seq<Session>)
    requires s == [Session(5 * MsPerDay, true), Session(MsPerDay, true)]
    ensures GetLastCompletionIndex(s) == 0 && LastRunStart(s, 0) == 1
    ensures Runs(s, 0) == [1, 1]
    ensures ExpectedPeriods(s, None) == Periods([1, -2])
  {
    assert Gap(s, 0);
    assert s[0..] == s;
    assert s[1..] == [s[1]];
    assert GetLastCompletionIndex(s[1..]) == -1;
    assert Runs(s, 1) == [1];
    assert CalendarDiff(s[1].dateSession, s[0].dateSession) == -3;
  }

  /** Filtering two completed sessions keeps both, and sorting puts the newer first. */
  lemma ExampleOrder(older: Session, newer: Session)
    requires older.isSessionCompleted && newer.isSessionCompleted
    requires older.dateSession < newer.dateSession
    ensures NewestFirstOrder(Completed([older, newer])) == [newer, older]
  {
    var h := [older, newer];
    assert h[1..] == [newer];
    assert [newer][1..] == [];
    assert Completed([newer]) == [newer];
    assert Completed(h) == h;
    assert NewestFirstOrder([newer]) == Insert(newer, []) == [newer];
    assert [older] + [] == [older];
    assert Insert(older, [newer]) == [newer] + Insert(older, []);
  }

  /** Sessions completed on days 1, 2 and 3: one three-day run. The loop as
      written reads element -1 and throws, with or without a cap. */
  lemma SingleRunExample(amountOfPeriods: Option<int>)
    ensures var s := [Session(3 * MsPerDay, true), Session(2 * MsPerDay, true), Session(MsPerDay, true)];
      && ExpectedPeriods(s, amountOfPeriods) == UndefinedSession(-1)
      && IntendedPeriods(s, amountOfPeriods) == [3]
  {
    var s := [Session(3 * MsPerDay, true), Session(2 * MsPerDay, true), Session(MsPerDay, true)];
    assert !Gap(s, 0) && !Gap(s, 1);
    CodeThrowsWhereIntendedDoesNot(s, amountOfPeriods);
  }

  /** The corrected `splitStreakPeriods`: the same filter, sort and loop, except
      that an empty list gives no lengths and the oldest run is measured to the
      last session instead of to the session before it. */
  method SplitStreakPeriodsCorrected(sessionHistory: array<Session>, amountOfPeriods: Option<int>)
    returns (perdiodsOfStreak: seq<int>)
    ensures perdiodsOfStreak == IntendedPeriods(NewestFirstOrder(Completed(sessionHistory[..])), amountOfPeriods)
  {
    var completed := Completed(sessionHistory[..]);
    var sortedCompletedSessions := new Session[|completed|](k requires 0 <= k < |completed| => completed[k]);
    assert sortedCompletedSessions[..] == completed;
    SortNewestFirst(sortedCompletedSessions);
    AllCompletedPermutation(sortedCompletedSessions[..], completed);
    NewestFirstUnique(sortedCompletedSessions[..], NewestFirstOrder(completed));
    perdiodsOfStreak := SegmentRuns(sortedCompletedSessions[..], amountOfPeriods);
  }

  /** The corrected loop over newest-first sessions: when the scan from the
      cursor finds no gap, the run ends at the last session. */
  method SegmentRuns(sortedCompletedSessions: seq<Session>, amountOfPeriods: Option<int>)
    returns (perdiodsOfStreak: seq<int>)
    ensures perdiodsOfStreak == IntendedPeriods(sortedCompletedSessions, amountOfPeriods)
  {
    ghost var s := sortedCompletedSessions;
    if |sortedCompletedSessions| == 0 {
      return [];
    }
    var leftIndex: nat := 0;
    perdiodsOfStreak := [];
    while true
      invariant leftIndex < |s|
      invariant perdiodsOfStreak + Runs(s, leftIndex) == Runs(s, 0)
      invariant !CapWithin(amountOfPeriods, |perdiodsOfStreak|)
      decreases |s| - leftIndex
    {
      var b := GetLastCompletionIndex(sortedCompletedSessions[leftIndex..]);
      var nextStreakIndex := if b < 0 then |sortedCompletedSessions| - 1 else b + leftIndex;
      var diffOnDaysInPeriod := DiffOnDays(sortedCompletedSessions[leftIndex].dateSession,
                                           sortedCompletedSessions[nextStreakIndex].dateSession);
      if b < 0 {
        OldestRunStep(s, amountOfPeriods, leftIndex, perdiodsOfStreak, diffOnDaysInPeriod + 1);
        return perdiodsOfStreak + [diffOnDaysInPeriod + 1];
      }
      BreakStep(s, amountOfPeriods, leftIndex, perdiodsOfStreak, nextStreakIndex + 1, diffOnDaysInPeriod + 1);
      perdiodsOfStreak := perdiodsOfStreak + [diffOnDaysInPeriod + 1];
      if CapReached(amountOfPeriods, |perdiodsOfStreak|) {
        return;
      }
      leftIndex := nextStreakIndex + 1;
    }
  }

  /** The iteration of the corrected loop whose scan finds no gap pushes the
      oldest run, measured to the last session, which completes the documented
      lengths. */
  lemma OldestRunStep(s: seq<Session>, amountOfPeriods: Option<int>, leftIndex: nat, pushed: seq<int>, entry: int)
    requires leftIndex < |s|
    requires GetLastCompletionIndex(s[leftIndex..]) < 0
    requires entry == CalendarDiff(s[leftIndex].dateSession, s[|s| - 1].dateSession) + 1
    requires pushed + Runs(s, leftIndex) == Runs(s, 0)
    requires !CapWithin(amountOfPeriods, |pushed|)
    ensures pushed + [entry] == IntendedPeriods(s, amountOfPeriods)
  {
    RunsStep(s, leftIndex);
    RunsHead(s, leftIndex);
    LastRun(pushed, entry, Runs(s, leftIndex), Runs(s, 0));
    IntendedUncapped(s, amountOfPeriods);
  }

  /** An iteration of the corrected loop whose scan finds a gap pushes the
      newest remaining run and moves the cursor past the gap; at the cap the
      pushed lengths are the documented ones. */
  lemma BreakStep(s: seq<Session>, amountOfPeriods: Option<int>, leftIndex: nat, pushed: seq<int>,
                  next: nat, entry: int)
    requires leftIndex < |s|
    requires GetLastCompletionIndex(s[leftIndex..]) >= 0
    requires next == leftIndex + GetLastCompletionIndex(s[leftIndex..]) + 1
    requires entry == CalendarDiff(s[leftIndex].dateSession, s[next - 1].dateSession) + 1
    requires pushed + Runs(s, leftIndex) == Runs(s, 0)
    requires !CapWithin(amountOfPeriods, |pushed|)
    ensures next < |s| && (pushed + [entry]) + Runs(s, next) == Runs(s, 0)
    ensures CapReached(amountOfPeriods, |pushed| + 1) ==> pushed + [entry] == IntendedPeriods(s, amountOfPeriods)
    ensures !CapReached(amountOfPeriods, |pushed| + 1) ==> !CapWithin(amountOfPeriods, |pushed| + 1)
  {
    RunsAfterBreak(s, entry, leftIndex, next);
    ShiftCursor(pushed, entry, Runs(s, leftIndex), Runs(s, next), Runs(s, 0));
    if CapReached(amountOfPeriods, |pushed| + 1) {
      IntendedAtCap(s, amountOfPeriods, pushed + [entry], Runs(s, next));
    }
  }

  /** Pushing the one remaining run completes the runs. */
  lemma LastRun(pushed: seq<int>, entry: int, here: seq<int>, all: seq<int>)
    requires here == [entry]
    requires pushed + here == all
    ensures pushed + [entry] == all
  {
  }

  /** The corrected loop stops at the cap with the newest runs pushed. */
  lemma IntendedAtCap(s: seq<Session>, amountOfPeriods: Option<int>, periods: seq<int>, rest: seq<int>)
    requires |s| > 0
    requires periods + rest == Runs(s, 0)
    requires CapReached(amountOfPeriods, |periods|)
    ensures periods == IntendedPeriods(s, amountOfPeriods)
  {
    assert Runs(s, 0)[..|periods|] == periods;
  }
}
