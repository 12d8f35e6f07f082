/** The streak segmentation of `index.js`: the gap scan `getLastCompletionIndex`,
    the loop of `splitStreakPeriods`, and the streak lengths it is meant to report. */
module Streaks {
  import opened Dates
  import opened Sessions

  datatype Option<T> = None | Some(value: T)

  /** What `splitStreakPeriods` returns, or the TypeError it throws when it reads
      `.dateSession` of `sortedCompletedSessions[index]` and that element is undefined. */
  datatype Outcome = Periods(lengths: seq<int>) | UndefinedSession(index: int)

  /** Sessions `i` and `i + 1` of a block are more than one day apart: the streak
      breaks between them. The test is `getDiffOnDays(...) > 1` stated on day
      numbers; `GetDiffOnDaysByDay` shows the two agree on every pair of dates. */
  predicate Gap(block: seq<Session>, i: int)
  {
    0 <= i < |block| - 1 && CalendarDiff(block[i].dateSession, block[i + 1].dateSession) > 1
  }

  /** The `findIndex` scan of `getLastCompletionIndex`, from position `from` on. */
  function FindGap(block: seq<Session>, from: nat): (r: int)
    decreases |block| - from
    ensures r == -1 || from <= r < |block| - 1
  {
    if from >= |block| - 1 then -1
    else if Gap(block, from) then from
    else FindGap(block, from + 1)
  }

  /** The scan finds the first gap at `from` or later, and -1 exactly when there is none. */
  lemma {:induction false} FindGapFindsFirst(block: seq<Session>, from: nat)
    decreases |block| - from
    ensures var r := FindGap(block, from);
      && (r == -1 <==> forall i :: from <= i ==> !Gap(block, i))
      && (r >= 0 ==> Gap(block, r) && forall i :: from <= i < r ==> !Gap(block, i))
  {
    if from < |block| - 1 && !Gap(block, from) {
      FindGapFindsFirst(block, from + 1);
    }
  }

  /** `getLastCompletionIndex`: the first index whose session is more than a day
      after the next one, or -1 when no adjacent pair is that far apart (always
      so for a block of fewer than two sessions). */
  function GetLastCompletionIndex(block: seq<Session>): (r: int)
    ensures r == -1 || 0 <= r <= |block| - 2
  {
    FindGap(block, 0)
  }

  /** The index is that of the first gap of the block, and -1 exactly when the
      block has no gap. */
  lemma GetLastCompletionIndexFindsFirst(block: seq<Session>)
    ensures var r := GetLastCompletionIndex(block);
      && (r == -1 <==> forall i :: 0 <= i ==> !Gap(block, i))
      && (r >= 0 ==> Gap(block, r) && forall i :: 0 <= i < r ==> !Gap(block, i))
  {
    FindGapFindsFirst(block, 0);
  }

  /** A gap at position `b` of the block that starts at `left` is a gap at `left + b` of the whole list. */
  lemma GapInSuffix(s: seq<Session>, left: nat, b: int)
    requires left <= |s|
    ensures Gap(s[left..], b) <==> b >= 0 && Gap(s, left + b)
  {
  }

  /** The streak lengths the code is meant to report from cursor `left` on: one
      entry per maximal run of sessions without a gap, newest run first, each
      measured as the loop measures a run that ends at a gap, by `getDiffOnDays`
      from the run's first session to its last, plus one. On a newest-first list
      that is the number of calendar days the run covers. */
  function Runs(s: seq<Session>, left: nat): (r: seq<int>)
    requires left < |s|
    decreases |s| - left
    ensures |r| >= 1
  {
    var b := GetLastCompletionIndex(s[left..]);
    var last := if b < 0 then |s| - 1 else left + b;
    var head := CalendarDiff(s[left].dateSession, s[last].dateSession) + 1;
    if b < 0 then [head] else [head] + Runs(s, left + b + 1)
  }

  /** Where the oldest run starts, scanning from cursor `left`: at the cursor
      when the scan finds no gap, past it otherwise. */
  function LastRunStart(s: seq<Session>, left: nat): (start: nat)
    requires left < |s|
    decreases |s| - left
    ensures left <= start < |s|
    ensures GetLastCompletionIndex(s[left..]) >= 0 <==> start > left
  {
    var b := GetLastCompletionIndex(s[left..]);
    if b < 0 then left else LastRunStart(s, left + b + 1)
  }

  /** The number of gaps at positions `from` and later. */
  function CountGaps(s: seq<Session>, from: nat): nat
    decreases |s| - from
  {
    if from >= |s| - 1 then 0
    else (if Gap(s, from) then 1 else 0) + CountGaps(s, from + 1)
  }

  /** The days with no session that lie strictly inside the gaps at positions `from` and later. */
  function GapDays(s: seq<Session>, from: nat): int
    decreases |s| - from
  {
    if from >= |s| - 1 then 0
    else
      (if Gap(s, from) then DayOf(s[from].dateSession) - DayOf(s[from + 1].dateSession) - 1 else 0)
      + GapDays(s, from + 1)
  }

  function Sum(xs: seq<int>): int
  {
    if xs == [] then 0 else xs[0] + Sum(xs[1..])
  }

  /** The test `amountOfPeriods && perdiodsOfStreak.length === amountOfPeriods`:
      null (None) and 0 are falsy and never stop the loop. */
  predicate CapReached(amountOfPeriods: Option<int>, count: int)
    ensures amountOfPeriods == None || amountOfPeriods == Some(0) ==> !CapReached(amountOfPeriods, count)
    ensures CapReached(amountOfPeriods, count) ==> amountOfPeriods == Some(count)
  {
    amountOfPeriods.Some? && amountOfPeriods.value != 0 && count == amountOfPeriods.value
  }

  /** A cap of at most `count`: the loop stops at the cap within its first `count` entries. */
  predicate CapWithin(amountOfPeriods: Option<int>, count: int)
  {
    amountOfPeriods.Some? && 1 <= amountOfPeriods.value <= count
  }

  /** What `splitStreakPeriods` produces for the newest-first completed sessions `s`,
      stated through the intended runs: it throws on an empty list (reading
      element 0) and on a list with no gap (reading element -1); otherwise it
      reports the runs newest first, except that when the cap does not stop it
      first, the oldest run is measured against the session just before it. */
  function ExpectedPeriods(s: seq<Session>, amountOfPeriods: Option<int>): (r: Outcome)
    ensures r.UndefinedSession? <==> |s| == 0 || GetLastCompletionIndex(s) < 0
    ensures r.UndefinedSession? ==> r.index == 0 || r.index == -1
    ensures r.Periods? ==> |r.lengths| >= 1
  {
    if |s| == 0 then UndefinedSession(0)
    else if GetLastCompletionIndex(s) < 0 then UndefinedSession(-1)
    else
      var runs := Runs(s, 0);
      var oldest := LastRunStart(s, 0);
      if CapWithin(amountOfPeriods, |runs| - 1) then Periods(runs[..amountOfPeriods.value])
      else Periods(runs[..|runs| - 1]
                   + [CalendarDiff(s[oldest].dateSession, s[oldest - 1].dateSession) + 1])
  }

  /** One step of the cursor: when the scan from `left` finds a break at
      `left + b`, the newest remaining run ends there and the next one starts just
      after it; when it finds none, one run is left and it is the oldest. */
  lemma RunsStep(s: seq<Session>, left: nat)
    requires left < |s|
    ensures var b := GetLastCompletionIndex(s[left..]);
      if b >= 0 then
        && left + b + 1 < |s| && Gap(s, left + b)
        && Runs(s, left) == [CalendarDiff(s[left].dateSession, s[left + b].dateSession) + 1]
                            + Runs(s, left + b + 1)
        && LastRunStart(s, left) == LastRunStart(s, left + b + 1)
      else
        |Runs(s, left)| == 1 && LastRunStart(s, left) == left
  {
    var b := GetLastCompletionIndex(s[left..]);
    GetLastCompletionIndexFindsFirst(s[left..]);
    GapInSuffix(s, left, b);
  }

  /** The code measures a run with `getDiffOnDays`, which on a newest-first list
      is the plain difference of day numbers. */
  lemma MeasureInOrder(s: seq<Session>, newer: nat, older: nat)
    requires NewestFirst(s) && newer <= older < |s|
    ensures CalendarDiff(s[newer].dateSession, s[older].dateSession)
            == DayOf(s[newer].dateSession) - DayOf(s[older].dateSession)
  {
    DayOfMonotone(s[older].dateSession, s[newer].dateSession);
  }

  /** A break anywhere means the scan of the whole list finds one. */
  lemma GapFound(s: seq<Session>, i: int)
    requires Gap(s, i)
    ensures |s| > 0 && GetLastCompletionIndex(s) >= 0
  {
    GetLastCompletionIndexFindsFirst(s);
  }

  /** The loop stops at the cap after pushing the newest remaining run. */
  lemma ExpectedAtCap(s: seq<Session>, amountOfPeriods: Option<int>, pushed: seq<int>, next: nat)
    requires next < |s|
    requires GetLastCompletionIndex(s) >= 0
    requires pushed + Runs(s, next) == Runs(s, 0)
    requires CapReached(amountOfPeriods, |pushed|)
    ensures ExpectedPeriods(s, amountOfPeriods) == Periods(pushed)
  {
    assert Runs(s, 0)[..|pushed|] == pushed;
  }

  /** The loop reaches the oldest run, which it measures against the session
      just before it. */
  lemma ExpectedAtOldest(s: seq<Session>, amountOfPeriods: Option<int>, pushed: seq<int>, left: nat)
    requires 0 < left < |s|
    requires Gap(s, left - 1)
    requires GetLastCompletionIndex(s[left..]) < 0
    requires pushed + Runs(s, left) == Runs(s, 0)
    requires LastRunStart(s, left) == LastRunStart(s, 0)
    requires !CapWithin(amountOfPeriods, |pushed|)
    ensures ExpectedPeriods(s, amountOfPeriods) ==
              Periods(pushed + [CalendarDiff(s[left].dateSession, s[left - 1].dateSession) + 1])
  {
    RunsStep(s, left);
    GapFound(s, left - 1);
    assert Runs(s, 0)[..|Runs(s, 0)| - 1] == pushed;
  }

  /** The code's entry for a run that ends at a break is the newest remaining run. */
  lemma RunsAfterBreak(s: seq<Session>, entry: int, left: nat, next: nat)
    requires left < |s|
    requires GetLastCompletionIndex(s[left..]) >= 0
    requires next == left + GetLastCompletionIndex(s[left..]) + 1
    requires entry == CalendarDiff(s[left].dateSession, s[next - 1].dateSession) + 1
    ensures next < |s| && Gap(s, next - 1)
    ensures Runs(s, left) == [entry] + Runs(s, next)
    ensures LastRunStart(s, left) == LastRunStart(s, next)
  {
    RunsStep(s, left);
  }

  /** Moving the cursor past a break keeps the pushed entries followed by the
      remaining runs equal to all runs. */
  lemma ShiftCursor(pushed: seq<int>, entry: int, here: seq<int>, rest: seq<int>, all: seq<int>)
    requires here == [entry] + rest
    requires pushed + here == all
    ensures (pushed + [entry]) + rest == all
  {
    assert (pushed + [entry]) + rest == pushed + ([entry] + rest);
  }

  /** JavaScript's `a[k]`: the element, or undefined when `k` is out of range. */
  function ElementAt(a: seq<Session>, k: int): (r: Option<Session>)
    ensures r.Some? <==> 0 <= k < |a|
    ensures r.Some? ==> r.value == a[k]
  {
    if 0 <= k < |a| then Some(a[k]) else None
  }

  /** `splitStreakPeriods`: filters the completed sessions into a fresh array,
      sorts it newest first in place and segments it. The caller's array is
      only read, so its order is never disturbed. */
  method SplitStreakPeriods(sessionHistory: array<Session>, amountOfPeriods: Option<int>)
    returns (r: Outcome)
    ensures r == ExpectedPeriods(NewestFirstOrder(Completed(sessionHistory[..])), amountOfPeriods)
  {
    var completed := Completed(sessionHistory[..]);
    var sortedCompletedSessions := new Session[|completed|](k requires 0 <= k < |completed| => completed[k]);
    assert sortedCompletedSessions[..] == completed;
    SortNewestFirst(sortedCompletedSessions);
    AllCompletedPermutation(sortedCompletedSessions[..], completed);
    NewestFirstUnique(sortedCompletedSessions[..], NewestFirstOrder(completed));
    r := SegmentNewestFirst(sortedCompletedSessions[..], amountOfPeriods);
    SegmentMeetsExpected(sortedCompletedSessions[..], amountOfPeriods);
  }

  /** The loop of `splitStreakPeriods` as a function of its state: the cursor
      `leftIndex` and the lengths pushed so far. Each step scans the block from
      the cursor for a break, reads the session at the cursor and the one at the
      break (undefined elements throw), pushes the day count between them plus
      one, and stops at the cap or when the scan found no break; otherwise the
      cursor moves just past the break. */
  function Segment(s: seq<Session>, amountOfPeriods: Option<int>, leftIndex: nat, periods: seq<int>): (r: Outcome)
    decreases |s| - leftIndex
    ensures r.UndefinedSession? ==> !(0 <= r.index < |s|)
    ensures r.Periods? ==> |r.lengths| > |periods| && r.lengths[..|periods|] == periods
  {
    if leftIndex >= |s| then UndefinedSession(leftIndex)
    else
    var nextStreakIndex := GetLastCompletionIndex(s[leftIndex..]) + leftIndex;
    if !(0 <= nextStreakIndex < |s|) then UndefinedSession(nextStreakIndex)
    else
      var pushed := periods + [CalendarDiff(s[leftIndex].dateSession, s[nextStreakIndex].dateSession) + 1];
      if CapReached(amountOfPeriods, |pushed|) || leftIndex > nextStreakIndex then Periods(pushed)
      else Segment(s, amountOfPeriods, nextStreakIndex + 1, pushed)
  }

  /** One step of the loop when the scan from the cursor finds a break: it
      pushes the days from the cursor's session to the break's, then stops at the
      cap or moves just past the break. */
  lemma SegmentAtBreak(s: seq<Session>, amountOfPeriods: Option<int>, leftIndex: nat, periods: seq<int>,
                       next: nat, entry: int)
    requires leftIndex < |s| && GetLastCompletionIndex(s[leftIndex..]) >= 0
    requires next == leftIndex + GetLastCompletionIndex(s[leftIndex..]) + 1
    requires entry == CalendarDiff(s[leftIndex].dateSession, s[next - 1].dateSession) + 1
    ensures CapReached(amountOfPeriods, |periods| + 1) ==>
              Segment(s, amountOfPeriods, leftIndex, periods) == Periods(periods + [entry])
    ensures !CapReached(amountOfPeriods, |periods| + 1) ==>
              Segment(s, amountOfPeriods, leftIndex, periods) == Segment(s, amountOfPeriods, next, periods + [entry])
  {
  }

  /** One step of the loop when the scan finds no break: it measures the
      cursor's session against the one just before it and stops. */
  lemma SegmentWithoutBreak(s: seq<Session>, amountOfPeriods: Option<int>, leftIndex: nat, periods: seq<int>)
    requires 0 < leftIndex < |s| && GetLastCompletionIndex(s[leftIndex..]) < 0
    ensures Segment(s, amountOfPeriods, leftIndex, periods)
            == Periods(periods + [CalendarDiff(s[leftIndex].dateSession, s[leftIndex - 1].dateSession) + 1])
  {
  }

  /** From a cursor just past a break, with the runs before it pushed and the
      cap not yet reached, the loop ends with the expected outcome. */
  lemma {:induction false} SegmentFrom(s: seq<Session>, amountOfPeriods: Option<int>, leftIndex: nat, pushed: seq<int>)
    requires 0 < leftIndex < |s| && Gap(s, leftIndex - 1)
    requires pushed + Runs(s, leftIndex) == Runs(s, 0)
    requires LastRunStart(s, leftIndex) == LastRunStart(s, 0)
    requires !CapWithin(amountOfPeriods, |pushed|)
    decreases |s| - leftIndex
    ensures Segment(s, amountOfPeriods, leftIndex, pushed) == ExpectedPeriods(s, amountOfPeriods)
  {
    var b := GetLastCompletionIndex(s[leftIndex..]);
    if b < 0 {
      SegmentWithoutBreak(s, amountOfPeriods, leftIndex, pushed);
      ExpectedAtOldest(s, amountOfPeriods, pushed, leftIndex);
    } else {
      var next := leftIndex + b + 1;
      var entry := CalendarDiff(s[leftIndex].dateSession, s[next - 1].dateSession) + 1;
      RunsAfterBreak(s, entry, leftIndex, next);
      ShiftCursor(pushed, entry, Runs(s, leftIndex), Runs(s, next), Runs(s, 0));
      GapFound(s, leftIndex - 1);
      SegmentAtBreak(s, amountOfPeriods, leftIndex, pushed, next, entry);
      if CapReached(amountOfPeriods, |pushed| + 1) {
        ExpectedAtCap(s, amountOfPeriods, pushed + [entry], next);
      } else {
        assert !CapWithin(amountOfPeriods, |pushed + [entry]|);
        SegmentFrom(s, amountOfPeriods, next, pushed + [entry]);
      }
    }
  }

  /** On newest-first sessions the loop, started at cursor 0 with nothing
      pushed, ends with the expected outcome. */
  lemma SegmentMeetsExpected(s: seq<Session>, amountOfPeriods: Option<int>)
    ensures Segment(s, amountOfPeriods, 0, []) == ExpectedPeriods(s, amountOfPeriods)
  {
    assert s[0..] == s;
    var b := GetLastCompletionIndex(s);
    if |s| > 0 && b >= 0 {
      var next := b + 1;
      var entry := CalendarDiff(s[0].dateSession, s[b].dateSession) + 1;
      SegmentAtBreak(s, amountOfPeriods, 0, [], next, entry);
      RunsAfterBreak(s, entry, 0, next);
      assert [] + [entry] == [entry];
      if CapReached(amountOfPeriods, 1) {
        ExpectedAtCap(s, amountOfPeriods, [entry], next);
      } else {
        SegmentFrom(s, amountOfPeriods, next, [entry]);
      }
    }
  }

  /** The outcome of one iteration of the loop from cursor `leftIndex`, given
      the index `next` its scan computes: a throw, a final result, or the state
      the next iteration starts from. */
  lemma SegmentUnfold(s: seq<Session>, amountOfPeriods: Option<int>, leftIndex: nat, periods: seq<int>, next: int)
    requires leftIndex <= |s|
    requires next == GetLastCompletionIndex(s[leftIndex..]) + leftIndex
    ensures leftIndex == |s| ==> Segment(s, amountOfPeriods, leftIndex, periods) == UndefinedSession(leftIndex)
    ensures leftIndex < |s| && !(0 <= next < |s|) ==>
              Segment(s, amountOfPeriods, leftIndex, periods) == UndefinedSession(next)
    ensures leftIndex < |s| && 0 <= next < |s| ==>
              var pushed := periods + [CalendarDiff(s[leftIndex].dateSession, s[next].dateSession) + 1];
              Segment(s, amountOfPeriods, leftIndex, periods)
              == if CapReached(amountOfPeriods, |pushed|) || leftIndex > next then Periods(pushed)
                 else Segment(s, amountOfPeriods, next + 1, pushed)
  {
  }

  /** The loop of `splitStreakPeriods` over the sorted sessions, which it only
      reads: the cursor `leftIndex` moves from the newest session of each run to
      the newest session of the next, and one length is pushed per run. */
  method SegmentNewestFirst(sortedCompletedSessions: seq<Session>, amountOfPeriods: Option<int>)
    returns (r: Outcome)
    ensures r == Segment(sortedCompletedSessions, amountOfPeriods, 0, [])
  {
    ghost var outcome := Segment(sortedCompletedSessions, amountOfPeriods, 0, []);
    var leftIndex: nat := 0;
    var perdiodsOfStreak: seq<int> := [];
    while true
      invariant leftIndex <= |sortedCompletedSessions|
      invariant Segment(sortedCompletedSessions, amountOfPeriods, leftIndex, perdiodsOfStreak) == outcome
      decreases |sortedCompletedSessions| - leftIndex
    {
      var nextStreakIndex := GetLastCompletionIndex(sortedCompletedSessions[leftIndex..]) + leftIndex;
      SegmentUnfold(sortedCompletedSessions, amountOfPeriods, leftIndex, perdiodsOfStreak, nextStreakIndex);
      var lastSession := ElementAt(sortedCompletedSessions, leftIndex);
      if lastSession.None? {
        return UndefinedSession(leftIndex);
      }
      var firstSession := ElementAt(sortedCompletedSessions, nextStreakIndex);
      if firstSession.None? {
        return UndefinedSession(nextStreakIndex);
      }
      var dayOfLastSessionInPeriod := lastSession.value.dateSession;
      var dayOfFirstSessionInPeriod := firstSession.value.dateSession;
      var diffOnDaysInPeriod := DiffOnDays(dayOfLastSessionInPeriod, dayOfFirstSessionInPeriod);
      perdiodsOfStreak := perdiodsOfStreak + [diffOnDaysInPeriod + 1];
      if CapReached(amountOfPeriods, |perdiodsOfStreak|) {
        return Periods(perdiodsOfStreak);
      }
      if leftIndex > nextStreakIndex {
        return Periods(perdiodsOfStreak);
      }
      leftIndex := nextStreakIndex + 1;
    }
  }
}
