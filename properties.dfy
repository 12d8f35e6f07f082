/** What the streak lengths mean and what `splitStreakPeriods` returns. */
module StreakProperties {
  import opened Dates
  import opened Sessions
  import opened Streaks

  /** The scan of the block that starts at `left`, read on the whole list: no gap
      at `left` or later when it returns -1, otherwise the first such gap. */
  lemma ScanFrom(s: seq<Session>, left: nat)
    requires left <= |s|
    ensures var b := GetLastCompletionIndex(s[left..]);
      && (b < 0 <==> forall i :: left <= i ==> !Gap(s, i))
      && (b >= 0 ==> Gap(s, left + b) && forall i :: left <= i < left + b ==> !Gap(s, i))
  {
    var b := GetLastCompletionIndex(s[left..]);
    GetLastCompletionIndexFindsFirst(s[left..]);
    GapInSuffix(s, left, b);
    forall i | left <= i
      ensures Gap(s, i) <==> Gap(s[left..], i - left)
    {
      GapInSuffix(s, left, i - left);
    }
  }

  /** On a newest-first list every run lasts at least one day. */
  lemma {:induction false} RunsPositive(s: seq<Session>, left: nat)
    requires NewestFirst(s) && left < |s|
    decreases |s| - left
    ensures forall k :: 0 <= k < |Runs(s, left)| ==> Runs(s, left)[k] >= 1
  {
    var b := GetLastCompletionIndex(s[left..]);
    var last := if b < 0 then |s| - 1 else left + b;
    MeasureInOrder(s, left, last);
    DayOfMonotone(s[last].dateSession, s[left].dateSession);
    if b >= 0 {
      RunsPositive(s, left + b + 1);
    }
  }

  /** Positions without a gap add nothing to the gap count. */
  lemma {:induction false} CountGapsSkip(s: seq<Session>, from: nat, till: nat)
    requires from <= till
    requires forall i :: from <= i < till ==> !Gap(s, i)
    decreases till - from
    ensures CountGaps(s, from) == CountGaps(s, till)
    ensures GapDays(s, from) == GapDays(s, till)
  {
    if from < till {
      CountGapsSkip(s, from + 1, till);
    }
  }

  /** There is one run more than there are gaps. */
  lemma {:induction false} RunsCount(s: seq<Session>, left: nat)
    requires left < |s|
    decreases |s| - left
    ensures |Runs(s, left)| == 1 + CountGaps(s, left)
  {
    var b := GetLastCompletionIndex(s[left..]);
    ScanFrom(s, left);
    RunsStep(s, left);
    if b < 0 {
      CountGapsSkip(s, left, |s|);
      assert CountGaps(s, |s|) == 0;
    } else {
      CountGapsSkip(s, left, left + b);
      assert CountGaps(s, left + b) == 1 + CountGaps(s, left + b + 1);
      RunsCount(s, left + b + 1);
    }
  }

  lemma SumCons(x: int, xs: seq<int>)
    ensures Sum([x] + xs) == x + Sum(xs)
  {
    assert ([x] + xs)[1..] == xs;
  }

  /** Every calendar day from the oldest session to the one at `left` is
      counted exactly once: either inside a run or inside a gap. */
  lemma {:induction false} RunsSpan(s: seq<Session>, left: nat)
    requires NewestFirst(s) && left < |s|
    decreases |s| - left
    ensures Sum(Runs(s, left)) + GapDays(s, left)
            == DayOf(s[left].dateSession) - DayOf(s[|s| - 1].dateSession) + 1
  {
    var b := GetLastCompletionIndex(s[left..]);
    ScanFrom(s, left);
    if b < 0 {
      CountGapsSkip(s, left, |s|);
      MeasureInOrder(s, left, |s| - 1);
      assert Runs(s, left) == [DayOf(s[left].dateSession) - DayOf(s[|s| - 1].dateSession) + 1];
      SumCons(Runs(s, left)[0], []);
    } else {
      CountGapsSkip(s, left, left + b);
      RunsStep(s, left);
      MeasureInOrder(s, left, left + b);
      SumCons(DayOf(s[left].dateSession) - DayOf(s[left + b].dateSession) + 1, Runs(s, left + b + 1));
      RunsSpan(s, left + b + 1);
    }
  }

  /** Sessions without a gap between them leave no calendar day out: every day
      from the oldest to the newest of them has one of the sessions. */
  lemma {:induction false} NoGapCoversDays(s: seq<Session>, from: nat, till: nat, d: int)
    requires NewestFirst(s) && from <= till < |s|
    requires forall i :: from <= i < till ==> !Gap(s, i)
    requires DayOf(s[till].dateSession) <= d <= DayOf(s[from].dateSession)
    decreases till - from
    ensures exists i :: from <= i <= till && DayOf(s[i].dateSession) == d
  {
    if d != DayOf(s[from].dateSession) {
      assert !Gap(s, from);
      DayOfMonotone(s[from + 1].dateSession, s[from].dateSession);
      NoGapCoversDays(s, from + 1, till, d);
    }
  }

  /** The calendar days on which the sessions `from` to `till` took place. */
  function DaysOf(s: seq<Session>, from: nat, till: nat): set<int>
    requires from <= till < |s|
  {
    set i | from <= i <= till :: DayOf(s[i].dateSession)
  }

  /** The days from `lo` to `hi`. */
  function Interval(lo: int, hi: int): (r: set<int>)
    decreases hi - lo
    ensures forall d :: d in r <==> lo <= d <= hi
    ensures |r| == if lo <= hi then hi - lo + 1 else 0
  {
    if lo > hi then {} else Interval(lo, hi - 1) + {hi}
  }

  /** Sessions without a gap between them took place on exactly the days from
      the oldest one's to the newest one's. */
  lemma RunDays(s: seq<Session>, from: nat, till: nat)
    requires NewestFirst(s) && from <= till < |s|
    requires forall i :: from <= i < till ==> !Gap(s, i)
    ensures DaysOf(s, from, till) == Interval(DayOf(s[till].dateSession), DayOf(s[from].dateSession))
  {
    var lo, hi := DayOf(s[till].dateSession), DayOf(s[from].dateSession);
    forall d | d in DaysOf(s, from, till)
      ensures lo <= d <= hi
    {
      var i :| from <= i <= till && d == DayOf(s[i].dateSession);
      DayOfMonotone(s[till].dateSession, s[i].dateSession);
      DayOfMonotone(s[i].dateSession, s[from].dateSession);
    }
    forall d | lo <= d <= hi
      ensures d in DaysOf(s, from, till)
    {
      NoGapCoversDays(s, from, till, d);
    }
  }

  /** The first entry of the runs from `left` is the number of distinct calendar
      days with a completed session in that run: the sessions from `left` to the
      first gap, or to the end when there is none. */
  lemma RunCountsDays(s: seq<Session>, left: nat)
    requires NewestFirst(s) && left < |s|
    ensures var b := GetLastCompletionIndex(s[left..]);
      var last := if b < 0 then |s| - 1 else left + b;
      Runs(s, left)[0] == |DaysOf(s, left, last)|
  {
    var b := GetLastCompletionIndex(s[left..]);
    ScanFrom(s, left);
    RunsHead(s, left);
    if b < 0 {
      DaysOfRun(s, left, |s| - 1);
    } else {
      DaysOfRun(s, left, left + b);
    }
  }

  /** A run from `from` to `till` measured by `getDiffOnDays` counts its days. */
  lemma DaysOfRun(s: seq<Session>, from: nat, till: nat)
    requires NewestFirst(s) && from <= till < |s|
    requires forall i :: from <= i < till ==> !Gap(s, i)
    ensures CalendarDiff(s[from].dateSession, s[till].dateSession) + 1 == |DaysOf(s, from, till)|
  {
    RunDays(s, from, till);
    DayOfMonotone(s[till].dateSession, s[from].dateSession);
    MeasureInOrder(s, from, till);
  }

  /** The first entry of the runs from `left` measures the run that starts there. */
  lemma RunsHead(s: seq<Session>, left: nat)
    requires left < |s|
    ensures var b := GetLastCompletionIndex(s[left..]);
      var last := if b < 0 then |s| - 1 else left + b;
      Runs(s, left)[0] == CalendarDiff(s[left].dateSession, s[last].dateSession) + 1
  {
  }

  /** The oldest run starts just past a gap unless it starts at the cursor, and
      no gap follows it. */
  lemma {:induction false} LastRunStartAfterGap(s: seq<Session>, left: nat)
    requires left < |s|
    decreases |s| - left
    ensures var start := LastRunStart(s, left);
      && (start > left ==> Gap(s, start - 1))
      && forall i :: start <= i ==> !Gap(s, i)
  {
    var b := GetLastCompletionIndex(s[left..]);
    ScanFrom(s, left);
    if b >= 0 {
      LastRunStartAfterGap(s, left + b + 1);
      if LastRunStart(s, left + b + 1) == left + b + 1 {
        assert Gap(s, left + b);
      }
    }
  }

  /** `splitStreakPeriods` throws exactly when the completed sessions are empty
      (reading element 0) or hold no gap (reading element -1), whatever the cap. */
  lemma ThrowsExactly(s: seq<Session>, amountOfPeriods: Option<int>)
    ensures ExpectedPeriods(s, amountOfPeriods).UndefinedSession?
            <==> |s| == 0 || forall i :: 0 <= i ==> !Gap(s, i)
    ensures |s| == 0 ==> ExpectedPeriods(s, amountOfPeriods) == UndefinedSession(0)
    ensures |s| > 0 && (forall i :: 0 <= i ==> !Gap(s, i)) ==>
              ExpectedPeriods(s, amountOfPeriods) == UndefinedSession(-1)
  {
    GetLastCompletionIndexFindsFirst(s);
  }

  /** With a truthy cap the result holds as many lengths as the cap or as there
      are runs, whichever is fewer; without one (null or 0), one per run. */
  lemma PeriodsCount(s: seq<Session>, amountOfPeriods: Option<int>)
    requires ExpectedPeriods(s, amountOfPeriods).Periods?
    ensures var n := 1 + CountGaps(s, 0);
      |ExpectedPeriods(s, amountOfPeriods).lengths|
      == if CapWithin(amountOfPeriods, n) then amountOfPeriods.value else n
  {
    RunsCount(s, 0);
  }

  /** Every reported length is the length of the corresponding run, except the
      last one when the cap does not stop the loop before the oldest run. */
  lemma AgreesWithRuns(s: seq<Session>, amountOfPeriods: Option<int>)
    requires ExpectedPeriods(s, amountOfPeriods).Periods?
    ensures var lengths := ExpectedPeriods(s, amountOfPeriods).lengths;
      var runs := Runs(s, 0);
      && |lengths| <= |runs|
      && (forall k :: 0 <= k < |lengths| - 1 ==> lengths[k] == runs[k])
      && (CapWithin(amountOfPeriods, |runs| - 1) ==> lengths == runs[..|lengths|])
  {
  }

  /** When the loop reaches the oldest run, it measures that run against the
      session just before it: the last length is 2 - g, where g >= 2 is the day
      gap before the oldest run, so it is never positive. */
  lemma OldestRunMismeasured(s: seq<Session>, amountOfPeriods: Option<int>)
    requires NewestFirst(s)
    requires ExpectedPeriods(s, amountOfPeriods).Periods?
    requires !CapWithin(amountOfPeriods, |Runs(s, 0)| - 1)
    ensures var lengths := ExpectedPeriods(s, amountOfPeriods).lengths;
      var oldest := LastRunStart(s, 0);
      var g := DayOf(s[oldest - 1].dateSession) - DayOf(s[oldest].dateSession);
      && 0 < oldest && g >= 2
      && |lengths| == |Runs(s, 0)|
      && lengths[|lengths| - 1] == 2 - g <= 0
  {
    assert s[0..] == s;
    var runs, oldest := Runs(s, 0), LastRunStart(s, 0);
    LastRunStartAfterGap(s, 0);
    MeasureInOrder(s, oldest - 1, oldest);
    var entry := CalendarDiff(s[oldest].dateSession, s[oldest - 1].dateSession) + 1;
    assert ExpectedPeriods(s, amountOfPeriods).lengths == runs[..|runs| - 1] + [entry];
  }

  /** The result depends only on which completed sessions the history holds,
      not on their order in it nor on the order the sort gives to ties. */
  lemma OrderIndependent(h1: seq<Session>, h2: seq<Session>, amountOfPeriods: Option<int>)
    requires multiset(h1) == multiset(h2)
    ensures ExpectedPeriods(NewestFirstOrder(Completed(h1)), amountOfPeriods)
            == ExpectedPeriods(NewestFirstOrder(Completed(h2)), amountOfPeriods)
  {
    var a, b := NewestFirstOrder(Completed(h1)), NewestFirstOrder(Completed(h2));
    assert multiset(Completed(h1)) == multiset(Completed(h2));
    AllCompletedPermutation(a, Completed(h1));
    NewestFirstUnique(a, b);
  }
}
