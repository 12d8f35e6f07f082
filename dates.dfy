/** Calendar arithmetic as the streak code uses it through dayjs.

    A date is a timestamp in milliseconds since the epoch, read in a zone whose
    days all last exactly 24 hours, so the calendar day of a timestamp is its
    floor division by the length of a day. */
module Dates {

  type Timestamp = int

  const MsPerDay: int := 86_400_000

  /** The number of the calendar day a timestamp falls on. Dafny's division by a
      positive divisor floors, so timestamps before the epoch fall on negative days. */
  function DayOf(t: Timestamp): int
  {
    t / MsPerDay
  }

  /** dayjs `startOf('day')`: midnight at the start of the timestamp's day. */
  function StartOfDay(t: Timestamp): (r: Timestamp)
    ensures r <= t < r + MsPerDay
    ensures DayOf(r) == DayOf(t)
    ensures r % MsPerDay == 0
  {
    DayOf(t) * MsPerDay
  }

  /** dayjs `endOf('day')`: the last millisecond (23:59:59.999) of the timestamp's day. */
  function EndOfDay(t: Timestamp): (r: Timestamp)
    ensures t <= r < t + MsPerDay
    ensures DayOf(r) == DayOf(t)
    ensures r % MsPerDay == MsPerDay - 1
  {
    StartOfDay(t) + MsPerDay - 1
  }

  /** Division that rounds toward zero, as dayjs `diff` does with its result
      (it floors positive quotients and ceils negative ones). */
  function TruncDiv(n: int, d: int): int
    requires d > 0
  {
    if n >= 0 then n / d else -((-n) / d)
  }

  /** `getDiffOnDays`: whole days from the start of `second`'s day to the end of
      `first`'s day, truncated toward zero. */
  function GetDiffOnDays(first: Timestamp, second: Timestamp): (r: int)
    ensures DayOf(first) == DayOf(second) ==> r == 0
    ensures DayOf(first) == DayOf(second) + 1 ==> r == 1
  {
    TruncDiv(EndOfDay(first) - StartOfDay(second), MsPerDay)
  }

  /** `getDiffOnDays` on day numbers: the plain difference when `first` is on
      the same day as `second` or later (0 for the same day, 1 for consecutive
      days), and one more than it when `first` is on an earlier day. */
  function CalendarDiff(first: Timestamp, second: Timestamp): int
  {
    var x, y := DayOf(first), DayOf(second);
    if x >= y then x - y else x - y + 1
  }

  /** The dayjs computation and the day-number form agree on every pair of
      timestamps: the end-of-day boundary adds almost a day, which truncation
      drops on the positive side and keeps on the negative side. */
  lemma GetDiffOnDaysByDay(first: Timestamp, second: Timestamp)
    ensures GetDiffOnDays(first, second) == CalendarDiff(first, second)
  {
    var x, y := DayOf(first), DayOf(second);
    var n := EndOfDay(first) - StartOfDay(second);
    assert n == (x - y) * MsPerDay + MsPerDay - 1;
    var q := GetDiffOnDays(first, second);
    if x >= y {
      assert n >= 0;
      DivUnique(n, x - y, q);
    } else {
      assert n < 0;
      assert -n == (y - x - 1) * MsPerDay + 1;
      DivUnique(-n, y - x - 1, -q);
    }
  }

  /** `getDiffOnDays` as the loop calls it, with its value on day numbers. */
  method DiffOnDays(first: Timestamp, second: Timestamp) returns (d: int)
    ensures d == CalendarDiff(first, second)
  {
    d := GetDiffOnDays(first, second);
    GetDiffOnDaysByDay(first, second);
  }

  /** A quotient by the day length is determined by the bounds it satisfies. */
  lemma DivUnique(n: int, q1: int, q2: int)
    requires q1 * MsPerDay <= n < q1 * MsPerDay + MsPerDay
    requires q2 * MsPerDay <= n < q2 * MsPerDay + MsPerDay
    ensures q1 == q2
  {
  }

  /** A later timestamp never falls on an earlier day. */
  lemma DayOfMonotone(a: Timestamp, b: Timestamp)
    ensures a <= b ==> DayOf(a) <= DayOf(b)
  {
  }
}
