/**
 * Calendar arithmetic of `src/lib/date.ts`, over dates as (year, month, day)
 * triples in the proleptic Gregorian calendar that JavaScript's `Date` uses.
 *
 * The source never does its own arithmetic: it hands out-of-range fields to
 * `Date` (`setDate(getDate() + n)`, `setMonth(getMonth() + n)`, ...) and lets
 * the engine normalise them. `MakeDay` is that normalisation (ECMAScript's
 * MakeDay: carry whole years out of the month index, then count days from the
 * first of the month), built on one-day steps, and the three `Add*` functions
 * are the source's bodies written against it.
 */
module Calendar {

  /** A calendar day; `month` is 1-based, as in the ISO form. */
  datatype Date = Date(year: int, month: int, day: int)

  predicate IsLeapYear(y: int) {
    (y % 4 == 0 && y % 100 != 0) || y % 400 == 0
  }

  function DaysInMonth(y: int, m: int): (n: int)
    requires 1 <= m <= 12
    ensures 28 <= n <= 31
    ensures n == 29 <==> m == 2 && IsLeapYear(y)
    ensures n == 28 <==> m == 2 && !IsLeapYear(y)
  {
    if m == 2 then (if IsLeapYear(y) then 29 else 28)
    else if m == 4 || m == 6 || m == 9 || m == 11 then 30
    else 31
  }

  predicate Valid(d: Date) {
    1 <= d.month <= 12 && 1 <= d.day <= DaysInMonth(d.year, d.month)
  }

  /** Chronological order: `a` is a strictly earlier day than `b`. */
  predicate Before(a: Date, b: Date) {
    a.year < b.year
    || (a.year == b.year && (a.month < b.month || (a.month == b.month && a.day < b.day)))
  }

  lemma BeforeIsStrictTotalOrder(a: Date, b: Date, c: Date)
    ensures !Before(a, a)
    ensures Before(a, b) && Before(b, c) ==> Before(a, c)
    ensures a == b || Before(a, b) || Before(b, a)
  {
  }

  /** An order-preserving integer code of a valid date, used to bound walks over days. */
  function Key(d: Date): int {
    d.year * 384 + d.month * 32 + d.day
  }

  lemma KeyMonotone(a: Date, b: Date)
    requires Valid(a) && Valid(b)
    ensures Before(a, b) <==> Key(a) < Key(b)
  {
  }

  /** The day after `d`. */
  function NextDay(d: Date): (r: Date)
    requires Valid(d)
    ensures Valid(r) && Before(d, r)
  {
    if d.day < DaysInMonth(d.year, d.month) then Date(d.year, d.month, d.day + 1)
    else if d.month < 12 then Date(d.year, d.month + 1, 1)
    else Date(d.year + 1, 1, 1)
  }

  /** The day before `d`. */
  function PrevDay(d: Date): (r: Date)
    requires Valid(d)
    ensures Valid(r) && Before(r, d)
  {
    if d.day > 1 then Date(d.year, d.month, d.day - 1)
    else if d.month > 1 then Date(d.year, d.month - 1, DaysInMonth(d.year, d.month - 1))
    else Date(d.year - 1, 12, 31)
  }

  lemma PrevNext(d: Date)
    requires Valid(d)
    ensures PrevDay(NextDay(d)) == d
    ensures NextDay(PrevDay(d)) == d
  {
  }

  /** `n` whole days forward (or backward, for negative `n`), one day at a time. */
  function Shift(d: Date, n: int): (r: Date)
    requires Valid(d)
    ensures Valid(r)
    ensures n == 0 ==> r == d
    ensures n > 0 ==> Before(d, r)
    ensures n < 0 ==> Before(r, d)
    decreases if n < 0 then -n else n
  {
    if n == 0 then d
    else if n > 0 then Shift(NextDay(d), n - 1)
    else Shift(PrevDay(d), n + 1)
  }

  lemma ShiftFromNext(d: Date, k: int)
    requires Valid(d)
    ensures Shift(NextDay(d), k - 1) == Shift(d, k)
  {
    if k <= 0 {
      PrevNext(d);
    }
  }

  lemma ShiftFromPrev(d: Date, k: int)
    requires Valid(d)
    ensures Shift(PrevDay(d), k + 1) == Shift(d, k)
  {
    if k >= 0 {
      PrevNext(d);
    }
  }

  /** Shifting by `a` and then by `b` is shifting by `a + b`. */
  lemma {:induction false} ShiftAdd(d: Date, a: int, b: int)
    requires Valid(d)
    ensures Shift(Shift(d, a), b) == Shift(d, a + b)
    decreases if a < 0 then -a else a
  {
    if a > 0 {
      ShiftAdd(NextDay(d), a - 1, b);
      ShiftFromNext(d, a + b);
    } else if a < 0 {
      ShiftAdd(PrevDay(d), a + 1, b);
      ShiftFromPrev(d, a + b);
    }
  }

  /** Within one month, shifting only moves the day number. */
  lemma {:induction false} ShiftInMonth(d: Date, k: int)
    requires Valid(d) && 0 <= k && d.day + k <= DaysInMonth(d.year, d.month)
    ensures Shift(d, k) == Date(d.year, d.month, d.day + k)
    decreases k
  {
    if k > 0 {
      ShiftInMonth(NextDay(d), k - 1);
    }
  }

  /**
   * The first day of a month given as JavaScript's month index `m0`
   * (0-based, any integer): whole years are carried out of `m0`.
   */
  function MonthStart(y: int, m0: int): (r: Date)
    ensures Valid(r) && r.day == 1
    ensures r.year * 12 + r.month - 1 == y * 12 + m0
  {
    Date(y + m0 / 12, m0 % 12 + 1, 1)
  }

  /** ECMAScript's MakeDay: day `k` (any integer) counted from the first of the month. */
  function MakeDay(y: int, m0: int, k: int): (r: Date)
    ensures Valid(r)
    ensures 0 <= m0 < 12 && 1 <= k <= DaysInMonth(y, m0 + 1) ==> r == Date(y, m0 + 1, k)
  {
    var f := MonthStart(y, m0);
    assert 0 <= m0 < 12 && 1 <= k <= DaysInMonth(y, m0 + 1) ==> Shift(f, k - 1) == Date(y, m0 + 1, k) by {
      if 0 <= m0 < 12 && 1 <= k <= DaysInMonth(y, m0 + 1) {
        ShiftInMonth(f, k - 1);
      }
    }
    Shift(f, k - 1)
  }

  /** `d.setDate(k)`. */
  function SetDate(d: Date, k: int): (r: Date)
    ensures Valid(r)
    ensures 1 <= d.month <= 12 && 1 <= k <= DaysInMonth(d.year, d.month) ==> r == Date(d.year, d.month, k)
  {
    MakeDay(d.year, d.month - 1, k)
  }

  /** `d.setMonth(m0)`: keeps the day number, which may overflow into the next month. */
  function SetMonth(d: Date, m0: int): (r: Date)
    ensures Valid(r)
    ensures 0 <= m0 < 12 && 1 <= d.day <= DaysInMonth(d.year, m0 + 1) ==> r == Date(d.year, m0 + 1, d.day)
  {
    MakeDay(d.year, m0, d.day)
  }

  /** `d.setFullYear(y)`. */
  function SetFullYear(d: Date, y: int): (r: Date)
    ensures Valid(r)
    ensures 1 <= d.month <= 12 && 1 <= d.day <= DaysInMonth(y, d.month) ==> r == Date(y, d.month, d.day)
  {
    MakeDay(y, d.month - 1, d.day)
  }

  lemma MonthStartOfValid(d: Date)
    requires Valid(d)
    ensures MonthStart(d.year, d.month - 1) == Date(d.year, d.month, 1)
  {
  }

  /** Days past the end of a month spill into the following month. */
  lemma ShiftPastMonthEnd(f: Date, k: int)
    requires Valid(f) && f.day == 1
    requires DaysInMonth(f.year, f.month) <= k
    requires k < DaysInMonth(f.year, f.month) + DaysInMonth(NextDay(Date(f.year, f.month, DaysInMonth(f.year, f.month))).year, NextDay(Date(f.year, f.month, DaysInMonth(f.year, f.month))).month)
    ensures var n := NextDay(Date(f.year, f.month, DaysInMonth(f.year, f.month)));
            Shift(f, k) == Date(n.year, n.month, k - DaysInMonth(f.year, f.month) + 1)
  {
    var dim := DaysInMonth(f.year, f.month);
    var last := Date(f.year, f.month, dim);
    ShiftInMonth(f, dim - 1);
    ShiftAdd(f, dim - 1, k - dim + 1);
    ShiftFromNext(last, k - dim + 1);
    ShiftInMonth(NextDay(last), k - dim);
  }

  /** `d.setDate(d.getDate() - 1)` steps back exactly one day. */
  lemma SetDateBack(d: Date)
    requires Valid(d)
    ensures SetDate(d, d.day - 1) == PrevDay(d)
  {
    var f := Date(d.year, d.month, 1);
    MonthStartOfValid(d);
    if d.day > 1 {
      ShiftInMonth(f, d.day - 2);
    }
  }

  // ---------------------------------------------------------------------------
  // addDays

  /** `addDays(date, days)`: `setDate(getDate() + days)`. */
  function AddDays(d: Date, n: int): (r: Date)
    ensures Valid(r)
    ensures 1 <= d.month <= 12 && 1 <= d.day + n <= DaysInMonth(d.year, d.month) ==> r == Date(d.year, d.month, d.day + n)
  {
    SetDate(d, d.day + n)
  }

  lemma {:induction false} AddDaysIsShift(d: Date, n: int)
    requires Valid(d)
    ensures AddDays(d, n) == Shift(d, n)
  {
    var f := Date(d.year, d.month, 1);
    var a, s := AddDays(d, n), SetDate(d, d.day + n);
    assert a == s;
    SetDateFromFirst(d, d.day + n);
    assert s == Shift(f, d.day + n - 1);
    ShiftAdd(f, d.day - 1, n);
    ShiftInMonth(f, d.day - 1);
  }

  /** `setDate(k)` counts `k - 1` days from the first of the month. */
  lemma SetDateFromFirst(d: Date, k: int)
    requires Valid(d)
    ensures SetDate(d, k) == Shift(Date(d.year, d.month, 1), k - 1)
  {
    MonthStartOfValid(d);
  }

  lemma AddDaysZero(d: Date)
    requires Valid(d)
    ensures AddDays(d, 0) == d
  {
    AddDaysIsShift(d, 0);
  }

  /** Adding `a` days and then `b` days is adding `a + b` days. */
  lemma AddDaysAdd(d: Date, a: int, b: int)
    requires Valid(d)
    ensures AddDays(AddDays(d, a), b) == AddDays(d, a + b)
  {
    AddDaysIsShift(d, a);
    AddDaysIsShift(Shift(d, a), b);
    AddDaysIsShift(d, a + b);
    ShiftAdd(d, a, b);
  }

  /** Adding a positive number of days gives a strictly later day; a negative one, an earlier day. */
  lemma AddDaysMoves(d: Date, n: int)
    requires Valid(d)
    ensures Valid(AddDays(d, n))
    ensures n > 0 ==> Before(d, AddDays(d, n))
    ensures n < 0 ==> Before(AddDays(d, n), d)
  {
    AddDaysIsShift(d, n);
  }

  /** Adding one day rolls over the end of a month and of a year. */
  lemma AddOneDay(d: Date)
    requires Valid(d)
    ensures AddDays(d, 1) == NextDay(d)
    ensures d.month == 12 && d.day == 31 ==> AddDays(d, 1) == Date(d.year + 1, 1, 1)
  {
    AddDaysIsShift(d, 1);
  }

  // ---------------------------------------------------------------------------
  // addMonths

  /** The month `n` months after the month of `d`, as the first day of that month. */
  function TargetMonth(d: Date, n: int): Date {
    MonthStart(d.year, d.month - 1 + n)
  }

  /**
   * `addMonths(date, months)`: the first day the source's clamp loop stops on.
   * When the day number fits the target month, that day of the target month;
   * otherwise `setMonth` has overflowed into the following month and the loop
   * walks back past the whole target month to the last day of the month before
   * it. `AddMonthsLoop` runs the loop itself and is proved to agree.
   */
  function AddMonths(d: Date, n: int): (r: Date)
    requires Valid(d)
    ensures Valid(r)
    ensures d.day <= DaysInMonth(TargetMonth(d, n).year, TargetMonth(d, n).month)
            ==> r == Date(TargetMonth(d, n).year, TargetMonth(d, n).month, d.day)
  {
    var t := SetMonth(d, d.month - 1 + n);
    assert d.day <= DaysInMonth(TargetMonth(d, n).year, TargetMonth(d, n).month)
           ==> t == Date(TargetMonth(d, n).year, TargetMonth(d, n).month, d.day) by {
      if d.day <= DaysInMonth(TargetMonth(d, n).year, TargetMonth(d, n).month) {
        ShiftInMonth(TargetMonth(d, n), d.day - 1);
      }
    }
    if t.day >= d.day then t else PrevDay(TargetMonth(d, n))
  }

  /**
   * A day past the end of the target month ends on the 31st of the month
   * BEFORE the target: outside the target month, not on its last day.
   */
  lemma {:induction false} AddMonthsOverflow(d: Date, n: int)
    requires Valid(d)
    requires d.day > DaysInMonth(TargetMonth(d, n).year, TargetMonth(d, n).month)
    ensures AddMonths(d, n) == PrevDay(TargetMonth(d, n))
    ensures AddMonths(d, n) == Date(MonthStart(d.year, d.month - 2 + n).year, MonthStart(d.year, d.month - 2 + n).month, 31)
    ensures Before(AddMonths(d, n), TargetMonth(d, n))
  {
    var f := TargetMonth(d, n);
    ShiftPastMonthEnd(f, d.day - 1);
    assert AddMonths(d, n) == PrevDay(f);
    MonthStartPrev(d.year, d.month - 1 + n);
    ShortMonthFollowsLong(f.year, f.month);
  }

  /** The first of the month before the month starting at `MonthStart(y, m0)`. */
  lemma MonthStartPrev(y: int, m0: int)
    ensures var f := MonthStart(y, m0);
            MonthStart(y, m0 - 1) == if f.month > 1 then Date(f.year, f.month - 1, 1) else Date(f.year - 1, 12, 1)
  {
    var f, g := MonthStart(y, m0), MonthStart(y, m0 - 1);
    var e := if f.month > 1 then Date(f.year, f.month - 1, 1) else Date(f.year - 1, 12, 1);
    MonthIndexOrder(g, e);
  }

  /** A month shorter than 31 days is never January, and follows a 31-day month. */
  lemma ShortMonthFollowsLong(y: int, m: int)
    requires 1 <= m <= 12 && DaysInMonth(y, m) < 31
    ensures m > 1 && DaysInMonth(y, m - 1) == 31
  {
  }

  /** Whatever the branch, the day number never shrinks. */
  lemma AddMonthsDayNotSmaller(d: Date, n: int)
    requires Valid(d)
    ensures Valid(AddMonths(d, n)) && AddMonths(d, n).day >= d.day
  {
    var f := TargetMonth(d, n);
    if d.day > DaysInMonth(f.year, f.month) {
      AddMonthsOverflow(d, n);
    }
  }

  /** Month indices `year * 12 + month` order (year, month) pairs. */
  lemma MonthIndexOrder(a: Date, b: Date)
    requires 1 <= a.month <= 12 && 1 <= b.month <= 12
    ensures a.year * 12 + a.month < b.year * 12 + b.month
        <==> a.year < b.year || (a.year == b.year && a.month < b.month)
    ensures a.year * 12 + a.month == b.year * 12 + b.month <==> a.year == b.year && a.month == b.month
  {
    if a.year < b.year {
      assert a.year * 12 + 12 <= b.year * 12;
    } else if a.year > b.year {
      assert b.year * 12 + 12 <= a.year * 12;
    }
  }

  /** Moving a positive number of months never goes back: the result is the day itself or later. */
  lemma AddMonthsNotBefore(d: Date, n: int)
    requires Valid(d) && n >= 1
    ensures Valid(AddMonths(d, n))
    ensures AddMonths(d, n) == d || Before(d, AddMonths(d, n))
  {
    var f := TargetMonth(d, n);
    if d.day <= DaysInMonth(f.year, f.month) {
      MonthIndexOrder(d, f);
    } else {
      AddMonthsOverflow(d, n);
      var g := MonthStart(d.year, d.month - 2 + n);
      MonthIndexOrder(d, g);
    }
  }

  /**
   * Where the clamp loop can be after an overflow: on the overflow day `t` or
   * earlier in its month, anywhere in the target month `f`, or on the day
   * before `f`, where it stops.
   */
  ghost predicate OnClampWalk(d: Date, t: Date, f: Date)
    requires Valid(f)
  {
    d == PrevDay(f)
    || (d.year == t.year && d.month == t.month && 1 <= d.day <= t.day)
    || (d.year == f.year && d.month == f.month && 1 <= d.day <= DaysInMonth(f.year, f.month))
  }

  lemma ClampWalkStep(d: Date, t: Date, f: Date, day: int)
    requires Valid(d) && Valid(f) && f.day == 1
    requires DaysInMonth(f.year, f.month) < day <= 31
    requires t == Date(NextDay(Date(f.year, f.month, DaysInMonth(f.year, f.month))).year,
                       NextDay(Date(f.year, f.month, DaysInMonth(f.year, f.month))).month, t.day)
    requires t.day < day
    requires OnClampWalk(d, t, f) && d.day < day
    ensures OnClampWalk(PrevDay(d), t, f)
    ensures Key(PrevDay(f)) <= Key(PrevDay(d)) < Key(d)
  {
    KeyMonotone(PrevDay(d), d);
    KeyMonotone(PrevDay(f), PrevDay(d));
  }

  lemma ClampWalkStops(d: Date, t: Date, f: Date, day: int)
    requires Valid(d) && Valid(f) && f.day == 1
    requires DaysInMonth(f.year, f.month) < day <= 31
    requires t.day < day
    requires OnClampWalk(d, t, f) && d.day >= day
    ensures d == PrevDay(f)
  {
  }

  /** Where the clamp loop starts: after `setMonth`, in the target month or just past it. */
  lemma ClampWalkEntry(date: Date, months: int)
    requires Valid(date)
    ensures var t, f := SetMonth(date, date.month - 1 + months), TargetMonth(date, months);
            var last := Date(f.year, f.month, DaysInMonth(f.year, f.month));
            Valid(t) && Valid(f) && f.day == 1
            && (date.day <= DaysInMonth(f.year, f.month) ==> t == AddMonths(date, months) && t.day == date.day)
            && (date.day > DaysInMonth(f.year, f.month) ==>
                  t == Date(NextDay(last).year, NextDay(last).month, t.day)
                  && t.day < date.day && OnClampWalk(t, t, f))
  {
    var f := TargetMonth(date, months);
    if date.day > DaysInMonth(f.year, f.month) {
      ShiftPastMonthEnd(f, date.day - 1);
    } else {
      ShiftInMonth(f, date.day - 1);
    }
  }

  /**
   * The source's `addMonths` as written: `setMonth(getMonth() + months)`, then
   * `while (getDate() < day) setDate(getDate() - 1)`.
   */
  method AddMonthsLoop(date: Date, months: int) returns (d: Date)
    requires Valid(date)
    ensures d == AddMonths(date, months)
    ensures Valid(d) && d.day >= date.day
  {
    var day := date.day;
    d := SetMonth(date, date.month - 1 + months);
    ghost var t := d;
    ghost var f := TargetMonth(date, months);
    ghost var overflow := day > DaysInMonth(f.year, f.month);
    ClampWalkEntry(date, months);
    while d.day < day
      invariant Valid(d)
      invariant !overflow ==> d == t
      invariant overflow ==> OnClampWalk(d, t, f)
      decreases Key(d) - Key(PrevDay(f))
    {
      ClampWalkStep(d, t, f, day);
      SetDateBack(d);
      d := SetDate(d, d.day - 1);
    }
    if overflow {
      ClampWalkStops(d, t, f, day);
      AddMonthsOverflow(date, months);
    }
    AddMonthsDayNotSmaller(date, months);
  }

  /**
   * The clamp the comment at the loop describes ("Jan 31 + 1 month => Feb
   * 28/29"): the same day in the target month, cut back to its last day.
   */
  function AddMonthsClamped(d: Date, n: int): (r: Date)
    requires Valid(d)
    ensures Valid(r)
    ensures r.year * 12 + r.month == d.year * 12 + d.month + n
    ensures r.day == if d.day <= DaysInMonth(r.year, r.month) then d.day else DaysInMonth(r.year, r.month)
  {
    var f := TargetMonth(d, n);
    var dim := DaysInMonth(f.year, f.month);
    Date(f.year, f.month, if d.day <= dim then d.day else dim)
  }

  /** The two agree exactly when the day fits; otherwise the source lands a month early. */
  lemma AddMonthsVersusClamped(d: Date, n: int)
    requires Valid(d)
    ensures AddMonths(d, n) == AddMonthsClamped(d, n)
        <==> d.day <= DaysInMonth(TargetMonth(d, n).year, TargetMonth(d, n).month)
  {
    var f := TargetMonth(d, n);
    if d.day > DaysInMonth(f.year, f.month) {
      AddMonthsOverflow(d, n);
    }
  }

  /** The case the comment names: 2024-01-31 plus one month is 2024-01-31, not 2024-02-29. */
  lemma AddMonthsJan31(d: Date)
    requires d == Date(2024, 1, 31)
    ensures AddMonths(d, 1) == d
    ensures AddMonthsClamped(d, 1) == Date(2024, 2, 29)
  {
    var f := TargetMonth(d, 1);
    assert f == Date(2024, 2, 1);
    assert DaysInMonth(2024, 2) == 29;
    AddMonthsOverflow(d, 1);
  }

  // ---------------------------------------------------------------------------
  // addYears

  /** `addYears(date, years)`: `setFullYear(getFullYear() + years)`. */
  function AddYears(d: Date, n: int): (r: Date)
    ensures Valid(r)
    ensures 1 <= d.month <= 12 && 1 <= d.day <= DaysInMonth(d.year + n, d.month) ==> r == Date(d.year + n, d.month, d.day)
  {
    SetFullYear(d, d.year + n)
  }

  /** Month and day are kept, except that Feb 29 into a common year rolls to Mar 1. */
  lemma AddYearsSpec(d: Date, n: int)
    requires Valid(d)
    ensures d.month == 2 && d.day == 29 && !IsLeapYear(d.year + n) ==> AddYears(d, n) == Date(d.year + n, 3, 1)
    ensures !(d.month == 2 && d.day == 29 && !IsLeapYear(d.year + n)) ==> AddYears(d, n) == Date(d.year + n, d.month, d.day)
  {
    if d.month == 2 && d.day == 29 && !IsLeapYear(d.year + n) {
      AddYearsLeapDay(d, n);
    }
  }

  lemma {:induction false} AddYearsLeapDay(d: Date, n: int)
    requires d.month == 2 && d.day == 29 && !IsLeapYear(d.year + n)
    ensures AddYears(d, n) == Date(d.year + n, 3, 1)
  {
    var f := Date(d.year + n, 2, 1);
    var last := Date(d.year + n, 2, 28);
    SetFullYearIsSetDate(d, d.year + n);
    SetDateFromFirst(f, 29);
    ShiftInMonth(f, 27);
    ShiftAdd(f, 27, 1);
    assert Shift(last, 1) == Shift(NextDay(last), 0);
  }

  /** `setFullYear(y)` is `setDate` of the same day number from the first of the month in year `y`. */
  lemma SetFullYearIsSetDate(d: Date, y: int)
    ensures SetFullYear(d, y) == SetDate(Date(y, d.month, 1), d.day)
  {
  }
}
