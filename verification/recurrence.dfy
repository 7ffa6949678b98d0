/**
 * `computeNextDueDate` of `src/lib/recurrence.ts`: the next due date of a
 * recurring task, anchored on the day it was completed.
 *
 * The source recurses when the first candidate is not after the current due
 * date, with the candidate as both new arguments. That recursion need not
 * end (see `MonthlyJan31Diverges`), so the model carries the call depth the
 * JavaScript stack allows. Running out of it is the `StackOverflow` outcome:
 * the call does not return normally. Engines without proper tail calls throw
 * a `RangeError`; under proper tail calls the recursion never returns.
 */
module Recurrence {
  import opened Text
  import opened Calendar
  import opened IsoDate

  datatype Unit = Day | Week | Month | Year

  datatype Rule = NoRepeat | Every(interval: int, unit: Unit)

  /** What a call returns: no date (rule "none"), a date, or the engine's stack overflow. */
  datatype Outcome<T> = NoNext | Next(due: T) | StackOverflow

  /** `Math.max(1, interval)`. */
  function FloorInterval(n: int): int {
    if n < 1 then 1 else n
  }

  /** The candidate: anchor day plus the (floored) interval in the rule's unit. */
  function Candidate(base: Date, interval: int, unit: Unit): (r: Date)
    requires Valid(base)
    ensures Valid(r) && (r == base || Before(base, r))
  {
    var n := FloorInterval(interval);
    match unit
    case Day => AddDaysMoves(base, n); AddDays(base, n)
    case Week => AddDaysMoves(base, 7 * n); AddDays(base, 7 * n)
    case Month => AddMonthsNotBefore(base, n); AddMonths(base, n)
    case Year => AddYearsSpec(base, n); AddYears(base, n)
  }

  /**
   * A candidate equals its anchor exactly for a one-month step from the 31st
   * of a month followed by a shorter one (January, March, May, August,
   * October); every other candidate is strictly later.
   */
  lemma CandidateFixedPoint(d: Date, interval: int, unit: Unit)
    requires Valid(d)
    ensures Candidate(d, interval, unit) == d
        <==> (unit == Month && interval <= 1 && d.day == 31
              && DaysInMonth(TargetMonth(d, 1).year, TargetMonth(d, 1).month) < 31)
  {
    var n := FloorInterval(interval);
    match unit
    case Day => AddDaysMoves(d, n);
    case Week => AddDaysMoves(d, 7 * n);
    case Year => AddYearsSpec(d, n);
    case Month =>
      var f := TargetMonth(d, n);
      if d.day > DaysInMonth(f.year, f.month) {
        AddMonthsOverflow(d, n);
      }
  }

  /** A daily or weekly candidate is `n` or `7 n` days on, `n` the interval floored at 1. */
  lemma CandidateDays(base: Date, interval: int)
    requires Valid(base)
    ensures FloorInterval(interval) >= 1
    ensures Candidate(base, interval, Day) == Shift(base, FloorInterval(interval))
    ensures Candidate(base, interval, Week) == Shift(base, 7 * FloorInterval(interval))
  {
    AddDaysIsShift(base, FloorInterval(interval));
    AddDaysIsShift(base, 7 * FloorInterval(interval));
  }

  /**
   * A monthly candidate is the same day `n` months on, or the last day of
   * the month before that target month when the day does not fit there.
   */
  lemma CandidateMonths(base: Date, interval: int)
    requires Valid(base)
    ensures var f := TargetMonth(base, FloorInterval(interval));
            Candidate(base, interval, Month)
            == if base.day <= DaysInMonth(f.year, f.month) then Date(f.year, f.month, base.day) else PrevDay(f)
  {
    var n := FloorInterval(interval);
    var f := TargetMonth(base, n);
    if base.day > DaysInMonth(f.year, f.month) {
      AddMonthsOverflow(base, n);
    }
  }

  /** A yearly candidate is the same day `n` years on; Feb 29 into a common year gives Mar 1. */
  lemma CandidateYears(base: Date, interval: int)
    requires Valid(base)
    ensures var y := base.year + FloorInterval(interval);
            Candidate(base, interval, Year)
            == if base.month == 2 && base.day == 29 && !IsLeapYear(y) then Date(y, 3, 1) else Date(y, base.month, base.day)
  {
    AddYearsSpec(base, FloorInterval(interval));
  }

  /**
   * The recursion of `computeNextDueDate` on the parsed anchor day. Each call
   * takes the candidate of `base`; if its ISO string is `<=` the current due
   * string, the call repeats with the candidate as both due date and anchor.
   * The source passes the candidate on as a string and parses it again; for
   * years from 1000 on that parse gives back the same day (`FromToISO`), so
   * the day is passed on directly here (`NextDueUnfolds` checks the two agree).
   */
  function Walk(currentDue: string, rule: Rule, base: Date, depth: nat): (r: Outcome<Date>)
    requires Valid(base)
    ensures rule.NoRepeat? <==> r.NoNext?
    ensures rule.Every? && depth == 0 ==> r.StackOverflow?
    ensures r.Next? ==> Valid(r.due) && (r.due == base || Before(base, r.due))
    decreases depth
  {
    match rule
    case NoRepeat => NoNext
    case Every(interval, unit) =>
      if depth == 0 then StackOverflow
      else
        var next := Candidate(base, interval, unit);
        if StrLe(ToISO(next), currentDue) then Walk(ToISO(next), rule, next, depth - 1)
        else Next(next)
  }

  /**
   * `computeNextDueDate(currentDue, rule, completionDate)` with at most
   * `depth` nested calls. `currentDue` is only ever compared as a string.
   */
  function NextDue(currentDue: string, rule: Rule, completion: string, depth: nat): (r: Outcome<string>)
    requires IsISOShape(completion)
    ensures rule.NoRepeat? <==> r.NoNext?
  {
    match Walk(currentDue, rule, FromISO(completion), depth)
    case NoNext => NoNext
    case Next(d) => Next(ToISO(d))
    case StackOverflow => StackOverflow
  }

  /**
   * The model follows the source's code: the first candidate is computed
   * from the completion day alone; past `currentDue` it is the answer,
   * otherwise the answer is that of (candidate, rule, candidate) one call
   * deeper, exactly as the recursive call passes its string arguments.
   */
  lemma NextDueUnfolds(currentDue: string, rule: Rule, completion: string, depth: nat)
    requires IsISODate(completion) && rule.Every? && depth >= 1
    ensures var c := ToISO(Candidate(FromISO(completion), rule.interval, rule.unit));
            IsISODate(c)
            && NextDue(currentDue, rule, completion, depth)
               == if StrLe(c, currentDue) then NextDue(c, rule, c, depth - 1) else Next(c)
  {
    var base := FromISO(completion);
    FromISOOfISODate(completion);
    var next := Candidate(base, rule.interval, rule.unit);
    ToISOIsISODate(next);
    FromToISO(next);
  }

  /** A result is a canonical ISO date, never earlier than the completion day. */
  lemma NextDueNotBeforeCompletion(currentDue: string, rule: Rule, completion: string, depth: nat)
    requires IsISODate(completion)
    ensures var r := NextDue(currentDue, rule, completion, depth);
            r.Next? ==> IsISODate(r.due) && !Before(FromISO(r.due), FromISO(completion))
  {
    FromISOOfISODate(completion);
    var w := Walk(currentDue, rule, FromISO(completion), depth);
    if w.Next? {
      ToISOIsISODate(w.due);
      FromToISO(w.due);
    }
  }

  lemma {:induction false} WalkIntervalFloored(currentDue: string, interval: int, unit: Unit, base: Date, depth: nat)
    requires Valid(base) && interval <= 0
    ensures Walk(currentDue, Every(interval, unit), base, depth) == Walk(currentDue, Every(1, unit), base, depth)
    decreases depth
  {
    if depth > 0 {
      var next := Candidate(base, interval, unit);
      CandidateFloored(base, interval, unit);
      WalkStep(currentDue, Every(interval, unit), base, depth);
      WalkStep(currentDue, Every(1, unit), base, depth);
      WalkIntervalFloored(ToISO(next), interval, unit, next, depth - 1);
    }
  }

  /** The candidate of an interval of zero or less is the candidate of an interval of one. */
  lemma CandidateFloored(base: Date, interval: int, unit: Unit)
    requires Valid(base) && interval <= 0
    ensures Candidate(base, interval, unit) == Candidate(base, 1, unit)
  {
    assert FloorInterval(interval) == FloorInterval(1);
  }

  /** An interval of zero or less behaves exactly like an interval of one. */
  lemma IntervalFloored(currentDue: string, interval: int, unit: Unit, completion: string, depth: nat)
    requires IsISOShape(completion) && interval <= 0
    ensures NextDue(currentDue, Every(interval, unit), completion, depth)
         == NextDue(currentDue, Every(1, unit), completion, depth)
  {
    WalkIntervalFloored(currentDue, interval, unit, FromISO(completion), depth);
  }

  /** One call of the walk: the candidate, then either the answer or one call deeper. */
  lemma WalkStep(currentDue: string, rule: Rule, base: Date, depth: nat)
    requires Valid(base) && rule.Every? && depth >= 1
    ensures var c := Candidate(base, rule.interval, rule.unit);
            Walk(currentDue, rule, base, depth)
            == if StrLe(ToISO(c), currentDue) then Walk(ToISO(c), rule, c, depth - 1) else Next(c)
  {
  }

  /** Once the candidate of a day is that day, every further call repeats the same arguments. */
  lemma {:induction false} StuckForever(c: Date, rule: Rule, depth: nat)
    requires Valid(c) && rule.Every?
    requires Candidate(c, rule.interval, rule.unit) == c
    ensures Walk(ToISO(c), rule, c, depth) == StackOverflow
    decreases depth
  {
    StrLtIrreflexive(ToISO(c));
    if depth > 0 {
      StuckForever(c, rule, depth - 1);
    }
  }

  /**
   * From a day that is not its own candidate, re-anchored on itself, the
   * walk stops at once on the next candidate (four-digit years, so that the
   * string order is the date order).
   */
  lemma WalkSettlesOnce(c: Date, rule: Rule, depth: nat)
    requires Valid(c) && rule.Every? && depth >= 1
    requires Candidate(c, rule.interval, rule.unit) != c
    requires c.year >= 1000 && Candidate(c, rule.interval, rule.unit).year <= 9999
    ensures Walk(ToISO(c), rule, c, depth) == Next(Candidate(c, rule.interval, rule.unit))
  {
    IsBeforeChronological(c, Candidate(c, rule.interval, rule.unit));
  }

  lemma {:induction false} WalkTerminatesUnlessFixedPoint(currentDue: string, rule: Rule, base: Date, depth: nat)
    requires Valid(base) && base.year >= 1000 && rule.Every? && depth >= 2
    requires var c := Candidate(base, rule.interval, rule.unit);
             Candidate(c, rule.interval, rule.unit).year <= 9999
    ensures var c := Candidate(base, rule.interval, rule.unit);
            (Walk(currentDue, rule, base, depth).StackOverflow?
             <==> StrLe(ToISO(c), currentDue) && Candidate(c, rule.interval, rule.unit) == c)
  {
    var c := Candidate(base, rule.interval, rule.unit);
    WalkStep(currentDue, rule, base, depth);
    if StrLe(ToISO(c), currentDue) {
      if Candidate(c, rule.interval, rule.unit) == c {
        StuckForever(c, rule, depth - 1);
      } else {
        WalkSettlesOnce(c, rule, depth - 1);
      }
    }
  }

  /**
   * With enough stack for one re-anchor (and years that stay four digits
   * long), the call overflows the stack exactly when the first candidate is
   * not after `currentDue` and is its own candidate.
   */
  lemma TerminatesUnlessFixedPoint(currentDue: string, rule: Rule, completion: string, depth: nat)
    requires IsISODate(completion) && rule.Every? && depth >= 2
    requires var c := Candidate(FromISO(completion), rule.interval, rule.unit);
             Candidate(c, rule.interval, rule.unit).year <= 9999
    ensures var c := Candidate(FromISO(completion), rule.interval, rule.unit);
            (NextDue(currentDue, rule, completion, depth).StackOverflow?
             <==> StrLe(ToISO(c), currentDue) && Candidate(c, rule.interval, rule.unit) == c)
  {
    FromISOOfISODate(completion);
    WalkTerminatesUnlessFixedPoint(currentDue, rule, FromISO(completion), depth);
  }

  /** For days, weeks and years every candidate lies strictly after its anchor. */
  lemma CandidateAdvances(d: Date, interval: int, unit: Unit)
    requires Valid(d) && unit != Month
    ensures Before(d, Candidate(d, interval, unit))
    ensures Candidate(d, interval, unit) != d && Candidate(d, interval, unit).year >= d.year
  {
    CandidateFixedPoint(d, interval, unit);
  }

  /** A first candidate past `currentDue` is the answer. */
  lemma WalkNoReanchor(currentDue: string, rule: Rule, base: Date, depth: nat)
    requires Valid(base) && rule.Every? && depth >= 1
    requires !StrLe(ToISO(Candidate(base, rule.interval, rule.unit)), currentDue)
    ensures Walk(currentDue, rule, base, depth) == Next(Candidate(base, rule.interval, rule.unit))
  {
    WalkStep(currentDue, rule, base, depth);
  }

  /** A first candidate not after `currentDue` becomes both due date and anchor, one call deeper. */
  lemma WalkReanchorStep(currentDue: string, rule: Rule, base: Date, depth: nat)
    requires Valid(base) && rule.Every? && depth >= 1
    requires StrLe(ToISO(Candidate(base, rule.interval, rule.unit)), currentDue)
    ensures var c := Candidate(base, rule.interval, rule.unit);
            Walk(currentDue, rule, base, depth) == Walk(ToISO(c), rule, c, depth - 1)
  {
  }

  /**
   * For days, weeks or years, the call re-anchored on the first candidate
   * settles on that candidate's own candidate.
   */
  lemma WalkSettlesAfterReanchor(base: Date, rule: Rule, depth: nat)
    requires Valid(base) && base.year >= 1000 && rule.Every? && rule.unit != Month && depth >= 1
    requires var c := Candidate(base, rule.interval, rule.unit);
             Candidate(c, rule.interval, rule.unit).year <= 9999
    ensures var c := Candidate(base, rule.interval, rule.unit);
            Walk(ToISO(c), rule, c, depth) == Next(Candidate(c, rule.interval, rule.unit))
  {
    var c := Candidate(base, rule.interval, rule.unit);
    CandidateAdvances(base, rule.interval, rule.unit);
    CandidateAdvances(c, rule.interval, rule.unit);
    WalkSettlesOnce(c, rule, depth);
  }

  /** For days, weeks or years, one re-anchor on the first candidate settles on its own candidate. */
  lemma WalkOneReanchor(currentDue: string, rule: Rule, base: Date, depth: nat)
    requires Valid(base) && base.year >= 1000 && rule.Every? && rule.unit != Month && depth >= 2
    requires var c := Candidate(base, rule.interval, rule.unit);
             StrLe(ToISO(c), currentDue) && Candidate(c, rule.interval, rule.unit).year <= 9999
    ensures var c := Candidate(base, rule.interval, rule.unit);
            Walk(currentDue, rule, base, depth) == Next(Candidate(c, rule.interval, rule.unit))
  {
    WalkReanchorStep(currentDue, rule, base, depth);
    WalkSettlesAfterReanchor(base, rule, depth - 1);
  }

  lemma {:induction false} WalkDayWeekYear(currentDue: string, rule: Rule, base: Date, depth: nat)
    requires Valid(base) && base.year >= 1000 && rule.Every? && rule.unit != Month && depth >= 2
    requires var c := Candidate(base, rule.interval, rule.unit);
             Candidate(c, rule.interval, rule.unit).year <= 9999
    ensures var c := Candidate(base, rule.interval, rule.unit);
            Walk(currentDue, rule, base, depth)
            == if StrLe(ToISO(c), currentDue) then Next(Candidate(c, rule.interval, rule.unit)) else Next(c)
    ensures var r := Walk(currentDue, rule, base, depth);
            r.Next? && Before(base, r.due) && r.due.year <= 9999
  {
    var c := Candidate(base, rule.interval, rule.unit);
    CandidateAdvances(base, rule.interval, rule.unit);
    if StrLe(ToISO(c), currentDue) {
      WalkOneReanchor(currentDue, rule, base, depth);
      CandidateAdvances(c, rule.interval, rule.unit);
      BeforeIsStrictTotalOrder(base, c, Candidate(c, rule.interval, rule.unit));
    } else {
      WalkNoReanchor(currentDue, rule, base, depth);
    }
  }

  /**
   * For a unit of days, weeks or years the answer is found after at most one
   * re-anchor: the first candidate if it is past `currentDue`, else the
   * candidate's own candidate.
   */
  lemma DayWeekYearSettles(currentDue: string, rule: Rule, completion: string, depth: nat)
    requires IsISODate(completion) && rule.Every? && rule.unit != Month && depth >= 2
    requires var c := Candidate(FromISO(completion), rule.interval, rule.unit);
             Candidate(c, rule.interval, rule.unit).year <= 9999
    ensures var c := Candidate(FromISO(completion), rule.interval, rule.unit);
            NextDue(currentDue, rule, completion, depth)
            == if StrLe(ToISO(c), currentDue) then Next(ToISO(Candidate(c, rule.interval, rule.unit))) else Next(ToISO(c))
  {
    FromISOOfISODate(completion);
    WalkDayWeekYear(currentDue, rule, FromISO(completion), depth);
  }

  /** The date-level answer behind `DayWeekYearSettles` is strictly after the completion day. */
  lemma DayWeekYearAfterCompletion(currentDue: string, rule: Rule, completion: string, depth: nat)
    requires IsISODate(completion) && rule.Every? && rule.unit != Month && depth >= 2
    requires var c := Candidate(FromISO(completion), rule.interval, rule.unit);
             Candidate(c, rule.interval, rule.unit).year <= 9999
    ensures var r := NextDue(currentDue, rule, completion, depth);
            r.Next? && IsISODate(r.due) && Before(FromISO(completion), FromISO(r.due))
  {
    var base := FromISO(completion);
    FromISOOfISODate(completion);
    WalkDayWeekYear(currentDue, rule, base, depth);
    var w := Walk(currentDue, rule, base, depth);
    ToISOIsISODate(w.due);
    FromToISO(w.due);
  }

  lemma WalkLateCompletion(due: Date, rule: Rule, base: Date, depth: nat)
    requires Valid(base) && Valid(due) && rule.Every? && rule.unit != Month && depth >= 1
    requires 1000 <= due.year && !Before(base, due)
    requires Candidate(base, rule.interval, rule.unit).year <= 9999
    ensures var c := Candidate(base, rule.interval, rule.unit);
            Walk(ToISO(due), rule, base, depth) == Next(c) && Before(due, c) && Before(base, c)
  {
    var c := Candidate(base, rule.interval, rule.unit);
    CandidateFixedPoint(base, rule.interval, rule.unit);
    IsBeforeChronological(due, c);
  }

  /**
   * Completing on or after the due day (day, week or year unit) schedules the
   * first candidate, which is strictly after both the due day and the
   * completion day.
   */
  lemma LateCompletionAdvancesPastBoth(currentDue: string, rule: Rule, completion: string, depth: nat)
    requires IsISODate(completion) && IsISODate(currentDue) && rule.Every? && rule.unit != Month && depth >= 1
    requires !Before(FromISO(completion), FromISO(currentDue))
    requires Candidate(FromISO(completion), rule.interval, rule.unit).year <= 9999
    ensures var c := Candidate(FromISO(completion), rule.interval, rule.unit);
            NextDue(currentDue, rule, completion, depth) == Next(ToISO(c))
            && Before(FromISO(currentDue), c) && Before(FromISO(completion), c)
  {
    FromISOOfISODate(completion);
    FromISOOfISODate(currentDue);
    ToFromISO(currentDue);
    WalkLateCompletion(FromISO(currentDue), rule, FromISO(completion), depth);
  }

  lemma DailySteps()
    ensures Candidate(Date(2024, 1, 1), 1, Day) == Date(2024, 1, 2)
    ensures Candidate(Date(2024, 1, 2), 1, Day) == Date(2024, 1, 3)
  {
    AddOneDay(Date(2024, 1, 1));
    AddOneDay(Date(2024, 1, 2));
  }

  lemma WalkReanchorExample(depth: nat)
    requires depth >= 2
    ensures Walk(ToISO(Date(2024, 6, 1)), Every(1, Day), Date(2024, 1, 1), depth) == Next(Date(2024, 1, 3))
  {
    var b, c, due, rule := Date(2024, 1, 1), Date(2024, 1, 2), Date(2024, 6, 1), Every(1, Day);
    DailySteps();
    WalkDayWeekYear(ToISO(due), rule, b, depth);
    StrLeChronological(c, due);
  }

  /**
   * A daily task due 2024-06-01 and completed 2024-01-01 re-anchors once and
   * lands on 2024-01-03, still before the old due date.
   */
  lemma ReanchorCanStayBehind(depth: nat)
    requires depth >= 2
    ensures var due, comp := ToISO(Date(2024, 6, 1)), ToISO(Date(2024, 1, 1));
            IsISODate(comp)
            && NextDue(due, Every(1, Day), comp, depth) == Next(ToISO(Date(2024, 1, 3)))
            && IsBefore(ToISO(Date(2024, 1, 3)), due)
  {
    var base := Date(2024, 1, 1);
    ToISOIsISODate(base);
    FromToISO(base);
    WalkReanchorExample(depth);
    IsBeforeChronological(Date(2024, 1, 3), Date(2024, 6, 1));
  }

  /**
   * A monthly task due 2024-01-31 and completed that day never settles: the
   * first candidate is 2024-01-31 itself, and so is every later one.
   */
  lemma MonthlyJan31Diverges(depth: nat)
    ensures var s := ToISO(Date(2024, 1, 31));
            IsISODate(s) && NextDue(s, Every(1, Month), s, depth) == StackOverflow
  {
    var d := Date(2024, 1, 31);
    ToISOIsISODate(d);
    FromToISO(d);
    AddMonthsJan31(d);
    StuckForever(d, Every(1, Month), depth);
  }

  /**
   * A monthly task due 2024-01-15 and completed late, on 2024-01-31, comes
   * back due on the completion day itself: the first candidate is 2024-01-31,
   * which is after the old due date, so it is returned at once.
   */
  lemma MonthlyLateReturnsCompletion(depth: nat)
    requires depth >= 1
    ensures var due, comp := ToISO(Date(2024, 1, 15)), ToISO(Date(2024, 1, 31));
            IsISODate(comp) && NextDue(due, Every(1, Month), comp, depth) == Next(comp)
  {
    var d, due, rule := Date(2024, 1, 31), Date(2024, 1, 15), Every(1, Month);
    ToISOIsISODate(d);
    FromToISO(d);
    AddMonthsJan31(d);
    StrLeChronological(d, due);
    WalkStep(ToISO(due), rule, d, depth);
  }

  // ---------------------------------------------------------------------------
  // The recurrence with the month clamp the source's comment describes.

  /** The candidate when `addMonths` clamps to the end of the target month; other units unchanged. */
  function CandidateClamped(base: Date, interval: int, unit: Unit): (r: Date)
    requires Valid(base)
    ensures Valid(r) && Before(base, r)
  {
    if unit == Month then
      var r := AddMonthsClamped(base, FloorInterval(interval));
      MonthIndexOrder(base, r);
      r
    else
      CandidateFixedPoint(base, interval, unit);
      Candidate(base, interval, unit)
  }

  /** `Walk` with the clamped candidate. */
  function WalkClamped(currentDue: string, rule: Rule, base: Date, depth: nat): (r: Outcome<Date>)
    requires Valid(base)
    ensures rule.NoRepeat? <==> r.NoNext?
    ensures r.Next? ==> Valid(r.due) && Before(base, r.due)
    decreases depth
  {
    match rule
    case NoRepeat => NoNext
    case Every(interval, unit) =>
      if depth == 0 then StackOverflow
      else
        var next := CandidateClamped(base, interval, unit);
        if StrLe(ToISO(next), currentDue) then
          var r := WalkClamped(ToISO(next), rule, next, depth - 1);
          BeforeIsStrictTotalOrder(base, next, if r.Next? then r.due else next);
          r
        else Next(next)
  }

  /** `computeNextDueDate` with `addMonths` clamping to the end of the target month. */
  function NextDueClamped(currentDue: string, rule: Rule, completion: string, depth: nat): (r: Outcome<string>)
    requires IsISOShape(completion)
    ensures rule.NoRepeat? <==> r.NoNext?
  {
    match WalkClamped(currentDue, rule, FromISO(completion), depth)
    case NoNext => NoNext
    case Next(d) => Next(ToISO(d))
    case StackOverflow => StackOverflow
  }

  lemma WalkClampedSettles(currentDue: string, rule: Rule, base: Date, depth: nat)
    requires Valid(base) && base.year >= 1000 && rule.Every? && depth >= 2
    requires var c := CandidateClamped(base, rule.interval, rule.unit);
             CandidateClamped(c, rule.interval, rule.unit).year <= 9999
    ensures WalkClamped(currentDue, rule, base, depth).Next?
  {
    var c := CandidateClamped(base, rule.interval, rule.unit);
    if StrLe(ToISO(c), currentDue) {
      IsBeforeChronological(c, CandidateClamped(c, rule.interval, rule.unit));
    }
  }

  /**
   * With the clamp every unit, the month included, settles after at most one
   * re-anchor, on a day strictly after the completion day.
   */
  lemma ClampedAlwaysSettles(currentDue: string, rule: Rule, completion: string, depth: nat)
    requires IsISODate(completion) && rule.Every? && depth >= 2
    requires var c := CandidateClamped(FromISO(completion), rule.interval, rule.unit);
             CandidateClamped(c, rule.interval, rule.unit).year <= 9999
    ensures var r := NextDueClamped(currentDue, rule, completion, depth);
            r.Next? && IsISODate(r.due) && Before(FromISO(completion), FromISO(r.due))
  {
    var base := FromISO(completion);
    FromISOOfISODate(completion);
    WalkClampedSettles(currentDue, rule, base, depth);
    var w := WalkClamped(currentDue, rule, base, depth);
    ToISOIsISODate(w.due);
    FromToISO(w.due);
  }

  /** The monthly 2024-01-31 task, with the clamp, moves on to 2024-02-29. */
  lemma MonthlyJan31Clamped(depth: nat)
    requires depth >= 1
    ensures var s := ToISO(Date(2024, 1, 31));
            IsISODate(s) && NextDueClamped(s, Every(1, Month), s, depth) == Next(ToISO(Date(2024, 2, 29)))
  {
    var d, e := Date(2024, 1, 31), Date(2024, 2, 29);
    ToISOIsISODate(d);
    FromToISO(d);
    AddMonthsJan31(d);
    IsBeforeChronological(d, e);
  }
}
