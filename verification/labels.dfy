/**
 * The pure helpers of `src/App.tsx`: the month names, `recurrenceLabel`,
 * `plannedLabel`, the schedule fields the quick-add button keeps, and the
 * interval input's floor at 1.
 */
module Labels {
  import opened Wrappers
  import opened Text
  import opened Recurrence
  import opened Store

  const MonthNames: seq<string> := [
    "January", "February", "March", "April", "May", "June",
    "July", "August", "September", "October", "November", "December"]

  /** `monthNames[m - 1] ?? \`Month ${m}\``. */
  function MonthName(m: int): (r: string)
    ensures 1 <= m <= 12 ==> r == MonthNames[m - 1]
    ensures !(1 <= m <= 12) ==> r == "Month " + IntToString(m)
  {
    if 1 <= m <= 12 then MonthNames[m - 1] else "Month " + IntToString(m)
  }

  /** No month's own name starts like the fallback. */
  lemma NamesAreNotFallbacks(m: int)
    requires 1 <= m <= 12
    ensures |MonthNames[m - 1]| < 6 || MonthNames[m - 1][..6] != "Month "
  {
    var n := MonthNames[m - 1];
    assert n[0] != 'M' || n[1] != 'o';
  }

  /** Different month numbers get different labels, inside 1..12 or not. */
  lemma MonthNameInjective(a: int, b: int)
    ensures MonthName(a) == MonthName(b) <==> a == b
  {
    if MonthName(a) == MonthName(b) {
      if 1 <= a <= 12 && 1 <= b <= 12 {
        assert MonthNames[a - 1] == MonthNames[b - 1];
      } else if !(1 <= a <= 12) && !(1 <= b <= 12) {
        assert IntToString(a) == MonthName(a)[6..] && IntToString(b) == MonthName(b)[6..];
        IntToStringInjective(a, b);
      } else if 1 <= a <= 12 {
        NamesAreNotFallbacks(a);
      } else {
        NamesAreNotFallbacks(b);
      }
    }
  }

  function UnitName(u: Unit): string {
    match u
    case Day => "day"
    case Week => "week"
    case Month => "month"
    case Year => "year"
  }

  /** `\` (week ${w})\``. */
  function WeekSuffix(w: int): string {
    " (week " + IntToString(w) + ")"
  }

  /**
   * `recurrenceLabel(task)`: "One-time" for a task that does not repeat;
   * otherwise a phrase starting "Every ", naming the month for a yearly
   * task with a (truthy) `recurrenceMonth` and the week for a monthly task
   * with a (truthy) `recurrenceWeek`.
   */
  function RecurrenceLabel(t: Task): (r: string)
    ensures t.recurrence.NoRepeat? <==> r == "One-time"
    ensures t.recurrence.Every? ==> |r| > 6 && r[..6] == "Every "
  {
    match t.recurrence
    case NoRepeat => "One-time"
    case Every(n, unit) =>
      var r :=
        if unit == Year && TruthyInt(t.recurrenceMonth) then
          var month := MonthName(t.recurrenceMonth.value);
          var week := if TruthyInt(t.recurrenceWeek) then WeekSuffix(t.recurrenceWeek.value) else "";
          if n == 1 then "Every " + month + week
          else "Every " + IntToString(n) + " years in " + month + week
        else if unit == Month && TruthyInt(t.recurrenceWeek) then
          if n == 1 then "Every month" + WeekSuffix(t.recurrenceWeek.value)
          else "Every " + IntToString(n) + " months" + WeekSuffix(t.recurrenceWeek.value)
        else if n == 1 then "Every " + UnitName(unit)
        else "Every " + IntToString(n) + " " + UnitName(unit) + "s";
      assert r[0] == 'E' && "One-time"[0] == 'O';
      r
  }

  /** A rule that gets the plain "Every <unit>" / "Every N <unit>s" phrase. */
  predicate PlainLabel(t: Task) {
    t.recurrence.Every?
    && !(t.recurrence.unit == Year && TruthyInt(t.recurrenceMonth))
    && !(t.recurrence.unit == Month && TruthyInt(t.recurrenceWeek))
  }

  /** A printed integer starts with a digit or a minus sign, never a letter. */
  lemma IntToStringStart(n: int)
    ensures |IntToString(n)| > 0 && (IsDigit(IntToString(n)[0]) || IntToString(n)[0] == '-')
  {
  }

  /** `x + t == y + t` forces `x == y`. */
  lemma CancelSuffix(x: string, y: string, t: string)
    requires x + t == y + t
    ensures x == y
  {
    assert |x| == |y|;
    assert x == (x + t)[..|x|] && y == (y + t)[..|y|];
  }

  /** The part of a plain label after "Every ". */
  function PlainPhrase(n: int, u: Unit): string {
    if n == 1 then UnitName(u) else IntToString(n) + (" " + UnitName(u) + "s")
  }

  lemma PlainLabelShape(t: Task)
    requires PlainLabel(t)
    ensures RecurrenceLabel(t) == "Every " + PlainPhrase(t.recurrence.interval, t.recurrence.unit)
  {
  }

  lemma {:induction false} PlainPhraseInjective(n: int, m: int, u: Unit)
    requires PlainPhrase(n, u) == PlainPhrase(m, u)
    ensures n == m
  {
    IntToStringStart(n);
    IntToStringStart(m);
    var name := UnitName(u);
    assert 'a' <= name[0] <= 'z';
    if n != 1 && m != 1 {
      CancelSuffix(IntToString(n), IntToString(m), " " + name + "s");
      IntToStringInjective(n, m);
    }
  }

  /**
   * Two plain labels of the same unit are equal exactly when the intervals
   * are: the phrase shows the interval as it is stored.
   */
  lemma {:induction false} PlainLabelShowsInterval(a: Task, b: Task)
    requires PlainLabel(a) && PlainLabel(b) && a.recurrence.unit == b.recurrence.unit
    ensures RecurrenceLabel(a) == RecurrenceLabel(b) <==> a.recurrence.interval == b.recurrence.interval
  {
    PlainLabelShape(a);
    PlainLabelShape(b);
    var x, y := PlainPhrase(a.recurrence.interval, a.recurrence.unit), PlainPhrase(b.recurrence.interval, b.recurrence.unit);
    if RecurrenceLabel(a) == RecurrenceLabel(b) {
      assert x == ("Every " + x)[6..] && y == ("Every " + y)[6..];
      PlainPhraseInjective(a.recurrence.interval, b.recurrence.interval, a.recurrence.unit);
    }
  }

  /** `p + x == p + y` forces `x == y`. */
  lemma CancelPrefix(p: string, x: string, y: string)
    requires p + x == p + y
    ensures x == y
  {
    assert x == (p + x)[|p|..] && y == (p + y)[|p|..];
  }

  /** The week suffix shows the week number as it is stored. */
  lemma WeekSuffixInjective(v: int, w: int)
    requires WeekSuffix(v) == WeekSuffix(w)
    ensures v == w
  {
    var x, y := IntToString(v), IntToString(w);
    assert WeekSuffix(v) == " (week " + (x + ")") && WeekSuffix(w) == " (week " + (y + ")");
    CancelPrefix(" (week ", x + ")", y + ")");
    CancelSuffix(x, y, ")");
    IntToStringInjective(v, w);
  }

  /**
   * Two monthly tasks with a week and the same interval get the same label
   * exactly when their weeks are equal.
   */
  lemma {:induction false} MonthlyLabelShowsWeek(a: Task, b: Task)
    requires a.recurrence.Every? && a.recurrence.unit == Month && TruthyInt(a.recurrenceWeek)
    requires b.recurrence == a.recurrence && TruthyInt(b.recurrenceWeek)
    ensures RecurrenceLabel(a) == RecurrenceLabel(b) <==> a.recurrenceWeek == b.recurrenceWeek
  {
    var n := a.recurrence.interval;
    var p := if n == 1 then "Every month" else "Every " + IntToString(n) + " months";
    assert RecurrenceLabel(a) == p + WeekSuffix(a.recurrenceWeek.value);
    assert RecurrenceLabel(b) == p + WeekSuffix(b.recurrenceWeek.value);
    if RecurrenceLabel(a) == RecurrenceLabel(b) {
      CancelPrefix(p, WeekSuffix(a.recurrenceWeek.value), WeekSuffix(b.recurrenceWeek.value));
      WeekSuffixInjective(a.recurrenceWeek.value, b.recurrenceWeek.value);
    }
  }

  /**
   * Two yearly tasks with a month, no week and the same interval get the
   * same label exactly when their months are equal.
   */
  lemma {:induction false} YearlyLabelShowsMonth(a: Task, b: Task)
    requires a.recurrence.Every? && a.recurrence.unit == Year && TruthyInt(a.recurrenceMonth)
    requires b.recurrence == a.recurrence && TruthyInt(b.recurrenceMonth)
    requires !TruthyInt(a.recurrenceWeek) && !TruthyInt(b.recurrenceWeek)
    ensures RecurrenceLabel(a) == RecurrenceLabel(b) <==> a.recurrenceMonth == b.recurrenceMonth
  {
    var n := a.recurrence.interval;
    var p := if n == 1 then "Every " else "Every " + IntToString(n) + " years in ";
    var x, y := MonthName(a.recurrenceMonth.value), MonthName(b.recurrenceMonth.value);
    assert x + "" == x && y + "" == y;
    assert RecurrenceLabel(a) == p + x;
    assert RecurrenceLabel(b) == p + y;
    if RecurrenceLabel(a) == RecurrenceLabel(b) {
      CancelPrefix(p, x, y);
      MonthNameInjective(a.recurrenceMonth.value, b.recurrenceMonth.value);
    }
  }

  /**
   * `plannedLabel(task)`: none for a repeating task or one without a
   * (truthy) `plannedMonth`; otherwise "Planned: " with the month's name and,
   * when `plannedWeek` is truthy, the week.
   */
  function PlannedLabel(t: Task): (r: Option<string>)
    ensures r.None? <==> t.recurrence.Every? || !TruthyInt(t.plannedMonth)
    ensures r.Some? ==> |r.value| > 9 && r.value[..9] == "Planned: "
  {
    if t.recurrence.Every? then None
    else if !TruthyInt(t.plannedMonth) then None
    else
      var month := MonthName(t.plannedMonth.value);
      var text := if TruthyInt(t.plannedWeek) then "Planned: " + month + WeekSuffix(t.plannedWeek.value) else "Planned: " + month;
      assert |month| > 0 by {
        if 1 <= t.plannedMonth.value <= 12 {
          assert |MonthNames[t.plannedMonth.value - 1]| >= 3;
        }
      }
      Some(text)
  }

  /** None of the twelve names contains "(". */
  lemma NamesNoParen(m: int)
    requires 1 <= m <= 12
    ensures '(' !in MonthNames[m - 1]
  {
  }

  /** The fallback "Month m" contains no "(" either: a printed integer is digits and a sign. */
  lemma FallbackNoParen(m: int)
    ensures '(' !in "Month " + IntToString(m)
  {
    var s := IntToString(m);
    if m < 0 {
      assert forall i :: 1 <= i < |s| ==> s[i] == NatToString(-m)[i - 1];
    }
    assert forall i :: 0 <= i < |s| ==> IsDigit(s[i]) || s[i] == '-';
  }

  /** No month label, named or fallback, contains "(", where the week suffix begins. */
  lemma MonthNameNoParen(m: int)
    ensures '(' !in MonthName(m)
  {
    if 1 <= m <= 12 {
      NamesNoParen(m);
    } else {
      FallbackNoParen(m);
    }
  }

  /** Where the first "(" of a name followed by a week part sits. */
  lemma ParenAfterName(x: string, s: string)
    requires '(' !in x
    requires s == "" || (|s| >= 2 && s[0] == ' ' && s[1] == '(')
    ensures forall i :: 0 <= i < |x| ==> (x + s)[i] != '('
    ensures s == "" ==> '(' !in x + s
    ensures s != "" ==> (x + s)[|x|] == ' ' && (x + s)[|x| + 1] == '('
  {
  }

  /**
   * A name without "(" followed by nothing or by something starting " (" can
   * be split back into the two: the first "(" marks where the name ends.
   */
  lemma SplitAtParen(x: string, s: string, y: string, t: string)
    requires '(' !in x && '(' !in y
    requires s == "" || (|s| >= 2 && s[0] == ' ' && s[1] == '(')
    requires t == "" || (|t| >= 2 && t[0] == ' ' && t[1] == '(')
    requires x + s == y + t
    ensures x == y && s == t
  {
    ParenAfterName(x, s);
    ParenAfterName(y, t);
    assert |x| == |y|;
    assert x == (x + s)[..|x|] && y == (y + t)[..|y|];
    assert s == (x + s)[|x|..] && t == (y + t)[|y|..];
  }

  /** The week part of a planned label: the suffix, or nothing. */
  function PlannedWeekPart(t: Task): (r: string)
    ensures r == "" || (|r| >= 2 && r[0] == ' ' && r[1] == '(')
  {
    if TruthyInt(t.plannedWeek) then WeekSuffix(t.plannedWeek.value) else ""
  }

  lemma PlannedLabelText(t: Task)
    requires PlannedLabel(t).Some?
    ensures PlannedLabel(t).value == "Planned: " + (MonthName(t.plannedMonth.value) + PlannedWeekPart(t))
  {
    assert MonthName(t.plannedMonth.value) + "" == MonthName(t.plannedMonth.value);
  }

  /**
   * Two planned labels are equal exactly when the tasks plan the same month
   * and the same week, a falsy week counting as no week: the label shows
   * both as they are stored.
   */
  lemma {:induction false} PlannedLabelShowsPlan(a: Task, b: Task)
    requires PlannedLabel(a).Some? && PlannedLabel(b).Some?
    ensures PlannedLabel(a) == PlannedLabel(b) <==>
              a.plannedMonth == b.plannedMonth
              && TruthyInt(a.plannedWeek) == TruthyInt(b.plannedWeek)
              && (TruthyInt(a.plannedWeek) ==> a.plannedWeek == b.plannedWeek)
  {
    var x, y := MonthName(a.plannedMonth.value), MonthName(b.plannedMonth.value);
    var s, t := PlannedWeekPart(a), PlannedWeekPart(b);
    PlannedLabelText(a);
    PlannedLabelText(b);
    if PlannedLabel(a) == PlannedLabel(b) {
      CancelPrefix("Planned: ", x + s, y + t);
      MonthNameNoParen(a.plannedMonth.value);
      MonthNameNoParen(b.plannedMonth.value);
      SplitAtParen(x, s, y, t);
      MonthNameInjective(a.plannedMonth.value, b.plannedMonth.value);
      if TruthyInt(a.plannedWeek) && TruthyInt(b.plannedWeek) {
        WeekSuffixInjective(a.plannedWeek.value, b.plannedWeek.value);
      }
    }
  }

  // ---------------------------------------------------------------------------
  // Quick add

  /**
   * The quick-add form. The select boxes hold a number or "" (`None`); the
   * date input holds a string, "" when empty.
   */
  datatype QuickAddForm = QuickAddForm(
    recurring: bool,
    interval: int,
    unit: Unit,
    dueDate: string,
    plannedMonth: Option<int>,
    plannedWeek: Option<int>,
    recurrenceMonth: Option<int>,
    recurrenceWeek: Option<int>)

  /** The schedule fields the new task is given. */
  datatype Schedule = Schedule(
    recurrence: Rule,
    dueDate: Option<string>,
    plannedMonth: Option<int>,
    plannedWeek: Option<int>,
    recurrenceMonth: Option<int>,
    recurrenceWeek: Option<int>)

  /**
   * The fields a schedule may hold together: a due date or a planned month
   * only on a one-time task and not both, a planned week only under a
   * planned month, a recurrence month only on a yearly rule, a recurrence
   * week only on a monthly rule or a yearly one with a month; and no zeros.
   */
  predicate Consistent(s: Schedule) {
    (s.dueDate.Some? ==> s.recurrence.NoRepeat? && s.dueDate.value != "" && s.plannedMonth.None?)
    && (s.plannedMonth.Some? ==> s.recurrence.NoRepeat? && s.plannedMonth.value != 0)
    && (s.plannedWeek.Some? ==> s.plannedMonth.Some? && s.plannedWeek.value != 0)
    && (s.recurrenceMonth.Some? ==> s.recurrence.Every? && s.recurrence.unit == Year && s.recurrenceMonth.value != 0)
    && (s.recurrenceWeek.Some? ==>
          s.recurrence.Every? && s.recurrenceWeek.value != 0
          && (s.recurrence.unit == Month || (s.recurrence.unit == Year && s.recurrenceMonth.Some?)))
  }

  /**
   * The quick-add button's normalisation: which of the form's fields the new
   * task keeps. Each survives only in the situation it belongs to, and then
   * with the value the form holds.
   */
  function QuickAddSchedule(f: QuickAddForm): (r: Schedule)
    ensures Consistent(r)
    ensures r.recurrence.Every? <==> f.recurring
    ensures r.dueDate.Some? <==> !f.recurring && f.dueDate != ""
    ensures r.plannedMonth.Some? <==> !f.recurring && f.dueDate == "" && TruthyInt(f.plannedMonth)
    ensures r.plannedWeek.Some? <==> r.plannedMonth.Some? && TruthyInt(f.plannedWeek)
    ensures r.recurrenceMonth.Some? <==> f.recurring && f.unit == Year && TruthyInt(f.recurrenceMonth)
    ensures r.recurrenceWeek.Some? <==>
              f.recurring && (f.unit == Month || (f.unit == Year && TruthyInt(f.recurrenceMonth))) && TruthyInt(f.recurrenceWeek)
    ensures r.dueDate.Some? ==> r.dueDate.value == f.dueDate
    ensures r.plannedMonth.Some? ==> r.plannedMonth == f.plannedMonth
    ensures r.plannedWeek.Some? ==> r.plannedWeek == f.plannedWeek
    ensures r.recurrenceMonth.Some? ==> r.recurrenceMonth == f.recurrenceMonth
    ensures r.recurrenceWeek.Some? ==> r.recurrenceWeek == f.recurrenceWeek
  {
    var plannedMonth := if !f.recurring && f.dueDate == "" && TruthyInt(f.plannedMonth) then f.plannedMonth else None;
    var plannedWeek := if TruthyInt(plannedMonth) && TruthyInt(f.plannedWeek) then f.plannedWeek else None;
    var recurrenceMonth := if f.recurring && f.unit == Year && TruthyInt(f.recurrenceMonth) then f.recurrenceMonth else None;
    var recurrenceWeek :=
      if f.recurring && (f.unit == Month || (f.unit == Year && TruthyInt(f.recurrenceMonth))) && TruthyInt(f.recurrenceWeek)
      then f.recurrenceWeek else None;
    Schedule(
      if f.recurring then Every(f.interval, f.unit) else NoRepeat,
      if !f.recurring && f.dueDate != "" then Some(f.dueDate) else None,
      plannedMonth, plannedWeek, recurrenceMonth, recurrenceWeek)
  }

  /** The form that shows a schedule: empty fields for what it does not hold. */
  function FormOf(s: Schedule, interval: int, unit: Unit): QuickAddForm {
    QuickAddForm(
      s.recurrence.Every?,
      if s.recurrence.Every? then s.recurrence.interval else interval,
      if s.recurrence.Every? then s.recurrence.unit else unit,
      if s.dueDate.Some? then s.dueDate.value else "",
      s.plannedMonth, s.plannedWeek, s.recurrenceMonth, s.recurrenceWeek)
  }

  /**
   * Normalising is idempotent: a consistent schedule, put back into the
   * form, comes out unchanged; so does every schedule the button produces.
   */
  lemma QuickAddIdempotent(s: Schedule, interval: int, unit: Unit)
    requires Consistent(s)
    ensures QuickAddSchedule(FormOf(s, interval, unit)) == s
  {
  }

  /** `Math.max(1, Number(value || 1))` on the interval input; `None` is the empty field. */
  function IntervalInput(v: Option<int>): (n: int)
    ensures n >= 1
    ensures v.Some? && v.value >= 1 ==> n == v.value
  {
    var raw := if v.None? then 1 else v.value;
    if raw < 1 then 1 else raw
  }

  /**
   * The input's floor and `computeNextDueDate`'s agree, so a rule holding
   * the raw number schedules exactly like one holding the floored number.
   */
  lemma IntervalInputAgreesWithEngine(k: int, unit: Unit, currentDue: string, completion: string, depth: nat)
    requires IsoDate.IsISOShape(completion)
    ensures IntervalInput(Some(k)) == FloorInterval(k)
    ensures NextDue(currentDue, Every(k, unit), completion, depth)
         == NextDue(currentDue, Every(IntervalInput(Some(k)), unit), completion, depth)
  {
    if k <= 0 {
      IntervalFloored(currentDue, k, unit, completion, depth);
    }
  }
}
