/**
 * The application state of `src/types.ts` and the snapshot operations of
 * `src/lib/logic.ts`. Every operation returns a new state and leaves its
 * argument alone, as the source's spread copies do.
 *
 * `Date.now()` and the random ids become parameters (`now`, `id`). Fields
 * that JavaScript may leave `undefined` are `Option`s; where the source
 * tests them for truthiness, the `Truthy*` predicates say exactly which
 * values count (`0` and `""` are falsy as well as `undefined`).
 */
module Store {
  import opened Wrappers
  import opened Text
  import opened Calendar
  import opened IsoDate
  import opened Recurrence
  import opened Lists

  datatype Category = Category(id: string, name: string, sortOrder: int)

  /**
   * A task. `plannedMonth`, `plannedWeek`, `recurrenceMonth` and
   * `recurrenceWeek` are read by the store and the UI though the type
   * declaration omits them; they are carried here like the others.
   */
  datatype Task = Task(
    id: string,
    title: string,
    categoryId: string,
    notes: Option<string>,
    createdAt: int,
    dueDate: Option<string>,
    recurrence: Rule,
    nextDueDate: Option<string>,
    lastCompletedAt: Option<int>,
    completedAt: Option<int>,
    archived: Option<bool>,
    plannedMonth: Option<int>,
    plannedWeek: Option<int>,
    recurrenceMonth: Option<int>,
    recurrenceWeek: Option<int>)

  datatype Goal = Goal(id: string, title: string, active: bool, sortOrder: int)

  datatype GoalLog = GoalLog(date: string, goalId: string, completed: bool, completedAt: Option<int>)

  datatype AppState = AppState(
    version: int,
    categories: seq<Category>,
    tasks: seq<Task>,
    goals: seq<Goal>,
    goalLogs: seq<GoalLog>,
    strictMode: bool)

  predicate TruthyInt(o: Option<int>) {
    o.Some? && o.value != 0
  }

  predicate TruthyString(o: Option<string>) {
    o.Some? && o.value != ""
  }

  predicate TruthyBool(o: Option<bool>) {
    o.Some? && o.value
  }

  // ---------------------------------------------------------------------------
  // Daily goal logs

  /** Some log of `logs` is for goal `id` on day `today`. */
  predicate HasLogOn(logs: seq<GoalLog>, today: string, id: string) {
    exists l :: l in logs && l.date == today && l.goalId == id
  }

  /** An active goal of `goals` with no log on `today` in `logs`. */
  predicate Missing(g: Goal, logs: seq<GoalLog>, today: string) {
    g.active && !HasLogOn(logs, today, g.id)
  }

  /**
   * The goals `ensureTodayGoalLogs` creates a log for: the active goals with
   * no log on `today` before the call, in goal order. The set of ids with a
   * log is taken once, up front, so two active goals sharing an id both
   * count.
   */
  function MissingGoals(goals: seq<Goal>, logs: seq<GoalLog>, today: string): (r: seq<Goal>)
    ensures IsSubseq(r, goals)
    ensures forall g :: g in r <==> g in goals && Missing(g, logs, today)
    ensures forall g :: g in goals && Missing(g, logs, today) ==> multiset(r)[g] == multiset(goals)[g]
    ensures multiset(r) <= multiset(goals)
    decreases |goals|
  {
    if |goals| == 0 then []
    else
      var rest := MissingGoals(goals[1..], logs, today);
      assert goals == [goals[0]] + goals[1..];
      if Missing(goals[0], logs, today) then
        assert ([goals[0]] + rest)[1..] == rest;
        [goals[0]] + rest
      else rest
  }

  /** The new logs: one uncompleted log on `today` per missing goal. */
  function NewLogs(goals: seq<Goal>, logs: seq<GoalLog>, today: string): (r: seq<GoalLog>)
    ensures |r| == |MissingGoals(goals, logs, today)|
    ensures forall i :: 0 <= i < |r| ==>
              r[i].date == today && r[i].goalId == MissingGoals(goals, logs, today)[i].id
              && !r[i].completed && r[i].completedAt.None?
    ensures forall i :: 0 <= i < |r| ==> !HasLogOn(logs, today, r[i].goalId)
  {
    var m := MissingGoals(goals, logs, today);
    assert forall i :: 0 <= i < |m| ==> Missing(m[i], logs, today) by {
      forall i | 0 <= i < |m| ensures Missing(m[i], logs, today) {
        assert m[i] in m;
      }
    }
    seq(|m|, i requires 0 <= i < |m| => GoalLog(today, m[i].id, false, None))
  }

  lemma {:induction false} NewLogsEmpty(goals: seq<Goal>, logs: seq<GoalLog>, today: string)
    ensures NewLogs(goals, logs, today) == [] <==> forall g :: g in goals && g.active ==> HasLogOn(logs, today, g.id)
  {
    var m := MissingGoals(goals, logs, today);
    if |m| > 0 {
      assert m[0] in m;
    }
  }

  /**
   * `ensureTodayGoalLogs(state, today)`: every active goal gets a log on
   * `today`. Old logs stay as they were, in front; the new ones follow.
   * When nothing is missing the very same state comes back.
   */
  function EnsureTodayGoalLogs(state: AppState, today: string): (r: AppState)
    ensures r.(goalLogs := state.goalLogs) == state
    ensures |r.goalLogs| >= |state.goalLogs| && r.goalLogs[..|state.goalLogs|] == state.goalLogs
    ensures forall g :: g in state.goals && g.active ==> HasLogOn(r.goalLogs, today, g.id)
    ensures forall i :: |state.goalLogs| <= i < |r.goalLogs| ==> NewLogFor(r.goalLogs[i], state, today)
    ensures r == state <==> forall g :: g in state.goals && g.active ==> HasLogOn(state.goalLogs, today, g.id)
  {
    var added := NewLogs(state.goals, state.goalLogs, today);
    NewLogsEmpty(state.goals, state.goalLogs, today);
    AppendedLogs(state, today);
    if |added| == 0 then state
    else state.(goalLogs := state.goalLogs + added)
  }

  lemma {:induction false} AppendedLogs(state: AppState, today: string)
    ensures var logs := state.goalLogs + NewLogs(state.goals, state.goalLogs, today);
            logs[..|state.goalLogs|] == state.goalLogs
            && (forall g :: g in state.goals && g.active ==> HasLogOn(logs, today, g.id))
            && (forall i :: |state.goalLogs| <= i < |logs| ==> NewLogFor(logs[i], state, today))
  {
    var added := NewLogs(state.goals, state.goalLogs, today);
    var logs := state.goalLogs + added;
    assert logs[..|state.goalLogs|] == state.goalLogs;
    forall g | g in state.goals && g.active
      ensures HasLogOn(logs, today, g.id)
    {
      NewLogsCover(state.goals, state.goalLogs, today, g);
    }
    forall i | |state.goalLogs| <= i < |logs|
      ensures NewLogFor(logs[i], state, today)
    {
      NewLogsOrigin(state.goals, state.goalLogs, today, i - |state.goalLogs|);
      assert logs[i] == added[i - |state.goalLogs|];
    }
  }

  /** A log `ensureTodayGoalLogs` may add: fresh, for today, for an active goal that had none. */
  predicate NewLogFor(l: GoalLog, state: AppState, today: string) {
    l.date == today && !l.completed && l.completedAt.None?
    && exists g :: g in state.goals && g.id == l.goalId && Missing(g, state.goalLogs, today)
  }

  /** After adding the new logs, every active goal has a log on `today`. */
  lemma {:induction false} NewLogsCover(goals: seq<Goal>, logs: seq<GoalLog>, today: string, g: Goal)
    requires g in goals && g.active
    ensures HasLogOn(logs + NewLogs(goals, logs, today), today, g.id)
  {
    var all := logs + NewLogs(goals, logs, today);
    if HasLogOn(logs, today, g.id) {
      var l :| l in logs && l.date == today && l.goalId == g.id;
      assert l in all;
    } else {
      var m := MissingGoals(goals, logs, today);
      var k :| 0 <= k < |m| && m[k] == g;
      assert all[|logs| + k] == NewLogs(goals, logs, today)[k];
      assert all[|logs| + k] in all;
    }
  }

  /** Each new log is one `NewLogFor` allows. */
  lemma {:induction false} NewLogsOrigin(goals: seq<Goal>, logs: seq<GoalLog>, today: string, k: int)
    requires 0 <= k < |NewLogs(goals, logs, today)|
    ensures var l := NewLogs(goals, logs, today)[k];
            l.date == today && !l.completed && l.completedAt.None?
            && exists g :: g in goals && g.id == l.goalId && Missing(g, logs, today)
  {
    var m := MissingGoals(goals, logs, today);
    assert m[k] in m;
  }

  /** A second `ensureTodayGoalLogs` on the same day adds nothing. */
  lemma EnsureTodayGoalLogsIdempotent(state: AppState, today: string)
    ensures EnsureTodayGoalLogs(EnsureTodayGoalLogs(state, today), today) == EnsureTodayGoalLogs(state, today)
  {
  }

  /** One log under `toggleGoalForToday`. */
  function ToggleLog(l: GoalLog, today: string, goalId: string, now: int): GoalLog {
    if l.date != today || l.goalId != goalId then l
    else l.(completed := !l.completed, completedAt := if !l.completed then Some(now) else None)
  }

  /**
   * `toggleGoalForToday(state, today, goalId)`: the logs of that goal on
   * that day flip `completed`; `completedAt` is the time of the toggle when
   * they become completed and is cleared otherwise. Every other log stays.
   */
  function ToggleGoalForToday(state: AppState, today: string, goalId: string, now: int): (r: AppState)
    ensures r.(goalLogs := state.goalLogs) == state
    ensures |r.goalLogs| == |state.goalLogs|
    ensures forall i :: 0 <= i < |state.goalLogs| ==>
              var l, m := state.goalLogs[i], r.goalLogs[i];
              if l.date == today && l.goalId == goalId then
                m.date == l.date && m.goalId == l.goalId && m.completed == !l.completed
                && (m.completedAt.Some? <==> m.completed) && (m.completed ==> m.completedAt == Some(now))
              else m == l
  {
    state.(goalLogs := seq(|state.goalLogs|, i requires 0 <= i < |state.goalLogs| => ToggleLog(state.goalLogs[i], today, goalId, now)))
  }

  /** With no log for that goal on that day, the toggle changes nothing. */
  lemma ToggleWithoutLog(state: AppState, today: string, goalId: string, now: int)
    requires !HasLogOn(state.goalLogs, today, goalId)
    ensures ToggleGoalForToday(state, today, goalId, now) == state
  {
    var r := ToggleGoalForToday(state, today, goalId, now);
    forall i | 0 <= i < |state.goalLogs|
      ensures r.goalLogs[i] == state.goalLogs[i]
    {
      assert state.goalLogs[i] in state.goalLogs;
    }
  }

  /**
   * Toggling twice restores every `completed` flag of the matching logs (the
   * time is that of the second toggle, or cleared) and leaves the other logs equal.
   */
  lemma ToggleTwice(state: AppState, today: string, goalId: string, now: int, later: int)
    ensures var r := ToggleGoalForToday(ToggleGoalForToday(state, today, goalId, now), today, goalId, later);
            |r.goalLogs| == |state.goalLogs|
            && forall i :: 0 <= i < |state.goalLogs| ==>
                 var l, m := state.goalLogs[i], r.goalLogs[i];
                 if l.date == today && l.goalId == goalId then
                   m == l.(completedAt := if l.completed then Some(later) else None)
                 else m == l
  {
    var once := ToggleGoalForToday(state, today, goalId, now);
    var r := ToggleGoalForToday(once, today, goalId, later);
    forall i | 0 <= i < |state.goalLogs|
      ensures var l, m := state.goalLogs[i], r.goalLogs[i];
              if l.date == today && l.goalId == goalId then
                m == l.(completedAt := if l.completed then Some(later) else None)
              else m == l
    {
      assert once.goalLogs[i].date == state.goalLogs[i].date && once.goalLogs[i].goalId == state.goalLogs[i].goalId;
    }
  }

  // ---------------------------------------------------------------------------
  // goalsForToday

  datatype GoalEntry = GoalEntry(goal: Goal, log: Option<GoalLog>)

  predicate SortedBySortOrder(gs: seq<Goal>) {
    forall i, j :: 0 <= i < j < |gs| ==> gs[i].sortOrder <= gs[j].sortOrder
  }

  /** Insert `g` in front of the first goal whose `sortOrder` is not smaller. */
  function InsertGoal(g: Goal, gs: seq<Goal>): seq<Goal>
    decreases |gs|
  {
    if |gs| == 0 || g.sortOrder <= gs[0].sortOrder then [g] + gs
    else [gs[0]] + InsertGoal(g, gs[1..])
  }

  /** Inserting adds exactly `g`. */
  lemma {:induction false} InsertGoalAdds(g: Goal, gs: seq<Goal>)
    ensures multiset(InsertGoal(g, gs)) == multiset(gs) + multiset{g}
    decreases |gs|
  {
    if |gs| > 0 && g.sortOrder > gs[0].sortOrder {
      InsertGoalAdds(g, gs[1..]);
      assert gs == [gs[0]] + gs[1..];
    }
  }

  /** A lower bound on `g` and on every goal of `gs` bounds the result too. */
  lemma {:induction false} InsertGoalBound(g: Goal, gs: seq<Goal>, b: int)
    requires b <= g.sortOrder
    requires forall k :: 0 <= k < |gs| ==> b <= gs[k].sortOrder
    ensures |InsertGoal(g, gs)| == |gs| + 1
    ensures forall k :: 0 <= k < |InsertGoal(g, gs)| ==> b <= InsertGoal(g, gs)[k].sortOrder
    decreases |gs|
  {
    if |gs| > 0 && g.sortOrder > gs[0].sortOrder {
      InsertGoalBound(g, gs[1..], b);
    }
  }

  /** Inserting into a sorted list keeps it sorted. */
  lemma {:induction false} InsertGoalSorted(g: Goal, gs: seq<Goal>)
    requires SortedBySortOrder(gs)
    ensures SortedBySortOrder(InsertGoal(g, gs))
    decreases |gs|
  {
    if |gs| > 0 && g.sortOrder > gs[0].sortOrder {
      InsertGoalSorted(g, gs[1..]);
      InsertGoalBound(g, gs[1..], gs[0].sortOrder);
      var rest := InsertGoal(g, gs[1..]);
      var r := [gs[0]] + rest;
      forall i, j | 0 <= i < j < |r|
        ensures r[i].sortOrder <= r[j].sortOrder
      {
        assert r[j] == rest[j - 1];
        if i > 0 {
          assert r[i] == rest[i - 1];
        }
      }
    }
  }

  /** `.sort((a, b) => a.sortOrder - b.sortOrder)`, a stable sort by `sortOrder`. */
  function SortGoals(gs: seq<Goal>): (r: seq<Goal>)
    ensures SortedBySortOrder(r)
    ensures multiset(r) == multiset(gs)
    decreases |gs|
  {
    if |gs| == 0 then []
    else
      assert gs == [gs[0]] + gs[1..];
      InsertGoalSorted(gs[0], SortGoals(gs[1..]));
      InsertGoalAdds(gs[0], SortGoals(gs[1..]));
      InsertGoal(gs[0], SortGoals(gs[1..]))
  }

  /**
   * `byId.get(id)` for the map built from today's logs: later entries
   * overwrite earlier ones, so this is the LAST log of that goal on that day.
   */
  function LastLogOn(logs: seq<GoalLog>, today: string, id: string): (r: Option<GoalLog>)
    ensures r.None? <==> !HasLogOn(logs, today, id)
    ensures r.Some? ==> exists i :: 0 <= i < |logs| && logs[i] == r.value
                          && r.value.date == today && r.value.goalId == id
                          && forall j :: i < j < |logs| ==> !(logs[j].date == today && logs[j].goalId == id)
    decreases |logs|
  {
    if |logs| == 0 then None
    else
      var l := logs[|logs| - 1];
      var front := logs[..|logs| - 1];
      assert logs == front + [l];
      if l.date == today && l.goalId == id then Some(l)
      else
        var r := LastLogOn(front, today, id);
        assert forall m :: m in logs ==> m in front || m == l;
        r
  }

  function GoalsOf(entries: seq<GoalEntry>): (r: seq<Goal>)
    ensures |r| == |entries|
    ensures forall i :: 0 <= i < |r| ==> r[i] == entries[i].goal
  {
    seq(|entries|, i requires 0 <= i < |entries| => entries[i].goal)
  }

  /** `goals.filter((g) => g.active)`, described by how often each goal occurs. */
  function ActiveGoals(gs: seq<Goal>): (r: seq<Goal>)
    ensures forall g :: multiset(r)[g] == if g.active then multiset(gs)[g] else 0
    decreases |gs|
  {
    if |gs| == 0 then []
    else
      assert gs == [gs[0]] + gs[1..];
      (if gs[0].active then [gs[0]] else []) + ActiveGoals(gs[1..])
  }

  /**
   * `goalsForToday(state, today)`: exactly the active goals, each as often as
   * it occurs, ordered by `sortOrder`, each with its log on `today` when
   * there is one.
   */
  function GoalsForToday(state: AppState, today: string): (r: seq<GoalEntry>)
    ensures forall g :: multiset(GoalsOf(r))[g] == if g.active then multiset(state.goals)[g] else 0
    ensures SortedBySortOrder(GoalsOf(r))
    ensures forall i :: 0 <= i < |r| ==> (r[i].log.Some? <==> HasLogOn(state.goalLogs, today, r[i].goal.id))
    ensures forall i :: 0 <= i < |r| && r[i].log.Some? ==>
              r[i].log.value in state.goalLogs && r[i].log.value.date == today && r[i].log.value.goalId == r[i].goal.id
  {
    var active := SortGoals(ActiveGoals(state.goals));
    var r := seq(|active|, i requires 0 <= i < |active| => GoalEntry(active[i], LastLogOn(state.goalLogs, today, active[i].id)));
    assert GoalsOf(r) == active;
    r
  }

  /** Every active goal shows up in `goalsForToday`, and nothing else does. */
  lemma GoalsForTodayMembers(state: AppState, today: string, g: Goal)
    ensures g in GoalsOf(GoalsForToday(state, today)) <==> g in state.goals && g.active
  {
    var r := GoalsOf(GoalsForToday(state, today));
    assert g in r <==> g in multiset(r);
    assert g in state.goals <==> g in multiset(state.goals);
  }

  // ---------------------------------------------------------------------------
  // Goals

  /** `Math.max(0, ...goals.map((g: Goal) => g.sortOrder))`. */
  function MaxSortOrder(gs: seq<Goal>): (m: int)
    ensures m >= 0
    ensures forall i :: 0 <= i < |gs| ==> gs[i].sortOrder <= m
    ensures m == 0 || exists i :: 0 <= i < |gs| && gs[i].sortOrder == m
    decreases |gs|
  {
    if |gs| == 0 then 0
    else
      var rest := MaxSortOrder(gs[1..]);
      if gs[0].sortOrder > rest then gs[0].sortOrder
      else
        assert forall i :: 1 <= i < |gs| ==> gs[i] == gs[1..][i - 1];
        rest
  }

  /**
   * `addGoal(state, title)` with the generated id passed in: one active goal
   * with the trimmed title is appended, ordered after every existing goal.
   */
  function AddGoal(state: AppState, title: string, id: string): (r: AppState)
    ensures r.(goals := state.goals) == state
    ensures |r.goals| == |state.goals| + 1 && r.goals[..|state.goals|] == state.goals
    ensures var g := r.goals[|state.goals|];
            g.id == id && g.title == Trim(title) && g.active
            && g.sortOrder >= 1
            && (forall i :: 0 <= i < |state.goals| ==> state.goals[i].sortOrder < g.sortOrder)
            && (g.sortOrder == 1 || exists i :: 0 <= i < |state.goals| && state.goals[i].sortOrder == g.sortOrder - 1)
  {
    var goal := Goal(id, Trim(title), true, MaxSortOrder(state.goals) + 1);
    assert (state.goals + [goal])[..|state.goals|] == state.goals;
    state.(goals := state.goals + [goal])
  }

  /** `Partial<GoalDefinition>`: for each field, keep it or overwrite it. */
  datatype Field<T> = Keep | Put(value: T)

  function Patch<T>(current: T, f: Field<T>): T {
    if f.Put? then f.value else current
  }

  datatype GoalPatch = GoalPatch(id: Field<string>, title: Field<string>, active: Field<bool>, sortOrder: Field<int>)

  /** `{ ...p, ...q }` for one field: the later patch wins where it sets the field. */
  function Then<T>(p: Field<T>, q: Field<T>): Field<T> {
    if q.Put? then q else p
  }

  /** `{ ...g, ...patch }`. */
  function PatchGoal(g: Goal, p: GoalPatch): (r: Goal)
    ensures p == GoalPatch(Keep, Keep, Keep, Keep) ==> r == g
    ensures p.id.Put? && p.title.Put? && p.active.Put? && p.sortOrder.Put?
            ==> r == Goal(p.id.value, p.title.value, p.active.value, p.sortOrder.value)
  {
    Goal(Patch(g.id, p.id), Patch(g.title, p.title), Patch(g.active, p.active), Patch(g.sortOrder, p.sortOrder))
  }

  /** `{ ...p, ...q }` for goal patches. */
  function ThenGoal(p: GoalPatch, q: GoalPatch): GoalPatch {
    GoalPatch(Then(p.id, q.id), Then(p.title, q.title), Then(p.active, q.active), Then(p.sortOrder, q.sortOrder))
  }

  /** Spreading the same patch twice is spreading it once. */
  lemma PatchGoalIdempotent(g: Goal, p: GoalPatch)
    ensures PatchGoal(PatchGoal(g, p), p) == PatchGoal(g, p)
  {
  }

  /** Spreading `p` and then `q` is spreading the merged patch `{ ...p, ...q }`. */
  lemma PatchGoalThen(g: Goal, p: GoalPatch, q: GoalPatch)
    ensures PatchGoal(PatchGoal(g, p), q) == PatchGoal(g, ThenGoal(p, q))
  {
  }

  /**
   * `updateGoal(state, goalId, patch)`: the goals with that id are patched,
   * the others kept, the list keeps its length and order.
   */
  function UpdateGoal(state: AppState, goalId: string, patch: GoalPatch): (r: AppState)
    ensures r.(goals := state.goals) == state
    ensures |r.goals| == |state.goals|
    ensures forall i :: 0 <= i < |state.goals| ==>
              r.goals[i] == if state.goals[i].id == goalId then PatchGoal(state.goals[i], patch) else state.goals[i]
  {
    state.(goals := seq(|state.goals|, i requires 0 <= i < |state.goals| =>
                          if state.goals[i].id == goalId then PatchGoal(state.goals[i], patch) else state.goals[i]))
  }

  /** Updating an id no goal has returns an equal state. */
  lemma UpdateGoalUnknown(state: AppState, goalId: string, patch: GoalPatch)
    requires forall i :: 0 <= i < |state.goals| ==> state.goals[i].id != goalId
    ensures UpdateGoal(state, goalId, patch) == state
  {
  }

  /** Running the same update twice is running it once, even when the patch changes the id. */
  lemma UpdateGoalIdempotent(state: AppState, goalId: string, patch: GoalPatch)
    ensures UpdateGoal(UpdateGoal(state, goalId, patch), goalId, patch) == UpdateGoal(state, goalId, patch)
  {
    var r := UpdateGoal(state, goalId, patch);
    var r2 := UpdateGoal(r, goalId, patch);
    forall i | 0 <= i < |r.goals|
      ensures r2.goals[i] == r.goals[i]
    {
      PatchGoalIdempotent(state.goals[i], patch);
    }
    assert r2.goals == r.goals;
  }

  /** A patch that sets nothing leaves every goal as it was. */
  lemma UpdateGoalEmptyPatch(state: AppState, goalId: string)
    ensures UpdateGoal(state, goalId, GoalPatch(Keep, Keep, Keep, Keep)) == state
  {
    var r := UpdateGoal(state, goalId, GoalPatch(Keep, Keep, Keep, Keep));
    assert r.goals == state.goals;
  }

  /**
   * `deleteGoal(state, goalId)`: the goals with that id and exactly the logs
   * with that goal id are dropped; everything else stays, in order.
   */
  function DeleteGoal(state: AppState, goalId: string): (r: AppState)
    ensures r.(goals := state.goals, goalLogs := state.goalLogs) == state
    ensures IsSubseq(r.goals, state.goals) && IsSubseq(r.goalLogs, state.goalLogs)
    ensures forall g :: g in r.goals <==> g in state.goals && g.id != goalId
    ensures forall l :: l in r.goalLogs <==> l in state.goalLogs && l.goalId != goalId
    ensures forall g :: g in state.goals && g.id != goalId ==> multiset(r.goals)[g] == multiset(state.goals)[g]
    ensures forall l :: l in state.goalLogs && l.goalId != goalId ==> multiset(r.goalLogs)[l] == multiset(state.goalLogs)[l]
  {
    var goals := Filter(state.goals, (g: Goal) => g.id != goalId);
    var logs := Filter(state.goalLogs, (l: GoalLog) => l.goalId != goalId);
    forall g
      ensures g in goals <==> g in state.goals && g.id != goalId
    {
      FilterMember(state.goals, (g: Goal) => g.id != goalId, g);
    }
    forall l
      ensures l in logs <==> l in state.goalLogs && l.goalId != goalId
    {
      FilterMember(state.goalLogs, (l: GoalLog) => l.goalId != goalId, l);
    }
    state.(goals := goals, goalLogs := logs)
  }

  // ---------------------------------------------------------------------------
  // Tasks

  /**
   * `addTask(state, task)` with the generated id and `Date.now()` passed in:
   * the draft is appended with those two fields set and nothing else changed.
   */
  function AddTask(state: AppState, draft: Task, id: string, now: int): (r: AppState)
    ensures r.(tasks := state.tasks) == state
    ensures |r.tasks| == |state.tasks| + 1 && r.tasks[..|state.tasks|] == state.tasks
    ensures r.tasks[|state.tasks|].id == id && r.tasks[|state.tasks|].createdAt == now
    ensures r.tasks[|state.tasks|].(id := draft.id, createdAt := draft.createdAt) == draft
  {
    var t := draft.(id := id, createdAt := now);
    assert (state.tasks + [t])[..|state.tasks|] == state.tasks;
    state.(tasks := state.tasks + [t])
  }

  datatype TaskPatch = TaskPatch(
    id: Field<string>,
    title: Field<string>,
    categoryId: Field<string>,
    notes: Field<Option<string>>,
    createdAt: Field<int>,
    dueDate: Field<Option<string>>,
    recurrence: Field<Rule>,
    nextDueDate: Field<Option<string>>,
    lastCompletedAt: Field<Option<int>>,
    completedAt: Field<Option<int>>,
    archived: Field<Option<bool>>,
    plannedMonth: Field<Option<int>>,
    plannedWeek: Field<Option<int>>,
    recurrenceMonth: Field<Option<int>>,
    recurrenceWeek: Field<Option<int>>)

  const NoTaskChange := TaskPatch(Keep, Keep, Keep, Keep, Keep, Keep, Keep, Keep, Keep, Keep, Keep, Keep, Keep, Keep, Keep)

  /** `{ ...t, ...patch }`; an optional field is cleared by `Put(None)`. */
  function PatchTask(t: Task, p: TaskPatch): (r: Task)
    ensures p == NoTaskChange ==> r == t
    ensures p.id.Keep? ==> r.id == t.id
    ensures p.id.Put? ==> r.id == p.id.value
    ensures p.recurrence.Keep? && p.dueDate.Keep? && p.nextDueDate.Keep?
            ==> r.recurrence == t.recurrence && r.dueDate == t.dueDate && r.nextDueDate == t.nextDueDate
  {
    Task(Patch(t.id, p.id), Patch(t.title, p.title), Patch(t.categoryId, p.categoryId),
         Patch(t.notes, p.notes), Patch(t.createdAt, p.createdAt), Patch(t.dueDate, p.dueDate),
         Patch(t.recurrence, p.recurrence), Patch(t.nextDueDate, p.nextDueDate),
         Patch(t.lastCompletedAt, p.lastCompletedAt), Patch(t.completedAt, p.completedAt),
         Patch(t.archived, p.archived), Patch(t.plannedMonth, p.plannedMonth),
         Patch(t.plannedWeek, p.plannedWeek), Patch(t.recurrenceMonth, p.recurrenceMonth),
         Patch(t.recurrenceWeek, p.recurrenceWeek))
  }

  /**
   * `updateTask(state, taskId, patch)`: the tasks with that id are patched,
   * the others kept, the list keeps its length and order.
   */
  function UpdateTask(state: AppState, taskId: string, patch: TaskPatch): (r: AppState)
    ensures r.(tasks := state.tasks) == state
    ensures |r.tasks| == |state.tasks|
    ensures forall i :: 0 <= i < |state.tasks| ==>
              r.tasks[i] == if state.tasks[i].id == taskId then PatchTask(state.tasks[i], patch) else state.tasks[i]
  {
    state.(tasks := seq(|state.tasks|, i requires 0 <= i < |state.tasks| =>
                          if state.tasks[i].id == taskId then PatchTask(state.tasks[i], patch) else state.tasks[i]))
  }

  /** Updating an id no task has returns an equal state. */
  lemma UpdateTaskUnknown(state: AppState, taskId: string, patch: TaskPatch)
    requires forall i :: 0 <= i < |state.tasks| ==> state.tasks[i].id != taskId
    ensures UpdateTask(state, taskId, patch) == state
  {
  }

  /** `{ ...p, ...q }` for task patches. */
  function ThenTask(p: TaskPatch, q: TaskPatch): TaskPatch {
    TaskPatch(Then(p.id, q.id), Then(p.title, q.title), Then(p.categoryId, q.categoryId),
              Then(p.notes, q.notes), Then(p.createdAt, q.createdAt), Then(p.dueDate, q.dueDate),
              Then(p.recurrence, q.recurrence), Then(p.nextDueDate, q.nextDueDate),
              Then(p.lastCompletedAt, q.lastCompletedAt), Then(p.completedAt, q.completedAt),
              Then(p.archived, q.archived), Then(p.plannedMonth, q.plannedMonth),
              Then(p.plannedWeek, q.plannedWeek), Then(p.recurrenceMonth, q.recurrenceMonth),
              Then(p.recurrenceWeek, q.recurrenceWeek))
  }

  /** Spreading the same patch twice is spreading it once. */
  lemma PatchTaskIdempotent(t: Task, p: TaskPatch)
    ensures PatchTask(PatchTask(t, p), p) == PatchTask(t, p)
  {
  }

  /** Spreading `p` and then `q` is spreading the merged patch `{ ...p, ...q }`. */
  lemma PatchTaskThen(t: Task, p: TaskPatch, q: TaskPatch)
    ensures PatchTask(PatchTask(t, p), q) == PatchTask(t, ThenTask(p, q))
  {
  }

  /** Running the same update twice is running it once, even when the patch changes the id. */
  lemma UpdateTaskIdempotent(state: AppState, taskId: string, patch: TaskPatch)
    ensures UpdateTask(UpdateTask(state, taskId, patch), taskId, patch) == UpdateTask(state, taskId, patch)
  {
    var r := UpdateTask(state, taskId, patch);
    var r2 := UpdateTask(r, taskId, patch);
    forall i | 0 <= i < |r.tasks|
      ensures r2.tasks[i] == r.tasks[i]
    {
      PatchTaskIdempotent(state.tasks[i], patch);
    }
    assert r2.tasks == r.tasks;
  }

  /** A patch that sets nothing leaves every task as it was. */
  lemma UpdateTaskEmptyPatch(state: AppState, taskId: string)
    ensures UpdateTask(state, taskId, NoTaskChange) == state
  {
    var r := UpdateTask(state, taskId, NoTaskChange);
    assert r.tasks == state.tasks;
  }

  /** `deleteTask(state, taskId)`: exactly the tasks with that id are dropped, the rest stay in order. */
  function DeleteTask(state: AppState, taskId: string): (r: AppState)
    ensures r.(tasks := state.tasks) == state
    ensures IsSubseq(r.tasks, state.tasks)
    ensures forall t :: t in r.tasks <==> t in state.tasks && t.id != taskId
    ensures forall t :: t in state.tasks && t.id != taskId ==> multiset(r.tasks)[t] == multiset(state.tasks)[t]
  {
    var tasks := Filter(state.tasks, (t: Task) => t.id != taskId);
    forall t
      ensures t in tasks <==> t in state.tasks && t.id != taskId
    {
      FilterMember(state.tasks, (t: Task) => t.id != taskId, t);
    }
    state.(tasks := tasks)
  }

  /** Adding a task under a fresh id and deleting that id gives the state back. */
  lemma DeleteAddedTask(state: AppState, draft: Task, id: string, now: int)
    requires forall i :: 0 <= i < |state.tasks| ==> state.tasks[i].id != id
    ensures DeleteTask(AddTask(state, draft, id, now), id) == state
  {
    var added := AddTask(state, draft, id, now);
    var t := added.tasks[|state.tasks|];
    assert added.tasks == state.tasks + [t];
    assert Filter(added.tasks, (t: Task) => t.id != id) == state.tasks by {
      FilterAll(state.tasks, (t: Task) => t.id != id);
      FilterSnoc(state.tasks, t, (t: Task) => t.id != id);
    }
  }

  // ---------------------------------------------------------------------------
  // completeTask

  /** The recurring branch of `completeTask`: a repeating rule and a truthy `nextDueDate`. */
  predicate Reschedules(t: Task) {
    t.recurrence.Every? && TruthyString(t.nextDueDate)
  }

  /**
   * How `completeTask` changes one task `t` into `u`: a task with another id
   * is kept; a rescheduled one gets `lastCompletedAt` and the next due date
   * (`nextDue`, the outcome of `computeNextDueDate`); any other gets
   * `completedAt`.
   */
  predicate CompletedAs(t: Task, u: Task, taskId: string, now: int, nextDue: Outcome<string>) {
    if t.id != taskId then u == t
    else if Reschedules(t) then
      u == t.(lastCompletedAt := Some(now), nextDueDate := u.nextDueDate)
      && (nextDue.Next? ==> u.nextDueDate == Some(nextDue.due))
      && (nextDue.NoNext? ==> u.nextDueDate == None)
    else u == t.(completedAt := Some(now))
  }

  /** `computeNextDueDate(t.nextDueDate, t.recurrence, today)` for a task that reschedules. */
  function NextDueOf(t: Task, today: string, depth: nat): Outcome<string>
    requires IsISOShape(today) && Reschedules(t)
  {
    NextDue(t.nextDueDate.value, t.recurrence, today, depth)
  }

  /** The call that overflows the stack, if this task makes one. */
  predicate Overflows(t: Task, taskId: string, today: string, depth: nat)
    requires IsISOShape(today)
  {
    t.id == taskId && Reschedules(t) && NextDueOf(t, today, depth).StackOverflow?
  }

  /**
   * One task under `completeTask`; `None` when the date computation
   * overflows the stack, which aborts the whole update.
   */
  function CompleteOne(t: Task, taskId: string, today: string, now: int, depth: nat): (r: Option<Task>)
    requires IsISOShape(today)
    ensures r.None? <==> Overflows(t, taskId, today, depth)
    ensures r.Some? ==> CompletedAs(t, r.value, taskId, now, if Reschedules(t) then NextDueOf(t, today, depth) else NoNext)
  {
    if t.id != taskId then Some(t)
    else if Reschedules(t) then
      match NextDueOf(t, today, depth)
      case StackOverflow => None
      case Next(d) => Some(t.(lastCompletedAt := Some(now), nextDueDate := Some(d)))
      case NoNext => Some(t.(lastCompletedAt := Some(now), nextDueDate := None))
    else Some(t.(completedAt := Some(now)))
  }

  function CompleteAll(tasks: seq<Task>, taskId: string, today: string, now: int, depth: nat): (r: Option<seq<Task>>)
    requires IsISOShape(today)
    ensures r.None? <==> exists i :: 0 <= i < |tasks| && Overflows(tasks[i], taskId, today, depth)
    ensures r.Some? ==> |r.value| == |tasks|
                        && forall i :: 0 <= i < |tasks| ==> CompleteOne(tasks[i], taskId, today, now, depth) == Some(r.value[i])
    decreases |tasks|
  {
    if |tasks| == 0 then Some([])
    else
      var rest := CompleteAll(tasks[1..], taskId, today, now, depth);
      assert forall i :: 1 <= i < |tasks| ==> tasks[i] == tasks[1..][i - 1];
      match CompleteOne(tasks[0], taskId, today, now, depth)
      case None => None
      case Some(t) =>
        if rest.None? then None else Some([t] + rest.value)
  }

  /**
   * `completeTask(state, taskId, today)` with `Date.now()` passed in and the
   * recursion of `computeNextDueDate` given `depth` stack frames; `None` is
   * a call that does not return normally. A task with that id that is recurring and
   * has a (truthy) `nextDueDate` gets the next due date and
   * `lastCompletedAt` (and keeps its `completedAt`); any other task with
   * that id gets `completedAt`. All other tasks and fields stay.
   */
  function CompleteTask(state: AppState, taskId: string, today: string, now: int, depth: nat): (r: Option<AppState>)
    requires IsISOShape(today)
    ensures r.None? <==> exists i :: 0 <= i < |state.tasks| && Overflows(state.tasks[i], taskId, today, depth)
    ensures r.Some? ==> r.value.(tasks := state.tasks) == state && |r.value.tasks| == |state.tasks|
    ensures r.Some? ==> forall i :: 0 <= i < |state.tasks| ==>
              CompletedAs(state.tasks[i], r.value.tasks[i], taskId, now,
                          if Reschedules(state.tasks[i]) then NextDueOf(state.tasks[i], today, depth) else NoNext)
  {
    match CompleteAll(state.tasks, taskId, today, now, depth)
    case None => None
    case Some(tasks) => Some(state.(tasks := tasks))
  }

  // ---------------------------------------------------------------------------
  // Views

  /** Neither archived nor completed (both tested for truthiness). */
  predicate Open(t: Task) {
    !TruthyBool(t.archived) && !TruthyInt(t.completedAt)
  }

  /** The date a task is due on: `nextDueDate` when it repeats, `dueDate` otherwise. */
  function DueField(t: Task): Option<string> {
    if t.recurrence.Every? then t.nextDueDate else t.dueDate
  }

  predicate DueToday(t: Task, today: string) {
    Open(t) && DueField(t) == Some(today)
  }

  predicate Overdue(t: Task, today: string) {
    Open(t) && TruthyString(DueField(t)) && IsBefore(DueField(t).value, today)
  }

  predicate Anytime(t: Task) {
    Open(t) && t.recurrence.NoRepeat? && !TruthyString(t.dueDate) && !TruthyInt(t.plannedMonth)
  }

  predicate NotArchived(t: Task) {
    !TruthyBool(t.archived)
  }

  /**
   * The facts a view's contract states, for a view computed as
   * `tasks.filter(t => !t.archived).filter(keep)`.
   */
  lemma {:induction false} ViewOfTasks(tasks: seq<Task>, keep: Task -> bool, t: Task)
    ensures var r := Filter(Filter(tasks, NotArchived), keep);
            IsSubseq(r, tasks)
            && (t in r <==> t in tasks && NotArchived(t) && keep(t))
            && (t in tasks && NotArchived(t) && keep(t) ==> multiset(r)[t] == multiset(tasks)[t])
  {
    var a := Filter(tasks, NotArchived);
    SubseqTransitive(Filter(a, keep), a, tasks);
    FilterMember(tasks, NotArchived, t);
    FilterMember(a, keep, t);
  }

  /** `getDueToday(state, today)`: the open tasks due exactly today, in list order. */
  function GetDueToday(state: AppState, today: string): (r: seq<Task>)
    ensures IsSubseq(r, state.tasks)
    ensures forall t :: t in r <==> t in state.tasks && DueToday(t, today)
    ensures forall t :: t in state.tasks && DueToday(t, today) ==> multiset(r)[t] == multiset(state.tasks)[t]
  {
    var keep := (t: Task) => !TruthyInt(t.completedAt) && DueField(t) == Some(today);
    forall t | true
      ensures var r := Filter(Filter(state.tasks, NotArchived), keep);
              IsSubseq(r, state.tasks)
              && (t in r <==> t in state.tasks && NotArchived(t) && keep(t))
              && (t in state.tasks && NotArchived(t) && keep(t) ==> multiset(r)[t] == multiset(state.tasks)[t])
    {
      ViewOfTasks(state.tasks, keep, t);
    }
    Filter(Filter(state.tasks, NotArchived), keep)
  }

  /** `getOverdue(state, today)`: the open tasks whose due date is string-before `today`, in list order. */
  function GetOverdue(state: AppState, today: string): (r: seq<Task>)
    ensures IsSubseq(r, state.tasks)
    ensures forall t :: t in r <==> t in state.tasks && Overdue(t, today)
    ensures forall t :: t in state.tasks && Overdue(t, today) ==> multiset(r)[t] == multiset(state.tasks)[t]
  {
    var keep := (t: Task) => !TruthyInt(t.completedAt) && TruthyString(DueField(t)) && IsBefore(DueField(t).value, today);
    forall t | true
      ensures var r := Filter(Filter(state.tasks, NotArchived), keep);
              IsSubseq(r, state.tasks)
              && (t in r <==> t in state.tasks && NotArchived(t) && keep(t))
              && (t in state.tasks && NotArchived(t) && keep(t) ==> multiset(r)[t] == multiset(state.tasks)[t])
    {
      ViewOfTasks(state.tasks, keep, t);
    }
    Filter(Filter(state.tasks, NotArchived), keep)
  }

  /** `getAnytime(state)`: open one-time tasks with neither a due date nor a planned month, in list order. */
  function GetAnytime(state: AppState): (r: seq<Task>)
    ensures IsSubseq(r, state.tasks)
    ensures forall t :: t in r <==> t in state.tasks && Anytime(t)
    ensures forall t :: t in state.tasks && Anytime(t) ==> multiset(r)[t] == multiset(state.tasks)[t]
  {
    var keep := (t: Task) => t.recurrence.NoRepeat? && !TruthyString(t.dueDate) && !TruthyInt(t.plannedMonth) && !TruthyInt(t.completedAt);
    forall t | true
      ensures var r := Filter(Filter(state.tasks, NotArchived), keep);
              IsSubseq(r, state.tasks)
              && (t in r <==> t in state.tasks && NotArchived(t) && keep(t))
              && (t in state.tasks && NotArchived(t) && keep(t) ==> multiset(r)[t] == multiset(state.tasks)[t])
    {
      ViewOfTasks(state.tasks, keep, t);
    }
    Filter(Filter(state.tasks, NotArchived), keep)
  }

  /** For a non-empty `today` no task is in two of the three views. */
  lemma {:induction false} ViewsDisjoint(state: AppState, today: string, t: Task)
    requires today != ""
    ensures !(t in GetDueToday(state, today) && t in GetOverdue(state, today))
    ensures !(t in GetDueToday(state, today) && t in GetAnytime(state))
    ensures !(t in GetOverdue(state, today) && t in GetAnytime(state))
  {
    var d, o, a := GetDueToday(state, today), GetOverdue(state, today), GetAnytime(state);
    assert t in d ==> DueToday(t, today);
    assert t in o ==> Overdue(t, today);
    assert t in a ==> Anytime(t);
    StrLtIrreflexive(today);
  }

  /**
   * A one-time task completed at a non-zero time leaves every view: its
   * `completedAt` is now truthy.
   */
  lemma CompletedLeavesViews(state: AppState, taskId: string, today: string, now: int, depth: nat, t: Task)
    requires IsISOShape(today) && now != 0
    requires forall i :: 0 <= i < |state.tasks| && state.tasks[i].id == taskId ==> !Reschedules(state.tasks[i])
    ensures CompleteTask(state, taskId, today, now, depth).Some?
    ensures var s := CompleteTask(state, taskId, today, now, depth).value;
            t.id == taskId ==> t !in GetDueToday(s, today) && t !in GetOverdue(s, today) && t !in GetAnytime(s)
  {
    var s := CompleteTask(state, taskId, today, now, depth).value;
    if t.id == taskId && t in s.tasks {
      var i :| 0 <= i < |s.tasks| && s.tasks[i] == t;
      assert !Open(t);
    }
  }
}
