/**
 * The task record and the two model hooks that derive its urgency flag
 * when it is created and when it is updated.
 */
module TaskModel {
  import opened Wrappers
  import opened TaskStatus
  import opened TaskCategory

  /** Seconds in a day; `due_date` is cast to a date, i.e. midnight of its day. */
  const SecondsPerDay: int := 86400

  /** `now()->addHours(48)` is this many seconds after `now`. */
  const UrgencyWindow: int := 48 * 3600

  /**
   * One row of the `tasks` table. Times are seconds since the epoch; the
   * due date is a day number (day 0 starts at second 0).
   */
  datatype Task = Task(
    id: int,
    owner: int,
    title: string,
    description: Option<string>,
    status: Status,
    due: Option<int>,
    isUrgent: bool,
    category: Category,
    createdAt: int,
    updatedAt: int)

  /** The instant the due date denotes once cast: 00:00 of that day. */
  function StartOfDay(day: int): int {
    day * SecondsPerDay
  }

  /**
   * The urgency rule: a due date is set, its day starts no later than 48
   * hours from `now`, and the task is not completed.
   */
  function Urgent(due: Option<int>, status: Status, now: int): (u: bool)
    ensures u ==> due.Some? && status != Completed
  {
    due.Some? && StartOfDay(due.value) <= now + UrgencyWindow && status != Completed
  }

  /**
   * The same rule counted in whole days: a pending or in-progress task with
   * a due date is urgent exactly when its day is no later than the day in
   * which `now + 48h` falls.
   */
  lemma UrgentByDay(day: int, status: Status, now: int)
    requires status != Completed
    ensures Urgent(Some(day), status, now) <==> day <= (now + UrgencyWindow) / SecondsPerDay
  {
    var limit := now + UrgencyWindow;
    var q := limit / SecondsPerDay;
    assert limit == q * SecondsPerDay + limit % SecondsPerDay;
    if day <= q {
      assert day * SecondsPerDay <= q * SecondsPerDay;
    } else {
      assert day * SecondsPerDay >= (q + 1) * SecondsPerDay;
    }
  }

  /**
   * Urgency only grows with time: a flag computed at `now` stays true if it
   * were computed again later.
   */
  lemma UrgentLater(due: Option<int>, status: Status, now: int, later: int)
    requires now <= later
    requires Urgent(due, status, now)
    ensures Urgent(due, status, later)
  {
  }

  /**
   * A false flag, in contrast, goes stale: for any uncompleted task with a
   * due date there is a moment at which the rule gives false and a later
   * one at which it gives true. The hooks only run on writes, so a stored
   * `false` is not updated when that later moment comes.
   */
  lemma NotUrgentGoesStale(day: int, status: Status)
    requires status != Completed
    ensures var now := StartOfDay(day) - UrgencyWindow - 1;
            !Urgent(Some(day), status, now) && Urgent(Some(day), status, now + 1)
  {
  }

  /**
   * The `creating` hook: the flag is set from the rule, whatever the client
   * sent, and nothing else in the record changes.
   */
  function Creating(t: Task, now: int): (r: Task)
    ensures r.isUrgent == Urgent(t.due, t.status, now)
    ensures r.(isUrgent := t.isUrgent) == t
  {
    t.(isUrgent := Urgent(t.due, t.status, now))
  }

  /** `isDirty(['due_date', 'status'])`: the value of either attribute differs from the stored one. */
  predicate UrgencyInputsChanged(original: Task, t: Task) {
    t.due != original.due || t.status != original.status
  }

  /**
   * The `updating` hook on the filled record `t` whose stored version is
   * `original`: when the due date or the status changed, the flag is
   * recomputed from the new values; otherwise `t`, including whatever flag
   * was filled into it, is kept. Only the flag can change.
   */
  function Updating(original: Task, t: Task, now: int): (r: Task)
    ensures UrgencyInputsChanged(original, t) ==> r.isUrgent == Urgent(t.due, t.status, now)
    ensures !UrgencyInputsChanged(original, t) ==> r == t
    ensures r.(isUrgent := t.isUrgent) == t
  {
    if UrgencyInputsChanged(original, t) then t.(isUrgent := Urgent(t.due, t.status, now)) else t
  }

  /** The stored flag, as a condition on tasks. */
  predicate IsUrgent(t: Task) {
    t.isUrgent
  }

  predicate IsNotUrgent(t: Task) {
    !t.isUrgent
  }

  /** Whenever a hook computes the flag, a completed task or one with no due date is not urgent. */
  lemma HooksClearCompletedAndUndated(original: Task, t: Task, now: int)
    ensures t.status == Completed || t.due == None ==> !Creating(t, now).isUrgent
    ensures UrgencyInputsChanged(original, t) && (t.status == Completed || t.due == None) ==>
              !Updating(original, t, now).isUrgent
  {
  }
}
