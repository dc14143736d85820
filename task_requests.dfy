/**
 * The request bodies of `TaskController::store` and `update`: the
 * validation rules of each, and the record each writes once validation
 * has passed. The `date` and `boolean` rules are taken as given: the
 * raw value either is a date (resp. a boolean) or is not. A blank string
 * is read as the `null` the framework's request normalisation turns it
 * into before any rule runs.
 */
module TaskRequests {
  import opened Wrappers
  import opened Text
  import opened Http
  import opened TaskStatus
  import opened TaskCategory
  import opened TaskModel

  /** A `due_date` value: a calendar day, or anything the `date` rule rejects. */
  datatype RawDate = Date(day: int) | NotADate

  /** An `is_urgent` value: a boolean, or anything the `boolean` rule rejects. */
  datatype RawBool = Flag(b: bool) | NotABoolean

  /** The six keys a task request may carry. */
  datatype TaskInput = TaskInput(
    title: Input<string>,
    description: Input<string>,
    dueDate: Input<RawDate>,
    status: Input<string>,
    isUrgent: Input<RawBool>,
    category: Input<string>)

  /** The `max:255` rule on a string. */
  const MaxTitle: int := 255

  /** `required`: present, not null, not blank. */
  predicate Required(i: Input<string>) {
    i.Given? && !IsBlank(i.value)
  }

  /** A raw status or category value is never blank, so `required` adds nothing to the `in` rule. */
  lemma EnumValuesNotBlank()
    ensures forall v :: v in TaskStatus.Values() ==> !IsBlank(v)
    ensures forall v :: v in TaskCategory.Values() ==> !IsBlank(v)
  {
    forall v | v in TaskStatus.Values() ensures !IsBlank(v) {
      var k :| 0 <= k < |TaskStatus.Values()| && TaskStatus.Values()[k] == v;
      assert v == TaskStatus.All()[k].Value() && !IsTrimmed(v[0]);
    }
    forall v | v in TaskCategory.Values() ensures !IsBlank(v) {
      var k :| 0 <= k < |TaskCategory.Values()| && TaskCategory.Values()[k] == v;
      assert v == TaskCategory.All()[k].Value() && !IsTrimmed(v[0]);
    }
  }

  // Rules of `store`.

  predicate StoreTitleOk(i: Input<string>) {
    Required(i) && |i.value| <= MaxTitle
  }

  predicate StoreDueOk(i: Input<RawDate>) {
    !(i.Given? && i.value.NotADate?)
  }

  predicate StoreStatusOk(i: Input<string>) {
    Required(i) && i.value in TaskStatus.Values()
  }

  predicate StoreUrgentOk(i: Input<RawBool>) {
    !(i.Given? && i.value.NotABoolean?)
  }

  predicate StoreCategoryOk(i: Input<string>) {
    Required(i) && i.value in TaskCategory.Values()
  }

  /**
   * The fields `store` rejects. `description` is `nullable|string` and
   * never fails here.
   */
  function StoreErrors(req: TaskInput): (e: set<string>)
    ensures e <= {"title", "due_date", "status", "is_urgent", "category"}
    ensures "title" !in e <==> req.title.Given? && !IsBlank(req.title.value) && |req.title.value| <= 255
    ensures "status" !in e <==> req.status.Given? && TaskStatus.FromValue(req.status.value).Some?
    ensures "category" !in e <==> req.category.Given? && TaskCategory.FromValue(req.category.value).Some?
    ensures "due_date" !in e <==> !(req.dueDate.Given? && req.dueDate.value.NotADate?)
    ensures "is_urgent" !in e <==> !(req.isUrgent.Given? && req.isUrgent.value.NotABoolean?)
  {
    EnumValuesNotBlank();
    var rules := [
      (StoreTitleOk(req.title), "title"),
      (StoreDueOk(req.dueDate), "due_date"),
      (StoreStatusOk(req.status), "status"),
      (StoreUrgentOk(req.isUrgent), "is_urgent"),
      (StoreCategoryOk(req.category), "category")];
    FailuresWithin(rules, {"title", "due_date", "status", "is_urgent", "category"});
    FailuresByField(rules);
    assert rules[0].1 == "title" && rules[1].1 == "due_date" && rules[2].1 == "status";
    assert rules[3].1 == "is_urgent" && rules[4].1 == "category";
    Failures(rules)
  }

  /** A nullable string as stored: a missing key, `null` and a blank string all leave it unset. */
  function NullIfBlank(i: Input<string>): Option<string> {
    if i.Given? && !IsBlank(i.value) then Some(i.value) else None
  }

  /** The day of a `due_date` value that passed validation; a missing key and `null` both leave it unset. */
  function DueOf(i: Input<RawDate>): Option<int>
    requires StoreDueOk(i)
  {
    if i.Given? then Some(i.value.day) else None
  }

  /** The client's `is_urgent`, as mass-assigned before the hook runs. */
  function ClientFlag(i: Input<RawBool>, otherwise: bool): bool
    requires StoreUrgentOk(i)
  {
    if i.Given? then i.value.b else otherwise
  }

  /**
   * The row `store` inserts for `owner` under the fresh `id` at time `now`:
   * the validated fields as sent, the status and category read from their
   * raw values, both timestamps `now`, and the urgency flag from the rule
   * rather than from the request.
   */
  function NewTask(id: int, owner: int, req: TaskInput, now: int): (t: Task)
    requires StoreErrors(req) == {}
    ensures t.id == id && t.owner == owner && t.title == req.title.value
    ensures t.description.Some? <==> req.description.Given? && !IsBlank(req.description.value)
    ensures t.description.Some? ==> t.description.value == req.description.value
    ensures t.due == (if req.dueDate.Given? then Some(req.dueDate.value.day) else None)
    ensures t.status.Value() == req.status.value && t.category.Value() == req.category.value
    ensures t.createdAt == now && t.updatedAt == now
    ensures t.isUrgent <==> t.due.Some? && StartOfDay(t.due.value) <= now + UrgencyWindow && t.status != Completed
  {
    var filled := Task(
      id, owner, req.title.value, NullIfBlank(req.description),
      TaskStatus.FromValue(req.status.value).value, DueOf(req.dueDate),
      ClientFlag(req.isUrgent, false),
      TaskCategory.FromValue(req.category.value).value, now, now);
    Creating(filled, now)
  }

  /** The `is_urgent` a client sends to `store` has no effect on the row. */
  lemma StoreIgnoresClientFlag(id: int, owner: int, req: TaskInput, flag: Input<RawBool>, now: int)
    requires StoreErrors(req) == {} && StoreUrgentOk(flag)
    ensures StoreErrors(req.(isUrgent := flag)) == {}
    ensures NewTask(id, owner, req.(isUrgent := flag), now) == NewTask(id, owner, req, now)
  {
  }

  // Rules of `update`: every key is `sometimes`, so a missing key passes and
  // a `null`, blank strings included, fails, since none of the rules is
  // `nullable`.

  predicate UpdateTitleOk(i: Input<string>) {
    i.Absent? || (i.Given? && !IsBlank(i.value) && |i.value| <= MaxTitle)
  }

  predicate UpdateDescriptionOk(i: Input<string>) {
    i.Absent? || (i.Given? && !IsBlank(i.value))
  }

  predicate UpdateDueOk(i: Input<RawDate>) {
    i.Absent? || (i.Given? && i.value.Date?)
  }

  predicate UpdateStatusOk(i: Input<string>) {
    i.Absent? || (i.Given? && i.value in TaskStatus.Values())
  }

  predicate UpdateUrgentOk(i: Input<RawBool>) {
    i.Absent? || (i.Given? && i.value.Flag?)
  }

  predicate UpdateCategoryOk(i: Input<string>) {
    i.Absent? || (i.Given? && i.value in TaskCategory.Values())
  }

  /** The fields `update` rejects. */
  function UpdateErrors(req: TaskInput): (e: set<string>)
    ensures e <= {"title", "description", "due_date", "status", "is_urgent", "category"}
    ensures req == TaskInput(Absent, Absent, Absent, Absent, Absent, Absent) ==> e == {}
    ensures (req.title.Null? || req.description.Null? || req.dueDate.Null? || req.status.Null?
             || req.isUrgent.Null? || req.category.Null?) ==> e != {}
    ensures "title" !in e <==> req.title.Absent? || (req.title.Given? && !IsBlank(req.title.value) && |req.title.value| <= 255)
    ensures "description" !in e <==> req.description.Absent? || (req.description.Given? && !IsBlank(req.description.value))
    ensures "due_date" !in e <==> req.dueDate.Absent? || (req.dueDate.Given? && req.dueDate.value.Date?)
    ensures "is_urgent" !in e <==> req.isUrgent.Absent? || (req.isUrgent.Given? && req.isUrgent.value.Flag?)
    ensures "status" !in e <==> req.status.Absent? || (req.status.Given? && TaskStatus.FromValue(req.status.value).Some?)
    ensures "category" !in e <==>
              req.category.Absent? || (req.category.Given? && TaskCategory.FromValue(req.category.value).Some?)
  {
    var rules := [
      (UpdateTitleOk(req.title), "title"),
      (UpdateDescriptionOk(req.description), "description"),
      (UpdateDueOk(req.dueDate), "due_date"),
      (UpdateStatusOk(req.status), "status"),
      (UpdateUrgentOk(req.isUrgent), "is_urgent"),
      (UpdateCategoryOk(req.category), "category")];
    FailuresWithin(rules, {"title", "description", "due_date", "status", "is_urgent", "category"});
    FailuresByField(rules);
    assert rules[0].1 == "title" && rules[1].1 == "description" && rules[2].1 == "due_date";
    assert rules[3].1 == "status" && rules[4].1 == "is_urgent" && rules[5].1 == "category";
    Failures(rules)
  }

  /** `$task->update($request->only([...]))`, before saving: each supplied key overwrites its attribute. */
  function Fill(t: Task, req: TaskInput): (r: Task)
    requires UpdateErrors(req) == {}
    ensures r.id == t.id && r.owner == t.owner && r.createdAt == t.createdAt && r.updatedAt == t.updatedAt
  {
    t.(
      title := if req.title.Given? then req.title.value else t.title,
      description := if req.description.Given? then Some(req.description.value) else t.description,
      due := if req.dueDate.Given? then Some(req.dueDate.value.day) else t.due,
      status := if req.status.Given? then TaskStatus.FromValue(req.status.value).value else t.status,
      isUrgent := if req.isUrgent.Given? then req.isUrgent.value.b else t.isUrgent,
      category := if req.category.Given? then TaskCategory.FromValue(req.category.value).value else t.category)
  }

  /**
   * The row after `update` saves the stored row `t` at time `now`. A save
   * with no attribute changed writes nothing: no hook, no new timestamp.
   * Otherwise the `updating` hook runs and `updated_at` becomes `now`.
   */
  function Saved(t: Task, req: TaskInput, now: int): (r: Task)
    requires UpdateErrors(req) == {}
    ensures r.id == t.id && r.owner == t.owner && r.createdAt == t.createdAt
    ensures r.title == (if req.title.Given? then req.title.value else t.title)
    ensures r.description == (if req.description.Given? then Some(req.description.value) else t.description)
    ensures r.due == (if req.dueDate.Given? then Some(req.dueDate.value.day) else t.due)
    ensures req.status.Given? ==> r.status.Value() == req.status.value
    ensures !req.status.Given? ==> r.status == t.status
    ensures req.category.Given? ==> r.category.Value() == req.category.value
    ensures !req.category.Given? ==> r.category == t.category
    ensures r.due != t.due || r.status != t.status ==> r.isUrgent == Urgent(r.due, r.status, now)
    ensures r.due == t.due && r.status == t.status ==>
              r.isUrgent == (if req.isUrgent.Given? then req.isUrgent.value.b else t.isUrgent)
    ensures r.updatedAt == (if r == t then t.updatedAt else now)
  {
    var filled := Fill(t, req);
    if filled == t then t else Updating(t, filled, now).(updatedAt := now)
  }

  /**
   * Re-sending the stored due date and status does not recompute the flag,
   * even if it is stale: the flag becomes the client's `is_urgent` if one
   * was sent and otherwise stays as stored.
   */
  lemma UnchangedInputsKeepFlag(t: Task, req: TaskInput, now: int)
    requires UpdateErrors(req) == {}
    requires t.due.Some? && req.dueDate == Given(Date(t.due.value))
    requires req.status == Given(t.status.Value())
    ensures Saved(t, req, now).isUrgent == ClientFlag(req.isUrgent, t.isUrgent)
  {
    TaskStatus.FromValueOfValue(t.status);
  }

  /**
   * A save can leave a completed task flagged: when a completed row that is
   * not urgent receives only `is_urgent: true`, no recomputation happens
   * and the client's flag is stored.
   */
  lemma ClientFlagCanOutliveRule(t: Task, now: int)
    requires t.status == Completed && !t.isUrgent
    ensures var req := TaskInput(Absent, Absent, Absent, Absent, Given(Flag(true)), Absent);
            UpdateErrors(req) == {} && Saved(t, req, now).isUrgent && Saved(t, req, now).status == Completed
  {
  }

  /**
   * A pending task due within the next day is created urgent; completing
   * it recomputes the flag to false.
   */
  lemma CreateUrgentThenComplete(id: int, owner: int, req: TaskInput, now: int, later: int)
    requires StoreErrors(req) == {}
    requires req.status == Given("pendiente") && req.dueDate.Given?
    requires StartOfDay(req.dueDate.value.day) <= now + SecondsPerDay
    ensures NewTask(id, owner, req, now).isUrgent
    ensures var done := TaskInput(Absent, Absent, Absent, Given("completada"), Absent, Absent);
            UpdateErrors(done) == {} && !Saved(NewTask(id, owner, req, now), done, later).isUrgent
  {
    var t := NewTask(id, owner, req, now);
    assert t.status == Pending by {
      TaskStatus.ValueInjective(t.status, Pending);
    }
  }
}
