/** `TaskResource::toArray`: the shape in which a task leaves the API. */
module TaskResource {
  import opened Wrappers
  import opened Text
  import opened TaskStatus
  import opened TaskCategory
  import opened TaskModel

  /** The JSON values a task resource holds. */
  datatype Json = JInt(i: int) | JStr(s: string) | JBool(b: bool) | JNull | JDate(day: int) | JTime(seconds: int)

  /** The keys of a task resource. */
  const ResourceKeys: set<string> :=
    {"id", "title", "description", "category", "status", "due_date", "created_at", "is_urgent"}

  function OptionalText(o: Option<string>): Json {
    if o.Some? then JStr(o.value) else JNull
  }

  function OptionalDay(o: Option<int>): Json {
    if o.Some? then JDate(o.value) else JNull
  }

  /**
   * The projection of a task: exactly eight keys, the owner and the update
   * time never exposed, status and category shown by their labels, the
   * other six attributes copied as they are.
   */
  function ToArray(t: Task): (r: map<string, Json>)
    ensures r.Keys == ResourceKeys
    ensures "user_id" !in r && "updated_at" !in r
    ensures r["status"] == JStr(t.status.Label()) && r["category"] == JStr(t.category.Label())
    ensures r["id"] == JInt(t.id) && r["title"] == JStr(t.title) && r["is_urgent"] == JBool(t.isUrgent)
    ensures r["description"] == OptionalText(t.description) && r["due_date"] == OptionalDay(t.due)
    ensures r["created_at"] == JTime(t.createdAt)
  {
    map[
      "id" := JInt(t.id),
      "title" := JStr(t.title),
      "description" := OptionalText(t.description),
      "category" := JStr(t.category.Label()),
      "status" := JStr(t.status.Label()),
      "due_date" := OptionalDay(t.due),
      "created_at" := JTime(t.createdAt),
      "is_urgent" := JBool(t.isUrgent)]
  }

  /** `TaskResource::collection`: each task projected, order kept. */
  function Collection(ts: seq<Task>): (r: seq<map<string, Json>>)
    ensures |r| == |ts|
    ensures forall i :: 0 <= i < |ts| ==> r[i] == ToArray(ts[i])
  {
    seq(|ts|, i requires 0 <= i < |ts| => ToArray(ts[i]))
  }

  /**
   * Two tasks have the same resource exactly when they agree on everything
   * but the owner and the update time: the projection hides those two and
   * loses nothing else, the labels included.
   */
  lemma {:induction false} ToArrayForgetsOnlyOwnerAndUpdate(a: Task, b: Task)
    ensures ToArray(a) == ToArray(b) <==> a.(owner := b.owner, updatedAt := b.updatedAt) == b
  {
    if ToArray(a) == ToArray(b) {
      assert ToArray(a)["status"] == ToArray(b)["status"];
      assert ToArray(a)["category"] == ToArray(b)["category"];
      assert ToArray(a)["description"] == ToArray(b)["description"];
      assert ToArray(a)["due_date"] == ToArray(b)["due_date"];
      assert ToArray(a)["id"] == ToArray(b)["id"];
      assert ToArray(a)["title"] == ToArray(b)["title"];
      assert ToArray(a)["is_urgent"] == ToArray(b)["is_urgent"];
      assert ToArray(a)["created_at"] == ToArray(b)["created_at"];
      assert Lower(a.status.Label()) == Lower(b.status.Label());
      TaskStatus.ValueInjective(a.status, b.status);
      assert Lower(a.category.Label()) == Lower(b.category.Label());
      TaskCategory.ValueInjective(a.category, b.category);
      assert a.description == b.description by {
        assert OptionalText(a.description) == OptionalText(b.description);
      }
      assert a.due == b.due by {
        assert OptionalDay(a.due) == OptionalDay(b.due);
      }
    }
  }
}
