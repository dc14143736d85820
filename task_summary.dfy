/** The counts of `TaskController::summary` over one owner's tasks. */
module TaskSummary {
  import opened TaskStatus
  import opened TaskCategory
  import opened TaskModel

  /** The `data` object of the summary response; `categoryCounts` keeps the key order of `cases()`. */
  datatype SummaryData = SummaryData(
    totalTasks: nat,
    completedTasks: nat,
    inProgressTasks: nat,
    pendingTasks: nat,
    urgentTasks: nat,
    categoryCounts: seq<(string, nat)>)

  /** `$tasks->where(...)->count()`: how many of `ts` satisfy `p`. */
  function CountIf(ts: seq<Task>, p: Task -> bool): nat {
    if ts == [] then 0
    else (if p(ts[0]) then 1 else 0) + CountIf(ts[1..], p)
  }

  /** The condition `where('status', s)`. */
  function HasStatus(s: Status): Task -> bool {
    (t: Task) => t.status == s
  }

  /** The condition `where('category', c->value)`. */
  function InCategory(c: Category): Task -> bool {
    (t: Task) => t.category == c
  }

  /** Counting over a concatenation adds the counts of the two parts. */
  lemma {:induction false} CountIfAppend(a: seq<Task>, b: seq<Task>, p: Task -> bool)
    ensures CountIf(a + b, p) == CountIf(a, p) + CountIf(b, p)
  {
    if a == [] {
      assert a + b == b;
    } else {
      assert (a + b)[0] == a[0] && (a + b)[1..] == a[1..] + b;
      CountIfAppend(a[1..], b, p);
    }
  }

  /** The `foreach` over `cs`: one entry per category, keyed by its raw value, zero counts included. */
  function CategoryCounts(ts: seq<Task>, cs: seq<Category>): (r: seq<(string, nat)>)
    ensures |r| == |cs|
    ensures forall i :: 0 <= i < |cs| ==> r[i] == (cs[i].Value(), CountIf(ts, InCategory(cs[i])))
  {
    if cs == [] then []
    else [(cs[0].Value(), CountIf(ts, InCategory(cs[0])))] + CategoryCounts(ts, cs[1..])
  }

  /** The summary of the tasks `ts`. */
  function Summarize(ts: seq<Task>): SummaryData {
    SummaryData(
      |ts|,
      CountIf(ts, HasStatus(Completed)),
      CountIf(ts, HasStatus(InProgress)),
      CountIf(ts, HasStatus(Pending)),
      CountIf(ts, IsUrgent),
      CategoryCounts(ts, TaskCategory.All()))
  }

  /** The sum of the counts in a category table. */
  function SumCounts(cc: seq<(string, nat)>): nat {
    if cc == [] then 0 else cc[0].1 + SumCounts(cc[1..])
  }

  /** Every task has exactly one of the three statuses, so the three counts add up to the total. */
  lemma {:induction false} StatusCountsAddUp(ts: seq<Task>)
    ensures var s := Summarize(ts);
            s.completedTasks + s.inProgressTasks + s.pendingTasks == s.totalTasks
  {
    if ts != [] {
      StatusCountsAddUp(ts[1..]);
    }
  }

  /** No more tasks are urgent than there are tasks. */
  lemma {:induction false} UrgentCountBounded(ts: seq<Task>)
    ensures Summarize(ts).urgentTasks <= Summarize(ts).totalTasks
  {
    if ts != [] {
      UrgentCountBounded(ts[1..]);
    }
  }

  /** The category table has one entry for each of the nine categories, in the order of `values()`. */
  lemma CategoryTableComplete(ts: seq<Task>)
    ensures var cc := Summarize(ts).categoryCounts;
            |cc| == |TaskCategory.Values()| == 9
            && forall i :: 0 <= i < |cc| ==> cc[i].0 == TaskCategory.Values()[i]
  {
  }

  /** How many times `c` occurs in `cs`. */
  function Occurrences(cs: seq<Category>, c: Category): nat {
    if cs == [] then 0 else (if cs[0] == c then 1 else 0) + Occurrences(cs[1..], c)
  }

  /** Adding one task to the front adds, to the category total, the number of times its category is listed. */
  lemma {:induction false} CategoryTotalStep(t: Task, ts: seq<Task>, cs: seq<Category>)
    ensures SumCounts(CategoryCounts([t] + ts, cs))
         == Occurrences(cs, t.category) + SumCounts(CategoryCounts(ts, cs))
  {
    if cs != [] {
      assert ([t] + ts)[1..] == ts;
      CategoryTotalStep(t, ts, cs[1..]);
    }
  }

  /** With no tasks every category count is zero. */
  lemma {:induction false} CategoryTotalEmpty(cs: seq<Category>)
    ensures SumCounts(CategoryCounts([], cs)) == 0
  {
    if cs != [] {
      CategoryTotalEmpty(cs[1..]);
    }
  }

  /** A category that is not listed occurs zero times. */
  lemma {:induction false} OccurrencesAbsent(cs: seq<Category>, c: Category)
    requires c !in cs
    ensures Occurrences(cs, c) == 0
  {
    if cs != [] {
      OccurrencesAbsent(cs[1..], c);
    }
  }

  /** A category listed in a sequence without duplicates occurs exactly once. */
  lemma {:induction false} OccurrencesDistinct(cs: seq<Category>, c: Category)
    requires c in cs
    requires forall i, j :: 0 <= i < j < |cs| ==> cs[i] != cs[j]
    ensures Occurrences(cs, c) == 1
  {
    if cs[0] == c {
      assert forall k :: 0 <= k < |cs[1..]| ==> cs[1..][k] == cs[k + 1];
      OccurrencesAbsent(cs[1..], c);
    } else {
      OccurrencesDistinct(cs[1..], c);
    }
  }

  /** Each category is listed exactly once in `cases()`. */
  lemma OccursOnce(c: Category)
    ensures Occurrences(TaskCategory.All(), c) == 1
  {
    TaskCategory.AllComplete(c);
    TaskCategory.AllDistinct();
    OccurrencesDistinct(TaskCategory.All(), c);
  }

  /** Every task is counted under exactly one category, so the category counts add up to the total. */
  lemma {:induction false} CategoryCountsAddUp(ts: seq<Task>)
    ensures SumCounts(Summarize(ts).categoryCounts) == Summarize(ts).totalTasks
  {
    if ts == [] {
      CategoryTotalEmpty(TaskCategory.All());
    } else {
      var t, rest := ts[0], ts[1..];
      assert ts == [t] + rest;
      CategoryCountsAddUp(rest);
      CategoryTotalStep(t, rest, TaskCategory.All());
      OccursOnce(t.category);
    }
  }
}
