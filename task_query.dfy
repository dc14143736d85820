/**
 * The listing query of `TaskController::index`: the search, status,
 * category and urgency filters, all optional and combined with AND, and
 * the urgent-first ordering.
 */
module TaskQuery {
  import opened Wrappers
  import opened Text
  import opened TaskStatus
  import opened TaskCategory
  import opened TaskModel

  /** The query-string parameters of a listing request; each may be missing. */
  datatype ListQuery = ListQuery(
    search: Option<string>,
    status: Option<string>,
    category: Option<string>,
    isUrgent: Option<string>)

  /** `$request->filled(...)`: present and not blank once trimmed. */
  predicate Filled(p: Option<string>) {
    p.Some? && !IsBlank(p.value)
  }

  /**
   * One search term matches when, lower-cased, it occurs in the lower-cased
   * title or in the lower-cased description; a null description matches
   * nothing.
   */
  predicate TermMatches(t: Task, term: string) {
    Contains(Lower(t.title), Lower(term))
    || (t.description.Some? && Contains(Lower(t.description.value), Lower(term)))
  }

  /** The conditions `index` adds to the owner's tasks, one per filled parameter. */
  predicate Matches(t: Task, q: ListQuery) {
    && (Filled(q.search) ==>
          var terms := Explode(q.search.value);
          forall k :: 0 <= k < |terms| ==> TermMatches(t, terms[k]))
    && (Filled(q.status) ==> t.status.Value() == q.status.value)
    && (Filled(q.category) ==> t.category.Value() == q.category.value)
    && (Filled(q.isUrgent) ==> t.isUrgent == (q.isUrgent.value == "true"))
  }

  /** The filter of a listing request, as a condition on tasks. */
  function MatchesQuery(q: ListQuery): Task -> bool {
    t => Matches(t, q)
  }

  /** The tasks of `ts` that satisfy `p`, in their order in `ts`. */
  function Where(ts: seq<Task>, p: Task -> bool): (r: seq<Task>)
    ensures |r| <= |ts|
    ensures multiset(r) <= multiset(ts)
    ensures forall t :: t in r <==> t in ts && p(t)
    ensures forall i :: 0 <= i < |r| ==> p(r[i])
  {
    if ts == [] then []
    else
      assert ts == [ts[0]] + ts[1..];
      if p(ts[0]) then [ts[0]] + Where(ts[1..], p) else Where(ts[1..], p)
  }

  /** Ordering by urgency loses and duplicates nothing: the two groups together are `ts`. */
  lemma {:induction false} UrgencySplit(ts: seq<Task>)
    ensures multiset(Where(ts, IsUrgent)) + multiset(Where(ts, IsNotUrgent)) == multiset(ts)
  {
    if ts != [] {
      UrgencySplit(ts[1..]);
      assert multiset(ts) == multiset([ts[0]]) + multiset(ts[1..]) by {
        assert ts == [ts[0]] + ts[1..];
      }
      if ts[0].isUrgent {
        assert Where(ts, IsUrgent) == [ts[0]] + Where(ts[1..], IsUrgent);
        assert Where(ts, IsNotUrgent) == Where(ts[1..], IsNotUrgent);
      } else {
        assert Where(ts, IsUrgent) == Where(ts[1..], IsUrgent);
        assert Where(ts, IsNotUrgent) == [ts[0]] + Where(ts[1..], IsNotUrgent);
      }
    }
  }

  /** A condition every task meets keeps them all. */
  lemma {:induction false} WhereAll(ts: seq<Task>, p: Task -> bool)
    requires forall t :: t in ts ==> p(t)
    ensures Where(ts, p) == ts
  {
    if ts != [] {
      assert ts[0] in ts;
      assert forall t :: t in ts[1..] ==> t in ts;
      WhereAll(ts[1..], p);
      assert ts == [ts[0]] + ts[1..];
    }
  }

  /** `orderBy('is_urgent', 'desc')`: urgent tasks first, each group in its original order. */
  function UrgentFirst(ts: seq<Task>): seq<Task> {
    Where(ts, IsUrgent) + Where(ts, IsNotUrgent)
  }

  /** The result of `index` over the owner's tasks `ts`. */
  function Query(ts: seq<Task>, q: ListQuery): seq<Task> {
    UrgentFirst(Where(ts, MatchesQuery(q)))
  }

  /** A task is listed exactly when it is one of `ts` and matches every filled filter. */
  lemma QueryMembership(ts: seq<Task>, q: ListQuery)
    ensures forall t :: t in Query(ts, q) <==> t in ts && Matches(t, q)
  {
    var m := Where(ts, MatchesQuery(q));
    assert forall t :: t in Query(ts, q) <==> t in m;
  }

  /** The listing is a permutation of the matching tasks: each listed as often as it occurs. */
  lemma QueryPermutation(ts: seq<Task>, q: ListQuery)
    ensures multiset(Query(ts, q)) == multiset(Where(ts, MatchesQuery(q)))
  {
    UrgencySplit(Where(ts, MatchesQuery(q)));
  }

  /** No non-urgent task is listed before an urgent one. */
  lemma QueryUrgentFirst(ts: seq<Task>, q: ListQuery)
    ensures var r := Query(ts, q);
            forall i, j :: 0 <= i < j < |r| && r[j].isUrgent ==> r[i].isUrgent
  {
    var m := Where(ts, MatchesQuery(q));
    var u := Where(m, IsUrgent);
    var n := Where(m, IsNotUrgent);
    var r := Query(ts, q);
    assert r == u + n;
    forall i, j | 0 <= i < j < |r| && r[j].isUrgent ensures r[i].isUrgent {
      assert r[i] == u[i];
    }
  }

  /** With no parameter filled, `index` lists every task of the owner, each once. */
  lemma QueryUnfiltered(ts: seq<Task>, q: ListQuery)
    requires !Filled(q.search) && !Filled(q.status) && !Filled(q.category) && !Filled(q.isUrgent)
    ensures multiset(Query(ts, q)) == multiset(ts)
  {
    WhereAll(ts, MatchesQuery(q));
    QueryPermutation(ts, q);
  }

  /**
   * A filled `is_urgent` keeps the tasks whose flag equals `(value ==
   * "true")`: any other non-blank value, `"false"` included, lists only
   * tasks that are not urgent.
   */
  lemma QueryUrgencyParameter(ts: seq<Task>, q: ListQuery)
    requires Filled(q.isUrgent)
    ensures q.isUrgent.value == "true" ==> forall t :: t in Query(ts, q) <==> t in ts && Matches(t, q) && t.isUrgent
    ensures q.isUrgent.value != "true" ==> forall t :: t in Query(ts, q) <==> t in ts && Matches(t, q) && !t.isUrgent
  {
    QueryMembership(ts, q);
  }

  /** A status or category that is not a raw value of its enum lists nothing, without an error. */
  lemma QueryUnknownValue(ts: seq<Task>, q: ListQuery)
    requires (Filled(q.status) && q.status.value !in TaskStatus.Values())
          || (Filled(q.category) && q.category.value !in TaskCategory.Values())
    ensures Query(ts, q) == []
  {
    QueryMembership(ts, q);
    forall t | t in ts ensures !Matches(t, q) {
      if Filled(q.status) && q.status.value !in TaskStatus.Values() {
        TaskStatus.FromValueOfValue(t.status);
      } else {
        TaskCategory.FromValueOfValue(t.category);
      }
    }
  }

  /**
   * Empty terms, produced by two spaces in a row or a leading or trailing
   * space, match every task: `LIKE '%%'` holds of any title.
   */
  lemma EmptyTermMatches(t: Task)
    ensures TermMatches(t, "")
  {
    assert Lower("") == [];
  }

  /**
   * The search keeps a task exactly when every space-separated piece of the
   * search string occurs, case-insensitively, in its title or description:
   * for a search built from space-free terms, those terms are the pieces.
   */
  lemma SearchByTerms(t: Task, terms: seq<string>, q: ListQuery)
    requires |terms| >= 1 && forall k :: 0 <= k < |terms| ==> ' ' !in terms[k]
    requires q.search == Some(Join(terms)) && Filled(q.search)
    ensures Matches(t, q) <==>
              (forall k :: 0 <= k < |terms| ==> TermMatches(t, terms[k]))
              && Matches(t, q.(search := None))
  {
    ExplodeJoin(terms);
  }

  /** A blank search, spaces only, applies no text filter at all. */
  lemma BlankSearchIgnored(t: Task, q: ListQuery)
    requires q.search.Some? && IsBlank(q.search.value)
    ensures Matches(t, q) == Matches(t, q.(search := None))
  {
  }
}
