/**
 * `TaskController`: the owner-scoped task table and the actions over it.
 * The authenticated user is the `requester` parameter and the clock is
 * the `now` parameter (seconds).
 */
module TaskController {
  import opened Wrappers
  import opened Http
  import opened TaskStatus
  import TaskCategory
  import opened TaskModel
  import opened TaskResource
  import opened TaskQuery
  import opened TaskSummary
  import opened TaskRequests

  /** Every row is stored under its own id, and ids run from 1 up to, not including, `next`. */
  ghost predicate WellKeyed(rows: map<int, Task>, next: int) {
    next >= 1 && forall id :: id in rows ==> rows[id].id == id && 1 <= id < next
  }

  /** The rows of `owner` with an id below `n`, in ascending id order. */
  function OwnedBelow(rows: map<int, Task>, owner: int, n: int): seq<Task>
    decreases n
  {
    if n <= 1 then []
    else OwnedBelow(rows, owner, n - 1)
         + (if n - 1 in rows && rows[n - 1].owner == owner then [rows[n - 1]] else [])
  }

  /** The ids of the rows of `owner` below `n`. */
  function OwnedIdsBelow(rows: map<int, Task>, owner: int, n: int): set<int> {
    set id | id in rows && id < n && rows[id].owner == owner
  }

  /** `OwnedBelow` holds exactly the owner's rows below `n`. */
  lemma {:induction false} OwnedBelowMembers(rows: map<int, Task>, owner: int, n: int)
    requires forall id :: id in rows ==> rows[id].id == id && 1 <= id
    ensures forall t :: t in OwnedBelow(rows, owner, n) <==> t.id in rows && rows[t.id] == t && t.owner == owner && t.id < n
    decreases n
  {
    if n > 1 {
      OwnedBelowMembers(rows, owner, n - 1);
    }
  }

  /** Every id `OwnedBelow` lists is below `n`. */
  lemma {:induction false} OwnedBelowBound(rows: map<int, Task>, owner: int, n: int)
    requires forall id :: id in rows ==> rows[id].id == id
    ensures forall i :: 0 <= i < |OwnedBelow(rows, owner, n)| ==> OwnedBelow(rows, owner, n)[i].id < n
    decreases n
  {
    if n > 1 {
      OwnedBelowBound(rows, owner, n - 1);
      var prev := OwnedBelow(rows, owner, n - 1);
      if n - 1 in rows && rows[n - 1].owner == owner {
        var ts := prev + [rows[n - 1]];
        assert OwnedBelow(rows, owner, n) == ts;
        forall i | 0 <= i < |ts| ensures ts[i].id < n {
          if i < |prev| {
            assert ts[i] == prev[i];
          } else {
            assert ts[i] == rows[n - 1];
          }
        }
      }
    }
  }

  /** `OwnedBelow` is in ascending id order. */
  lemma {:induction false} OwnedBelowSorted(rows: map<int, Task>, owner: int, n: int)
    requires forall id :: id in rows ==> rows[id].id == id && 1 <= id
    ensures forall i, j :: 0 <= i < j < |OwnedBelow(rows, owner, n)| ==>
              OwnedBelow(rows, owner, n)[i].id < OwnedBelow(rows, owner, n)[j].id
    decreases n
  {
    if n > 1 && n - 1 in rows && rows[n - 1].owner == owner {
      OwnedBelowSorted(rows, owner, n - 1);
      OwnedBelowBound(rows, owner, n - 1);
      var prev := OwnedBelow(rows, owner, n - 1);
      var ts := prev + [rows[n - 1]];
      assert OwnedBelow(rows, owner, n) == ts;
      forall i, j | 0 <= i < j < |ts| ensures ts[i].id < ts[j].id {
        assert i < |prev| && ts[i] == prev[i];
        if j < |prev| {
          assert ts[j] == prev[j];
        } else {
          assert ts[j] == rows[n - 1];
          assert prev[i].id < n - 1;
        }
      }
    } else if n > 1 {
      OwnedBelowSorted(rows, owner, n - 1);
      assert OwnedBelow(rows, owner, n) == OwnedBelow(rows, owner, n - 1);
    }
  }

  /** `OwnedBelow` lists each of the owner's ids below `n` once. */
  lemma {:induction false} OwnedBelowCount(rows: map<int, Task>, owner: int, n: int)
    requires forall id :: id in rows ==> 1 <= id
    ensures |OwnedBelow(rows, owner, n)| == |OwnedIdsBelow(rows, owner, n)|
    decreases n
  {
    if n <= 1 {
      assert forall id :: id in OwnedIdsBelow(rows, owner, n) ==> id in rows && id < n;
      assert OwnedIdsBelow(rows, owner, n) == {};
    } else {
      OwnedBelowCount(rows, owner, n - 1);
      var prev := OwnedIdsBelow(rows, owner, n - 1);
      if n - 1 in rows && rows[n - 1].owner == owner {
        assert OwnedIdsBelow(rows, owner, n) == prev + {n - 1};
        assert n - 1 !in prev;
      } else {
        assert OwnedIdsBelow(rows, owner, n) == prev;
      }
    }
  }

  /** `OwnedBelow` lists exactly the owner's rows below `n`, each once, by ascending id. */
  lemma OwnedBelowContents(rows: map<int, Task>, owner: int, n: int)
    requires forall id :: id in rows ==> rows[id].id == id && 1 <= id
    ensures var ts := OwnedBelow(rows, owner, n);
            && (forall t :: t in ts <==> t.id in rows && rows[t.id] == t && t.owner == owner && t.id < n)
            && (forall i, j :: 0 <= i < j < |ts| ==> ts[i].id < ts[j].id)
            && |ts| == |OwnedIdsBelow(rows, owner, n)|
  {
    OwnedBelowMembers(rows, owner, n);
    OwnedBelowSorted(rows, owner, n);
    OwnedBelowCount(rows, owner, n);
  }

  /** The ids of the rows of `owner` that satisfy `p`. */
  function OwnedWith(rows: map<int, Task>, owner: int, p: Task -> bool): set<int> {
    set id | id in rows && rows[id].owner == owner && p(rows[id])
  }

  /** Counting the rows of the owner scan that satisfy `p` counts their ids below `n`. */
  lemma {:induction false} OwnedBelowCountIf(rows: map<int, Task>, owner: int, n: int, p: Task -> bool)
    requires forall id :: id in rows ==> 1 <= id
    ensures CountIf(OwnedBelow(rows, owner, n), p)
         == |set id | id in rows && id < n && rows[id].owner == owner && p(rows[id])|
    decreases n
  {
    var now := set id | id in rows && id < n && rows[id].owner == owner && p(rows[id]);
    if n <= 1 {
      assert now == {};
    } else {
      OwnedBelowCountIf(rows, owner, n - 1, p);
      var prev := set id | id in rows && id < n - 1 && rows[id].owner == owner && p(rows[id]);
      var extra := if n - 1 in rows && rows[n - 1].owner == owner then [rows[n - 1]] else [];
      CountIfAppend(OwnedBelow(rows, owner, n - 1), extra, p);
      if n - 1 in rows && rows[n - 1].owner == owner && p(rows[n - 1]) {
        assert now == prev + {n - 1};
        assert n - 1 !in prev;
      } else {
        assert now == prev;
      }
    }
  }

  /** Over the whole table, each count of the owner scan is the number of the owner's rows meeting its condition. */
  lemma OwnedCounts(rows: map<int, Task>, owner: int, next: int)
    requires WellKeyed(rows, next)
    ensures forall p :: CountIf(OwnedBelow(rows, owner, next), p) == |OwnedWith(rows, owner, p)|
  {
    forall p: Task -> bool
      ensures CountIf(OwnedBelow(rows, owner, next), p) == |OwnedWith(rows, owner, p)|
    {
      OwnedBelowCountIf(rows, owner, next, p);
      assert (set id | id in rows && id < next && rows[id].owner == owner && p(rows[id])) == OwnedWith(rows, owner, p);
    }
  }

  class TaskStore {
    /** The `tasks` table, keyed by id. */
    var rows: map<int, Task>
    /** The id the next inserted row receives. */
    var nextId: int

    ghost predicate Valid()
      reads this
    {
      WellKeyed(rows, nextId)
    }

    constructor ()
      ensures Valid() && rows == map[] && nextId == 1
    {
      rows := map[];
      nextId := 1;
    }

    /** The ids of the requester's rows. */
    function OwnedIds(requester: int): set<int>
      reads this
    {
      OwnedWith(rows, requester, (t: Task) => true)
    }

    /**
     * `Auth::user()->tasks`: the requester's rows and no one else's, each
     * once. The relation query has no `ORDER BY`; ascending id is the
     * order this model fixes for it.
     */
    function Owned(requester: int): (ts: seq<Task>)
      reads this
      requires Valid()
      ensures forall t :: t in ts <==> t.id in rows && rows[t.id] == t && t.owner == requester
      ensures forall i, j :: 0 <= i < j < |ts| ==> ts[i].id < ts[j].id
      ensures |ts| == |OwnedIds(requester)|
    {
      OwnedBelowContents(rows, requester, nextId);
      assert OwnedIdsBelow(rows, requester, nextId) == OwnedIds(requester);
      OwnedBelow(rows, requester, nextId)
    }

    /**
     * The rows `index` returns: the requester's rows that match every
     * filled parameter, each as often as it is stored (once), urgent rows
     * before the others.
     */
    function Listed(requester: int, q: ListQuery): (ts: seq<Task>)
      reads this
      requires Valid()
      ensures forall t :: t in ts <==> t.id in rows && rows[t.id] == t && t.owner == requester && Matches(t, q)
      ensures multiset(ts) == multiset(Where(Owned(requester), MatchesQuery(q)))
      ensures forall i, j :: 0 <= i < j < |ts| && ts[j].isUrgent ==> ts[i].isUrgent
      ensures !Filled(q.search) && !Filled(q.status) && !Filled(q.category) && !Filled(q.isUrgent) ==>
                multiset(ts) == multiset(Owned(requester))
    {
      var owned := Owned(requester);
      QueryMembership(owned, q);
      QueryPermutation(owned, q);
      QueryUrgentFirst(owned, q);
      if !Filled(q.search) && !Filled(q.status) && !Filled(q.category) && !Filled(q.isUrgent) then
        QueryUnfiltered(owned, q);
        Query(owned, q)
      else
        Query(owned, q)
    }

    /** `index`: the listed rows as task resources, with status 200. */
    function Index(requester: int, q: ListQuery): (r: Reply<seq<map<string, Json>>>)
      reads this
      requires Valid()
      ensures r.Ok? && |r.data| == |Listed(requester, q)|
      ensures forall i :: 0 <= i < |r.data| ==> r.data[i] == ToArray(Listed(requester, q)[i])
    {
      Ok(Collection(Listed(requester, q)))
    }

    /**
     * The lookup every single-task action starts with: the row with that id
     * if the requester owns it. A row of another user is treated as absent.
     */
    function Find(requester: int, id: int): (r: Option<Task>)
      reads this
      ensures r.Some? <==> id in rows && rows[id].owner == requester
      ensures r.Some? ==> r.value == rows[id]
    {
      if id in rows && rows[id].owner == requester then Some(rows[id]) else None
    }

    /** `show`: the owned row as a resource, or 404 whether the row is absent or someone else's. */
    function Show(requester: int, id: int): (r: Reply<map<string, Json>>)
      reads this
      requires Valid()
      ensures r.Ok? || r.NotFound?
      ensures r.Ok? <==> id in rows && rows[id].owner == requester
      ensures r.Ok? ==> r.data == ToArray(rows[id]) && r.data["id"] == JInt(id)
    {
      match Find(requester, id)
      case Some(t) => Ok(ToArray(t))
      case None => NotFound
    }

    /**
     * `summary` over the requester's rows: the total, the three status
     * counts that add up to it, the urgent count that does not exceed it,
     * and one count per category, zeros included, that also add up to it.
     */
    function Summary(requester: int): (s: SummaryData)
      reads this
      requires Valid()
      ensures s.totalTasks == |OwnedIds(requester)|
      ensures s.completedTasks + s.inProgressTasks + s.pendingTasks == s.totalTasks
      ensures s.urgentTasks <= s.totalTasks
      ensures |s.categoryCounts| == 9
      ensures forall i :: 0 <= i < 9 ==> s.categoryCounts[i].0 == TaskCategory.Values()[i]
      ensures SumCounts(s.categoryCounts) == s.totalTasks
      ensures s.completedTasks == |OwnedWith(rows, requester, HasStatus(Completed))|
      ensures s.inProgressTasks == |OwnedWith(rows, requester, HasStatus(InProgress))|
      ensures s.pendingTasks == |OwnedWith(rows, requester, HasStatus(Pending))|
      ensures s.urgentTasks == |OwnedWith(rows, requester, IsUrgent)|
      ensures forall i :: 0 <= i < 9 ==>
                s.categoryCounts[i].1 == |OwnedWith(rows, requester, InCategory(TaskCategory.All()[i]))|
    {
      var owned := Owned(requester);
      OwnedCounts(rows, requester, nextId);
      StatusCountsAddUp(owned);
      UrgentCountBounded(owned);
      CategoryTableComplete(owned);
      CategoryCountsAddUp(owned);
      Summarize(owned)
    }

    /**
     * `store`: a request that fails validation writes nothing and is
     * answered 422 naming the failed fields; otherwise one row is inserted
     * under a fresh id, owned by the requester, and answered 201.
     */
    method Store(requester: int, req: TaskInput, now: int) returns (reply: Reply<map<string, Json>>)
      requires Valid()
      modifies this
      ensures Valid()
      ensures StoreErrors(req) != {} ==>
                reply == Unprocessable(StoreErrors(req)) && rows == old(rows) && nextId == old(nextId)
      ensures StoreErrors(req) == {} ==>
                && old(nextId) !in old(rows)
                && rows == old(rows)[old(nextId) := NewTask(old(nextId), requester, req, now)]
                && nextId == old(nextId) + 1
                && reply == Created(ToArray(NewTask(old(nextId), requester, req, now)))
    {
      var errors := StoreErrors(req);
      if errors != {} {
        return Unprocessable(errors);
      }
      var t := NewTask(nextId, requester, req, now);
      rows := rows[nextId := t];
      nextId := nextId + 1;
      reply := Created(ToArray(t));
    }

    /**
     * `update`: validation comes first, so a bad body is answered 422 even
     * for a row the requester cannot see; then an absent or foreign row is
     * answered 404; otherwise the owned row is replaced by its saved
     * version. Nothing else changes.
     */
    method Update(requester: int, id: int, req: TaskInput, now: int) returns (reply: Reply<map<string, Json>>)
      requires Valid()
      modifies this
      ensures Valid() && nextId == old(nextId)
      ensures UpdateErrors(req) != {} ==> reply == Unprocessable(UpdateErrors(req)) && rows == old(rows)
      ensures UpdateErrors(req) == {} && !(id in old(rows) && old(rows)[id].owner == requester) ==>
                reply == NotFound && rows == old(rows)
      ensures UpdateErrors(req) == {} && id in old(rows) && old(rows)[id].owner == requester ==>
                && rows == old(rows)[id := Saved(old(rows)[id], req, now)]
                && reply == Ok(ToArray(Saved(old(rows)[id], req, now)))
    {
      var errors := UpdateErrors(req);
      if errors != {} {
        return Unprocessable(errors);
      }
      var found := Find(requester, id);
      if found.None? {
        return NotFound;
      }
      var t := Saved(found.value, req, now);
      rows := rows[id := t];
      reply := Ok(ToArray(t));
    }

    /**
     * `destroy`: an owned row is removed and nothing else; an absent or
     * foreign row is answered 404 with the table unchanged, so destroying
     * the same id twice is answered 404 the second time.
     */
    method Destroy(requester: int, id: int) returns (reply: Reply<()>)
      requires Valid()
      modifies this
      ensures Valid() && nextId == old(nextId)
      ensures id in old(rows) && old(rows)[id].owner == requester ==>
                reply == Ok(()) && rows == old(rows) - {id}
      ensures !(id in old(rows) && old(rows)[id].owner == requester) ==>
                reply == NotFound && rows == old(rows)
      ensures Find(requester, id) == None
    {
      var found := Find(requester, id);
      if found.None? {
        return NotFound;
      }
      rows := rows - {id};
      reply := Ok(());
    }

    /**
     * The `ON DELETE CASCADE` of `tasks.user_id`: every row of `owner` is
     * removed and every other row is kept.
     */
    method DeleteOwnedBy(owner: int)
      requires Valid()
      modifies this
      ensures Valid() && nextId == old(nextId)
      ensures rows == map id | id in old(rows) && old(rows)[id].owner != owner :: old(rows)[id]
      ensures OwnedIds(owner) == {}
    {
      rows := map id | id in rows && rows[id].owner != owner :: rows[id];
    }
  }

  /**
   * A task the requester has just stored is shown to them as it was
   * returned on creation, and to nobody else.
   */
  method StoreThenShow(store: TaskStore, requester: int, other: int, req: TaskInput, now: int)
    returns (created: Reply<map<string, Json>>, shown: Reply<map<string, Json>>, hidden: Reply<map<string, Json>>)
    requires store.Valid() && StoreErrors(req) == {} && other != requester
    modifies store
    ensures created.Created? && created.Code() == 201
    ensures shown == Ok(created.data)
    ensures hidden == NotFound
  {
    var id := store.nextId;
    created := store.Store(requester, req, now);
    shown := store.Show(requester, id);
    hidden := store.Show(other, id);
  }

  /** Destroying an owned task succeeds once; the second attempt and any later show answer 404. */
  method DestroyTwice(store: TaskStore, requester: int, id: int)
    returns (first: Reply<()>, second: Reply<()>, shown: Reply<map<string, Json>>)
    requires store.Valid() && id in store.rows && store.rows[id].owner == requester
    modifies store
    ensures first == Ok(()) && second == NotFound && shown == NotFound
  {
    first := store.Destroy(requester, id);
    second := store.Destroy(requester, id);
    shown := store.Show(requester, id);
  }
}
