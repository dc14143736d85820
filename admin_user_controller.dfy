/**
 * `AdminUserController`: the user table as administrators see it. The
 * admin gate in front of these actions is outside the controller; every
 * action here is one the gate has already let through.
 */
module AdminUserController {
  import opened Wrappers
  import opened Text
  import opened Http
  import opened TaskController

  /** The two roles, stored by raw value. */
  datatype Role = AdminRole | UserRole {

    function Value(): string {
      match this
      case AdminRole => "admin"
      case UserRole => "user"
    }
  }

  /** The `in:admin,user` rule, read as the role it names. */
  function RoleFromValue(s: string): (r: Option<Role>)
    ensures r.Some? <==> s == "admin" || s == "user"
    ensures r.Some? ==> r.value.Value() == s
  {
    if s == "admin" then Some(AdminRole) else if s == "user" then Some(UserRole) else None
  }

  /** One row of the `users` table; the password is the stored hash, never read here. */
  datatype User = User(id: int, name: string, email: string, password: string, role: Role)

  /** An `email` value: an address the `email` rule accepts, or anything it rejects. */
  datatype RawEmail = Address(text: string) | NotAnEmail

  /** The three keys `editUser` reads. */
  datatype UserInput = UserInput(name: Input<string>, email: Input<RawEmail>, role: Input<string>)

  /** No two users share an email address. */
  ghost predicate UniqueEmails(users: map<int, User>) {
    forall a, b :: a in users && b in users && a != b ==> users[a].email != users[b].email
  }

  /** The `unique:users` rule fails: some user, whichever, already has this address. */
  predicate EmailTaken(users: map<int, User>, e: string) {
    exists id :: id in users && users[id].email == e
  }

  /** `sometimes|required|string|max:255`. */
  predicate NameOk(i: Input<string>) {
    i.Absent? || (i.Given? && !IsBlank(i.value) && |i.value| <= 255)
  }

  /** `sometimes|required|email|unique:users`, checked against the whole table. */
  predicate EmailOk(users: map<int, User>, i: Input<RawEmail>) {
    i.Absent? || (i.Given? && i.value.Address? && !IsBlank(i.value.text) && !EmailTaken(users, i.value.text))
  }

  /** `sometimes|required|in:admin,user`. */
  predicate RoleOk(i: Input<string>) {
    i.Absent? || (i.Given? && RoleFromValue(i.value).Some?)
  }

  /** The fields `editUser` rejects, decided before the target user is looked up. */
  function EditErrors(users: map<int, User>, req: UserInput): (e: set<string>)
    ensures e <= {"name", "email", "role"}
    ensures "role" in e <==> !(req.role.Absent? || (req.role.Given? && (req.role.value == "admin" || req.role.value == "user")))
    ensures "name" !in e <==> req.name.Absent? || (req.name.Given? && !IsBlank(req.name.value) && |req.name.value| <= 255)
    ensures "email" !in e <==>
              || req.email.Absent?
              || (req.email.Given? && req.email.value.Address? && !IsBlank(req.email.value.text)
                  && forall id :: id in users ==> users[id].email != req.email.value.text)
    ensures req.name.Null? || req.email.Null? || req.role.Null? ==> e != {}
  {
    (if NameOk(req.name) then {} else {"name"})
    + (if EmailOk(users, req.email) then {} else {"email"})
    + (if RoleOk(req.role) then {} else {"role"})
  }

  /** `$user->update($request->only(['name', 'email', 'role']))`: the supplied keys only. */
  function Edited(u: User, req: UserInput): (r: User)
    requires req.email.Given? ==> req.email.value.Address?
    requires RoleOk(req.role)
    ensures r.id == u.id && r.password == u.password
    ensures r.name == (if req.name.Given? then req.name.value else u.name)
    ensures r.email == (if req.email.Given? then req.email.value.text else u.email)
    ensures req.role.Given? ==> r.role.Value() == req.role.value
    ensures !req.role.Given? ==> r.role == u.role
  {
    u.(
      name := if req.name.Given? then req.name.value else u.name,
      email := if req.email.Given? then req.email.value.text else u.email,
      role := if req.role.Given? then RoleFromValue(req.role.value).value else u.role)
  }

  /** Re-sending a user's own address fails: the uniqueness rule does not exempt the user being edited. */
  lemma OwnEmailRejected(users: map<int, User>, id: int, req: UserInput)
    requires id in users && req.email == Given(Address(users[id].email))
    ensures "email" in EditErrors(users, req)
  {
    assert EmailTaken(users, users[id].email);
  }

  /** The users with an id below `n`, in ascending id order. */
  function UsersBelow(users: map<int, User>, n: int): seq<User>
    decreases n
  {
    if n <= 1 then [] else UsersBelow(users, n - 1) + (if n - 1 in users then [users[n - 1]] else [])
  }

  /** `UsersBelow` holds exactly the users below `n`. */
  lemma {:induction false} UsersBelowMembers(users: map<int, User>, n: int)
    requires forall id :: id in users ==> users[id].id == id && 1 <= id
    ensures forall u :: u in UsersBelow(users, n) <==> u.id in users && users[u.id] == u && u.id < n
    decreases n
  {
    if n > 1 {
      UsersBelowMembers(users, n - 1);
    }
  }

  /** Every id `UsersBelow` lists is below `n`. */
  lemma {:induction false} UsersBelowBound(users: map<int, User>, n: int)
    requires forall id :: id in users ==> users[id].id == id
    ensures forall i :: 0 <= i < |UsersBelow(users, n)| ==> UsersBelow(users, n)[i].id < n
    decreases n
  {
    if n > 1 {
      UsersBelowBound(users, n - 1);
      var prev := UsersBelow(users, n - 1);
      if n - 1 in users {
        var us := prev + [users[n - 1]];
        assert UsersBelow(users, n) == us;
        forall i | 0 <= i < |us| ensures us[i].id < n {
          if i < |prev| {
            assert us[i] == prev[i];
          } else {
            assert us[i] == users[n - 1];
          }
        }
      }
    }
  }

  /** `UsersBelow` is in ascending id order. */
  lemma {:induction false} UsersBelowSorted(users: map<int, User>, n: int)
    requires forall id :: id in users ==> users[id].id == id && 1 <= id
    ensures forall i, j :: 0 <= i < j < |UsersBelow(users, n)| ==>
              UsersBelow(users, n)[i].id < UsersBelow(users, n)[j].id
    decreases n
  {
    if n > 1 && n - 1 in users {
      UsersBelowSorted(users, n - 1);
      UsersBelowBound(users, n - 1);
      var prev := UsersBelow(users, n - 1);
      var us := prev + [users[n - 1]];
      assert UsersBelow(users, n) == us;
      forall i, j | 0 <= i < j < |us| ensures us[i].id < us[j].id {
        assert i < |prev| && us[i] == prev[i];
        if j < |prev| {
          assert us[j] == prev[j];
        } else {
          assert us[j] == users[n - 1];
          assert prev[i].id < n - 1;
        }
      }
    } else if n > 1 {
      UsersBelowSorted(users, n - 1);
      assert UsersBelow(users, n) == UsersBelow(users, n - 1);
    }
  }

  /** `UsersBelow` lists each id below `n` once. */
  lemma {:induction false} UsersBelowCount(users: map<int, User>, n: int)
    requires forall id :: id in users ==> 1 <= id
    ensures |UsersBelow(users, n)| == |set id | id in users && id < n|
    decreases n
  {
    if n <= 1 {
      assert (set id | id in users && id < n) == {};
    } else {
      UsersBelowCount(users, n - 1);
      var prev := set id | id in users && id < n - 1;
      if n - 1 in users {
        assert (set id | id in users && id < n) == prev + {n - 1};
        assert n - 1 !in prev;
      } else {
        assert (set id | id in users && id < n) == prev;
      }
    }
  }

  /** `UsersBelow` lists exactly the users below `n`, each once, by ascending id. */
  lemma UsersBelowContents(users: map<int, User>, n: int)
    requires forall id :: id in users ==> users[id].id == id && 1 <= id
    ensures var us := UsersBelow(users, n);
            && (forall u :: u in us <==> u.id in users && users[u.id] == u && u.id < n)
            && (forall i, j :: 0 <= i < j < |us| ==> us[i].id < us[j].id)
            && |us| == |set id | id in users && id < n|
  {
    UsersBelowMembers(users, n);
    UsersBelowSorted(users, n);
    UsersBelowCount(users, n);
  }

  class UserStore {
    /** The `users` table, keyed by id. */
    var users: map<int, User>
    /** The id the next registered user would receive. */
    var nextId: int
    /** The `tasks` table, whose `user_id` cascades on delete. */
    const tasks: TaskStore

    ghost predicate Valid()
      reads this, tasks
    {
      && tasks.Valid()
      && nextId >= 1
      && (forall id :: id in users ==> users[id].id == id && 1 <= id < nextId)
      && UniqueEmails(users)
    }

    /** A store over an existing table of users, as registration left it. */
    constructor (initial: map<int, User>, next: int, taskTable: TaskStore)
      requires taskTable.Valid() && next >= 1
      requires forall id :: id in initial ==> initial[id].id == id && 1 <= id < next
      requires UniqueEmails(initial)
      ensures Valid() && users == initial && nextId == next && tasks == taskTable
    {
      users := initial;
      nextId := next;
      tasks := taskTable;
    }

    /**
     * `getAllUsers`: every user, each once. `User::all()` has no
     * `ORDER BY`; ascending id is the order this model fixes for it.
     */
    function AllUsers(): (us: seq<User>)
      reads this, tasks
      requires Valid()
      ensures forall u :: u in us <==> u.id in users && users[u.id] == u
      ensures forall i, j :: 0 <= i < j < |us| ==> us[i].id < us[j].id
      ensures |us| == |users|
    {
      UsersBelowContents(users, nextId);
      assert (set id | id in users && id < nextId) == users.Keys;
      UsersBelow(users, nextId)
    }

    /** `getUserById`: the user with that id, or 404. */
    function UserById(id: int): (r: Reply<User>)
      reads this
      ensures r.Ok? <==> id in users
      ensures r.Ok? ==> r.data == users[id]
      ensures !r.Ok? ==> r == NotFound
    {
      if id in users then Ok(users[id]) else NotFound
    }

    /**
     * `editUser`: validation against the whole table comes first and
     * answers 422; then a missing id answers 404; otherwise only the
     * supplied keys of that user change. Emails stay unique, and the task
     * table is not touched.
     */
    method EditUser(id: int, req: UserInput) returns (reply: Reply<User>)
      requires Valid()
      modifies this
      ensures Valid() && nextId == old(nextId)
      ensures EditErrors(old(users), req) != {} ==>
                reply == Unprocessable(EditErrors(old(users), req)) && users == old(users)
      ensures EditErrors(old(users), req) == {} && id !in old(users) ==> reply == NotFound && users == old(users)
      ensures EditErrors(old(users), req) == {} && id in old(users) ==>
                && users == old(users)[id := Edited(old(users)[id], req)]
                && reply == Ok(Edited(old(users)[id], req))
    {
      var errors := EditErrors(users, req);
      if errors != {} {
        return Unprocessable(errors);
      }
      if id !in users {
        return NotFound;
      }
      var u := Edited(users[id], req);
      forall other | other in users && other != id
        ensures users[other].email != u.email
      {
        if req.email.Given? {
          assert !EmailTaken(users, req.email.value.text);
        }
      }
      users := users[id := u];
      reply := Ok(u);
    }

    /**
     * `deleteUser`: a missing id answers 404 and changes nothing; otherwise
     * the user is removed and, through the cascade, exactly their tasks;
     * other users and their tasks are kept.
     */
    method DeleteUser(id: int) returns (reply: Reply<()>)
      requires Valid()
      modifies this, tasks
      ensures Valid() && nextId == old(nextId) && tasks.nextId == old(tasks.nextId)
      ensures id !in old(users) ==>
                reply == NotFound && users == old(users) && tasks.rows == old(tasks.rows)
      ensures id in old(users) ==>
                && reply == Ok(())
                && users == old(users) - {id}
                && tasks.rows == map k | k in old(tasks.rows) && old(tasks.rows)[k].owner != id :: old(tasks.rows)[k]
      ensures id in old(users) ==> tasks.OwnedIds(id) == {}
    {
      if id !in users {
        return NotFound;
      }
      users := users - {id};
      tasks.DeleteOwnedBy(id);
      reply := Ok(());
    }
  }
}
