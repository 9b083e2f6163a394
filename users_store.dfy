/**
 * The user-list store: one mutable `users` list and the four actions that
 * replace it (setUsers, addUserAtTop, updateUser, deleteUser).
 *
 * Each action computes its new list purely (prepend, map, filter); those
 * computations are the functions below, and the class `Store` assigns their
 * results to its `users` field.
 */
module UsersStore {

  datatype Option<T> = None | Some(value: T)

  /** One key of a partial patch: absent from the patch, or present with a value. */
  datatype Field<T> = Absent | Present(value: T)

  datatype Company = Company(name: string)

  /** A user record; `createdAt` and `isLocal` are optional keys. */
  datatype User = User(
    id: int,
    name: string,
    email: string,
    company: Company,
    createdAt: Option<int>,
    isLocal: Option<bool>)

  /** The argument of addUserAtTop: every key of a User, with `id` and `company` optional. */
  datatype NewUserInput = NewUserInput(
    id: Option<int>,
    name: string,
    email: string,
    company: Option<Company>,
    createdAt: Option<int>,
    isLocal: Option<bool>)

  /** A partial patch over every key of a User except `id`. */
  datatype Patch = Patch(
    name: Field<string>,
    email: Field<string>,
    company: Field<Company>,
    createdAt: Field<Option<int>>,
    isLocal: Field<Option<bool>>)

  /** The company given to a locally added user when none is supplied: an em dash. */
  const PlaceholderCompany: Company := Company("\U{2014}")

  const EmptyPatch: Patch := Patch(Absent, Absent, Absent, Absent, Absent)

  function Pick<T>(f: Field<T>, current: T): T {
    if f.Present? then f.value else current
  }

  /**
   * The record addUserAtTop builds. `idClock` and `createdClock` are the two
   * readings of the clock: the first is only used when no id is supplied.
   */
  function LocalUser(input: NewUserInput, idClock: int, createdClock: int): (u: User)
    ensures input.id.Some? ==> u.id == input.id.value
    ensures input.id.None? ==> u.id == idClock
    ensures u.name == input.name && u.email == input.email
    ensures input.company.Some? ==> u.company == input.company.value
    ensures input.company.None? ==> u.company == PlaceholderCompany
    ensures u.createdAt == Some(createdClock) && u.isLocal == Some(true)
  {
    User(
      if input.id.Some? then input.id.value else idClock,
      input.name,
      input.email,
      if input.company.Some? then input.company.value else PlaceholderCompany,
      Some(createdClock),
      Some(true))
  }

  /** `{ ...user, ...patch }`: every key present in the patch overwrites, the rest is kept. */
  function ApplyPatch(u: User, p: Patch): (r: User)
    ensures r.id == u.id
    ensures p.name.Present? ==> r.name == p.name.value
    ensures p.name.Absent? ==> r.name == u.name
    ensures p.email.Present? ==> r.email == p.email.value
    ensures p.email.Absent? ==> r.email == u.email
    ensures p.company.Present? ==> r.company == p.company.value
    ensures p.company.Absent? ==> r.company == u.company
    ensures p.createdAt.Present? ==> r.createdAt == p.createdAt.value
    ensures p.createdAt.Absent? ==> r.createdAt == u.createdAt
    ensures p.isLocal.Present? ==> r.isLocal == p.isLocal.value
    ensures p.isLocal.Absent? ==> r.isLocal == u.isLocal
  {
    User(
      u.id,
      Pick(p.name, u.name),
      Pick(p.email, u.email),
      Pick(p.company, u.company),
      Pick(p.createdAt, u.createdAt),
      Pick(p.isLocal, u.isLocal))
  }

  /** Patching twice with the same patch is patching once. */
  lemma ApplyPatchIdempotent(u: User, p: Patch)
    ensures ApplyPatch(ApplyPatch(u, p), p) == ApplyPatch(u, p)
  {
  }

  /** A patch with no keys changes nothing. */
  lemma ApplyEmptyPatch(u: User)
    ensures ApplyPatch(u, EmptyPatch) == u
  {
  }

  /** The ids of a list, in order. */
  function Ids(users: seq<User>): (ids: seq<int>)
    ensures |ids| == |users|
    ensures forall i :: 0 <= i < |users| ==> ids[i] == users[i].id
  {
    if users == [] then [] else [users[0].id] + Ids(users[1..])
  }

  predicate HasId(users: seq<User>, id: int) {
    exists i :: 0 <= i < |users| && users[i].id == id
  }

  /** No two records of the list share an id. */
  predicate UniqueIds(users: seq<User>) {
    forall i, j :: 0 <= i < j < |users| ==> users[i].id != users[j].id
  }

  /** updateUser's new list: `users.map(u => u.id === id ? { ...u, ...patch } : u)`. */
  function UpdateAll(users: seq<User>, id: int, patch: Patch): (r: seq<User>)
    ensures |r| == |users|
    ensures forall i :: 0 <= i < |users| && users[i].id == id ==> r[i] == ApplyPatch(users[i], patch)
    ensures forall i :: 0 <= i < |users| && users[i].id != id ==> r[i] == users[i]
    ensures Ids(r) == Ids(users)
    ensures !HasId(users, id) ==> r == users
  {
    if users == [] then []
    else
      [if users[0].id == id then ApplyPatch(users[0], patch) else users[0]]
      + UpdateAll(users[1..], id, patch)
  }

  /** deleteUser's new list: `users.filter(u => u.id !== id)`. */
  function RemoveId(users: seq<User>, id: int): (r: seq<User>)
    ensures |r| <= |users|
    ensures forall u :: u in r <==> u in users && u.id != id
    ensures !HasId(r, id)
    ensures !HasId(users, id) ==> r == users
  {
    if users == [] then []
    else if users[0].id == id then RemoveId(users[1..], id)
    else [users[0]] + RemoveId(users[1..], id)
  }

  /** Filtering distributes over concatenation: the kept records stay in their original order. */
  lemma {:induction false} RemoveIdAppend(a: seq<User>, b: seq<User>, id: int)
    ensures RemoveId(a + b, id) == RemoveId(a, id) + RemoveId(b, id)
  {
    if a == [] {
      assert a + b == b;
    } else {
      assert (a + b)[0] == a[0];
      assert (a + b)[1..] == a[1..] + b;
      RemoveIdAppend(a[1..], b, id);
    }
  }

  /** Exactly the records with the id go: the length drops by their number. */
  lemma {:induction false} RemoveIdCount(users: seq<User>, id: int)
    ensures |RemoveId(users, id)| == |users| - CountId(users, id)
  {
    if users != [] {
      RemoveIdCount(users[1..], id);
    }
  }

  function CountId(users: seq<User>, id: int): (n: nat)
    ensures n <= |users|
    ensures n == 0 <==> !HasId(users, id)
  {
    if users == [] then 0
    else (if users[0].id == id then 1 else 0) + CountId(users[1..], id)
  }

  /** Deleting twice is deleting once. */
  lemma RemoveIdIdempotent(users: seq<User>, id: int)
    ensures RemoveId(RemoveId(users, id), id) == RemoveId(users, id)
  {
  }

  /** After a delete, an update of the same id changes nothing. */
  lemma UpdateAfterRemoveIsNoOp(users: seq<User>, id: int, patch: Patch)
    ensures UpdateAll(RemoveId(users, id), id, patch) == RemoveId(users, id)
  {
  }

  /** Updating twice with the same patch is updating once. */
  lemma UpdateAllIdempotent(users: seq<User>, id: int, patch: Patch)
    ensures UpdateAll(UpdateAll(users, id, patch), id, patch) == UpdateAll(users, id, patch)
  {
    var once := UpdateAll(users, id, patch);
    var twice := UpdateAll(once, id, patch);
    forall i | 0 <= i < |users|
      ensures twice[i] == once[i]
    {
      if users[i].id == id {
        ApplyPatchIdempotent(users[i], patch);
      }
    }
  }

  lemma UniqueIdsFromIds(a: seq<User>, b: seq<User>)
    requires Ids(a) == Ids(b) && UniqueIds(a)
    ensures UniqueIds(b)
  {
    forall i, j | 0 <= i < j < |b|
      ensures b[i].id != b[j].id
    {
      assert Ids(a)[i] == b[i].id && Ids(a)[j] == b[j].id;
    }
  }

  /** An update never changes an id, so it keeps ids unique. */
  lemma UpdateAllKeepsUniqueIds(users: seq<User>, id: int, patch: Patch)
    requires UniqueIds(users)
    ensures UniqueIds(UpdateAll(users, id, patch))
  {
    UniqueIdsFromIds(users, UpdateAll(users, id, patch));
  }

  /** A delete keeps ids unique. */
  lemma {:induction false} RemoveIdKeepsUniqueIds(users: seq<User>, id: int)
    requires UniqueIds(users)
    ensures UniqueIds(RemoveId(users, id))
  {
    if users != [] {
      var rest := users[1..];
      assert UniqueIds(rest);
      RemoveIdKeepsUniqueIds(rest, id);
      if users[0].id != id {
        var r := RemoveId(rest, id);
        forall u | u in r
          ensures u.id != users[0].id
        {
          assert u in rest;
          var k :| 0 <= k < |rest| && rest[k] == u;
          assert users[k + 1] == u;
        }
        assert RemoveId(users, id) == [users[0]] + r;
      }
    }
  }

  /** Adding a record whose id is not yet in the list keeps ids unique. */
  lemma AddAtTopKeepsUniqueIds(users: seq<User>, u: User)
    requires UniqueIds(users) && !HasId(users, u.id)
    ensures UniqueIds([u] + users)
  {
    var r := [u] + users;
    forall i, j | 0 <= i < j < |r|
      ensures r[i].id != r[j].id
    {
      if i == 0 {
        assert r[j] == users[j - 1];
      } else {
        assert r[i] == users[i - 1] && r[j] == users[j - 1];
      }
    }
  }

  /** Nothing stops addUserAtTop from reusing an id: a supplied id already in the list is taken as is. */
  lemma AddAtTopMayDuplicateId(users: seq<User>, input: NewUserInput, idClock: int, createdClock: int)
    requires input.id.Some? && HasId(users, input.id.value)
    ensures !UniqueIds([LocalUser(input, idClock, createdClock)] + users)
  {
    var r := [LocalUser(input, idClock, createdClock)] + users;
    var k :| 0 <= k < |users| && users[k].id == input.id.value;
    assert r[k + 1] == users[k];
    assert r[0].id == r[k + 1].id;
  }

  /** The store: one `users` list, overwritten by each action. */
  class Store {
    var users: seq<User>

    /** The store starts empty. */
    constructor ()
      ensures users == []
    {
      users := [];
    }

    /** Replaces the whole list. */
    method SetUsers(list: seq<User>)
      modifies this
      ensures users == list
    {
      users := list;
    }

    /** Prepends the record built from `input`; no id-collision check is made. */
    method AddUserAtTop(input: NewUserInput, idClock: int, createdClock: int)
      modifies this
      ensures users == [LocalUser(input, idClock, createdClock)] + old(users)
      ensures |users| == |old(users)| + 1 && users[1..] == old(users)
    {
      var newUser := LocalUser(input, idClock, createdClock);
      users := [newUser] + users;
    }

    /** Merges `patch` into every record whose id is `id`. */
    method UpdateUser(id: int, patch: Patch)
      modifies this
      ensures users == UpdateAll(old(users), id, patch)
    {
      users := UpdateAll(users, id, patch);
    }

    /** Drops every record whose id is `id`. */
    method DeleteUser(id: int)
      modifies this
      ensures users == RemoveId(old(users), id)
    {
      users := RemoveId(users, id);
    }
  }

  /** Reading the store right after setUsers(list) gives back exactly `list`. */
  method SetThenRead(list: seq<User>) returns (read: seq<User>)
    ensures read == list
  {
    var store := new Store();
    store.SetUsers(list);
    read := store.users;
  }

  /** Two deletes of the same id leave the store as one delete does. */
  method DeleteTwice(list: seq<User>, id: int) returns (once: seq<User>, twice: seq<User>)
    ensures once == twice
    ensures !HasId(twice, id)
  {
    var store := new Store();
    store.SetUsers(list);
    store.DeleteUser(id);
    once := store.users;
    store.DeleteUser(id);
    twice := store.users;
  }
}
