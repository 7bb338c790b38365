/** `InMemoryUserStorage`: users kept in a hash map keyed by id, with ids
    allocated as "largest key + 1". */
module InMemoryUserStorage {
  import opened Common
  import opened Model
  import Ids

  /** The message `remove` returns on success. */
  const RemovedMessage: string := "Пользователь успешно удален"

  /** `create`'s name default: a null name becomes the login; any other
      name, blank ones included, is kept. */
  function WithDefaultName(u: User): (r: User)
    ensures u.name.Some? ==> r == u
    ensures u.name.None? ==> r.name == u.login
    ensures r.(name := u.name) == u
  {
    if u.name.None? then u.(name := u.login) else u
  }

  /** `update`'s partial overwrite of a stored user by `patch`: each of email,
      login, name and birthday is taken from `patch` when non-null there. */
  function Patched(existing: User, patch: User): (r: User)
    ensures r.id == existing.id
  {
    existing.(
      email := if patch.email.Some? then patch.email else existing.email,
      login := if patch.login.Some? then patch.login else existing.login,
      name := if patch.name.Some? then patch.name else existing.name,
      birthday := if patch.birthday.Some? then patch.birthday else existing.birthday)
  }

  /** A non-null field of the patch always lands in the result, a null one
      never erases the stored value, and patching twice is patching once. */
  lemma PatchedFields(existing: User, patch: User)
    ensures patch.email.Some? ==> Patched(existing, patch).email == patch.email
    ensures patch.email.None? ==> Patched(existing, patch).email == existing.email
    ensures patch.login.Some? ==> Patched(existing, patch).login == patch.login
    ensures patch.login.None? ==> Patched(existing, patch).login == existing.login
    ensures patch.name.Some? ==> Patched(existing, patch).name == patch.name
    ensures patch.name.None? ==> Patched(existing, patch).name == existing.name
    ensures patch.birthday.Some? ==> Patched(existing, patch).birthday == patch.birthday
    ensures patch.birthday.None? ==> Patched(existing, patch).birthday == existing.birthday
    ensures Patched(Patched(existing, patch), patch) == Patched(existing, patch)
  {
  }

  class InMemoryUserStorage {
    /** The `users` hash map. */
    var users: map<int, User>

    /** Every stored user carries its own key as its id. */
    ghost predicate Valid()
      reads this
    {
      UsersKeyed(users)
    }

    constructor ()
      ensures Valid() && users == map[]
    {
      users := map[];
    }

    /** `validateUserExists` (and `userById`, which delegates to it): the
        stored user, or a ValidationException (not NotFound) for an unknown
        or null id. */
    function ValidateUserExists(id: Option<int>): (r: Result<User>)
      reads this
      ensures r.Ok? <==> id.Some? && id.value in users
      ensures r.Ok? ==> r.value == users[id.value]
      ensures r.Err? ==> r.error == Validation
    {
      if id.Some? && id.value in users then Ok(users[id.value]) else Err(Validation)
    }

    /** `create`: defaults a null name to the login and stores the user under
        "largest key + 1"; exactly one entry is added. */
    method Create(user: User) returns (r: User)
      requires Valid()
      modifies this
      ensures Valid()
      ensures var id := Ids.NextId(old(users).Keys);
        && id !in old(users)
        && r == WithDefaultName(user).(id := Some(id))
        && users == old(users)[id := r]
    {
      var named := WithDefaultName(user);
      var newId := Ids.NextId(users.Keys);
      r := named.(id := Some(newId));
      users := users[newId := r];
    }

    /** `update`: a ValidationException for an unknown or null id; otherwise
        the stored user gets the patch's non-null fields and no other entry
        changes. */
    method Update(updatedUser: User) returns (r: Result<User>)
      requires Valid()
      modifies this
      ensures Valid()
      ensures r.Ok? <==> updatedUser.id.Some? && updatedUser.id.value in old(users)
      ensures r.Err? ==> r.error == Validation && users == old(users)
      ensures r.Ok? ==>
        var id := updatedUser.id.value;
        && r.value == Patched(old(users)[id], updatedUser)
        && users == old(users)[id := r.value]
    {
      var existing := ValidateUserExists(updatedUser.id);
      if existing.Err? {
        return Err(existing.error);
      }
      var updated := Patched(existing.value, updatedUser);
      users := users[updatedUser.id.value := updated];
      return Ok(updated);
    }

    /** `remove`: deletes exactly that key, or throws and changes nothing. */
    method Remove(id: int) returns (r: Result<string>)
      requires Valid()
      modifies this
      ensures Valid()
      ensures r.Ok? <==> id in old(users)
      ensures r.Err? ==> r.error == Validation && users == old(users)
      ensures r.Ok? ==> r.value == RemovedMessage && users == old(users) - {id}
    {
      var existing := ValidateUserExists(Some(id));
      if existing.Err? {
        return Err(existing.error);
      }
      users := users - {id};
      return Ok(RemovedMessage);
    }
  }
}
