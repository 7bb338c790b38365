/** `UserDbStorage`: the `users` table and the `friends` table of directed
    `(user_id, friend_id)` pairs. A friendship stored here is one-way: the
    friend does not get the reverse pair. */
module UserDbStorage {
  import opened Common
  import opened Model
  import Ids

  /** The rows of the `friends` table. */
  type FriendTable = set<(int, int)>

  /** The message `remove` returns on success. */
  const RemovedMessage: string := "Пользователь успешно удалён"

  /** `create`'s name default: a null or blank name (`isBlank`) becomes the
      login; any other name is kept. */
  function NamedForInsert(u: User): (r: User)
    ensures u.name.None? || IsBlank(u.name.value) ==> r.name == u.login
    ensures u.name.Some? && !IsBlank(u.name.value) ==> r == u
    ensures r.(name := u.name) == u
  {
    if u.name.None? || IsBlank(u.name.value) then u.(name := u.login) else u
  }

  /** The `friend_id`s stored under `u`: the out-neighbours of `u`. */
  function FriendIds(rel: FriendTable, u: int): set<int>
  {
    Ids.Targets(rel, u)
  }

  /** The ids of a collection of users. */
  function IdsOf(us: set<User>): set<int>
  {
    set x | x in us && x.id.Some? :: x.id.value
  }

  /** `SELECT u.* FROM users u JOIN friends f ON u.user_id = f.friend_id
      WHERE f.user_id = ?`. */
  function FriendRows(users: map<int, User>, rel: FriendTable, u: int): set<User>
  {
    set f | f in users && (u, f) in rel :: users[f]
  }

  /** The double JOIN of `getCommonFriends`: users listed under both ids. */
  function CommonRows(users: map<int, User>, rel: FriendTable, u: int, o: int): set<User>
  {
    set f | f in users && (u, f) in rel && (o, f) in rel :: users[f]
  }

  /** The friends returned for `u` are exactly the stored users `v` with
      `(u, v)` in the table; none when `u` has no pairs. */
  lemma FriendRowsIds(users: map<int, User>, rel: FriendTable, u: int)
    ensures UsersKeyed(users) ==> IdsOf(FriendRows(users, rel, u)) == FriendIds(rel, u) * users.Keys
    ensures FriendIds(rel, u) == {} ==> FriendRows(users, rel, u) == {}
  {
    if !UsersKeyed(users) {
      return;
    }
    var rows := FriendRows(users, rel, u);
    forall x | x in FriendIds(rel, u) * users.Keys ensures x in IdsOf(rows) {
      assert users[x] in rows;
    }
    forall x | x in IdsOf(rows) ensures x in FriendIds(rel, u) * users.Keys {
      var row :| row in rows && row.id == Some(x);
      var f :| f in users && (u, f) in rel && row == users[f];
      assert f == x;
    }
  }

  /** The common friends are the users that are friends of both, in either
      order of the two ids. Because each row carries its own key, one row
      cannot stand for two different friend ids. */
  lemma {:induction false} CommonIsIntersection(users: map<int, User>, rel: FriendTable, u: int, o: int)
    ensures UsersKeyed(users) ==>
      CommonRows(users, rel, u, o) == FriendRows(users, rel, u) * FriendRows(users, rel, o)
    ensures CommonRows(users, rel, u, o) == CommonRows(users, rel, o, u)
  {
    forall row | row in CommonRows(users, rel, u, o) ensures row in CommonRows(users, rel, o, u) {
      var f :| f in users && (u, f) in rel && (o, f) in rel && row == users[f];
    }
    forall row | row in CommonRows(users, rel, o, u) ensures row in CommonRows(users, rel, u, o) {
      var f :| f in users && (o, f) in rel && (u, f) in rel && row == users[f];
    }
    if !UsersKeyed(users) {
      return;
    }
    var both := FriendRows(users, rel, u) * FriendRows(users, rel, o);
    forall row | row in both ensures row in CommonRows(users, rel, u, o) {
      var f :| f in users && (u, f) in rel && row == users[f];
      var g :| g in users && (o, g) in rel && row == users[g];
      assert f == g;
    }
  }

  /** Inserting `(u, f)` gives `u` one more friend and gives `f` none: the
      reverse pair exists afterwards only if it existed before. */
  lemma AddPairIsOneWay(rel: FriendTable, u: int, f: int)
    requires u != f
    ensures FriendIds(rel + {(u, f)}, u) == FriendIds(rel, u) + {f}
    ensures FriendIds(rel + {(u, f)}, f) == FriendIds(rel, f)
    ensures (f, u) in rel + {(u, f)} <==> (f, u) in rel
  {
    Ids.TargetsAfterInsert(rel, u, f);
  }

  /** Deleting `(u, f)` takes `f` from `u`'s friends and leaves `f`'s
      friends, `u` included, as they were. */
  lemma RemovePairIsOneWay(rel: FriendTable, u: int, f: int)
    requires u != f
    ensures FriendIds(rel - {(u, f)}, u) == FriendIds(rel, u) - {f}
    ensures FriendIds(rel - {(u, f)}, f) == FriendIds(rel, f)
  {
    Ids.TargetsAfterDelete(rel, u, f);
  }

  class UserDbStorage {
    /** The `users` table, by `user_id`. */
    var users: map<int, User>
    /** The `friends` table. */
    var friendships: FriendTable
    /** The next value of the identity column. */
    var nextKey: int

    /** Rows carry their own key, and every key was issued by the identity
        column, so the next value is fresh. */
    ghost predicate Valid()
      reads this
    {
      && UsersKeyed(users)
      && nextKey >= 1
      && forall k :: k in users ==> k < nextKey
    }

    constructor ()
      ensures Valid() && users == map[] && friendships == {} && nextKey == 1
    {
      users := map[];
      friendships := {};
      nextKey := 1;
    }

    /** `userById`: the stored row, or NotFound. */
    function UserById(id: int): (r: Result<User>)
      reads this
      ensures r.Ok? <==> id in users
      ensures r.Ok? ==> r.value == users[id]
      ensures r.Err? ==> r.error == NotFound
    {
      if id in users then Ok(users[id]) else Err(NotFound)
    }

    /** `validateUserExists`: `COUNT(*)` of the id's rows must be positive (a
        null id matches no row); then the row as `userById` reads it. */
    function ValidateUserExists(id: Option<int>): (r: Result<User>)
      reads this
      ensures r.Ok? <==> id.Some? && id.value in users
      ensures r.Ok? ==> r == UserById(id.value)
      ensures r.Err? ==> r.error == NotFound
    {
      if id.None? || id.value !in users then Err(NotFound) else UserById(id.value)
    }

    /** `create`: the name default, then the insert. A null birthday makes
        `Date.valueOf` throw before the insert runs. The new row's key is the
        identity column's next value, which no stored row has. */
    method Create(user: User) returns (r: Result<User>)
      requires Valid()
      modifies this
      ensures Valid()
      ensures friendships == old(friendships)
      ensures user.birthday.None? ==>
        r == Err(NullReference) && users == old(users) && nextKey == old(nextKey)
      ensures user.birthday.Some? ==>
        var k := old(nextKey);
        && k !in old(users)
        && r == Ok(NamedForInsert(user).(id := Some(k)))
        && users == old(users)[k := r.value]
        && nextKey == k + 1
    {
      var named := NamedForInsert(user);
      if named.birthday.None? {
        return Err(NullReference);
      }
      var key := nextKey;
      nextKey := nextKey + 1;
      var created := named.(id := Some(key));
      users := users[key := created];
      return Ok(created);
    }

    /** `update`: NotFound for a null or unknown id; otherwise the row is
        overwritten with every field of `user`, nulls included. */
    method Update(user: User) returns (r: Result<User>)
      requires Valid()
      modifies this
      ensures Valid()
      ensures friendships == old(friendships) && nextKey == old(nextKey)
      ensures r.Ok? <==> user.id.Some? && user.id.value in old(users)
      ensures r.Err? ==> r.error == NotFound && users == old(users)
      ensures r.Ok? ==> r.value == user && users == old(users)[user.id.value := user]
    {
      var existing := ValidateUserExists(user.id);
      if existing.Err? {
        return Err(existing.error);
      }
      users := users[user.id.value := user];
      return Ok(user);
    }

    /** `remove`: NotFound for an unknown id; otherwise that row is deleted.
        The friends rows that name it stay; the JOINs of the friend queries
        no longer match them. */
    method Remove(id: int) returns (r: Result<string>)
      requires Valid()
      modifies this
      ensures Valid()
      ensures friendships == old(friendships) && nextKey == old(nextKey)
      ensures r.Ok? <==> id in old(users)
      ensures r.Err? ==> r.error == NotFound && users == old(users)
      ensures r.Ok? ==> r.value == RemovedMessage && users == old(users) - {id}
    {
      var existing := ValidateUserExists(Some(id));
      if existing.Err? {
        return Err(existing.error);
      }
      users := users - {id};
      return Ok(RemovedMessage);
    }

    /** `addFriend`: NotFound if the user, then the friend, is unknown;
        IllegalArgumentException for a self-friendship; otherwise the one
        directed pair is inserted unless already present. */
    method AddFriend(userId: int, friendId: int) returns (r: Result<()>)
      requires Valid()
      modifies this
      ensures Valid()
      ensures users == old(users) && nextKey == old(nextKey)
      ensures userId !in users || friendId !in users ==>
        r == Err(NotFound) && friendships == old(friendships)
      ensures userId in users && friendId in users && userId == friendId ==>
        r == Err(IllegalArgument) && friendships == old(friendships)
      ensures userId in users && friendId in users && userId != friendId ==>
        r == Ok(()) && friendships == old(friendships) + {(userId, friendId)}
      ensures (userId, friendId) in old(friendships) ==> friendships == old(friendships)
    {
      var checkUser := ValidateUserExists(Some(userId));
      if checkUser.Err? {
        return Err(checkUser.error);
      }
      var checkFriend := ValidateUserExists(Some(friendId));
      if checkFriend.Err? {
        return Err(checkFriend.error);
      }
      if userId == friendId {
        return Err(IllegalArgument);
      }
      if (userId, friendId) !in friendships {
        friendships := friendships + {(userId, friendId)};
      }
      return Ok(());
    }

    /** `removeFriend`: NotFound if either user is unknown; otherwise the one
        directed pair is deleted, which is a no-op when it is absent. */
    method RemoveFriend(userId: int, friendId: int) returns (r: Result<()>)
      requires Valid()
      modifies this
      ensures Valid()
      ensures users == old(users) && nextKey == old(nextKey)
      ensures userId !in users || friendId !in users ==>
        r == Err(NotFound) && friendships == old(friendships)
      ensures userId in users && friendId in users ==>
        r == Ok(()) && friendships == old(friendships) - {(userId, friendId)}
      ensures (userId, friendId) !in old(friendships) ==> friendships == old(friendships)
    {
      var checkUser := ValidateUserExists(Some(userId));
      if checkUser.Err? {
        return Err(checkUser.error);
      }
      var checkFriend := ValidateUserExists(Some(friendId));
      if checkFriend.Err? {
        return Err(checkFriend.error);
      }
      friendships := friendships - {(userId, friendId)};
      return Ok(());
    }

    /** `getFriends`: NotFound for an unknown user; otherwise the stored users
        that `userId` lists as friends. */
    function GetFriends(userId: int): (r: Result<set<User>>)
      reads this
      ensures r.Ok? <==> userId in users
      ensures r.Err? ==> r.error == NotFound
      ensures r.Ok? && Valid() ==> IdsOf(r.value) == FriendIds(friendships, userId) * users.Keys
      ensures r.Ok? && FriendIds(friendships, userId) == {} ==> r.value == {}
    {
      if userId !in users then Err(NotFound)
      else
        FriendRowsIds(users, friendships, userId);
        Ok(FriendRows(users, friendships, userId))
    }

    /** `getCommonFriends`: NotFound if either user is unknown; otherwise the
        users that both list as friends, the same for either order. */
    function GetCommonFriends(userId: int, otherId: int): (r: Result<set<User>>)
      reads this
      ensures r.Ok? <==> userId in users && otherId in users
      ensures r.Err? ==> r.error == NotFound
      ensures r.Ok? && Valid() ==> r.value == GetFriends(userId).value * GetFriends(otherId).value
    {
      if userId !in users || otherId !in users then Err(NotFound)
      else
        CommonIsIntersection(users, friendships, userId, otherId);
        Ok(CommonRows(users, friendships, userId, otherId))
    }

    /** Common friends do not depend on the order of the two users. */
    lemma CommonFriendsCommute(userId: int, otherId: int)
      ensures GetCommonFriends(userId, otherId) == GetCommonFriends(otherId, userId)
    {
      CommonIsIntersection(users, friendships, userId, otherId);
    }
  }
}
