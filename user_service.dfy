/** `UserService`: the friendship relation kept in the service's own
    `Map<Integer, Set<Integer>>`, maintained in both directions. */
module UserService {
  import opened Common
  import opened Model

  /** What the service sees of its user storage: the stored users and the
      exception that storage's `validateUserExists` and `userById` throw for
      an unknown id (ValidationException for `InMemoryUserStorage`,
      NotFoundException for `UserDbStorage`). */
  datatype UserDirectory = UserDirectory(users: map<int, User>, missing: Error)

  /** The friends map: user id to the ids of that user's friends. */
  type FriendMap = map<int, set<int>>

  /** `friends.getOrDefault(id, Collections.emptySet())`. */
  function FriendsOf(m: FriendMap, id: int): set<int>
  {
    if id in m then m[id] else {}
  }

  /** Friendship is mutual: `b` is listed under `a` exactly when `a` is
      listed under `b`. */
  ghost predicate Symmetric(m: FriendMap)
  {
    forall a, b :: a in m && b in m[a] ==> b in m && a in m[b]
  }

  /** Nobody is their own friend. */
  ghost predicate Irreflexive(m: FriendMap)
  {
    forall a :: a in m ==> a !in m[a]
  }

  /** The map with `a` and `b` made friends: both get an entry, `b` joins
      `a`'s set and `a` joins `b`'s; every other entry is as in `m`. */
  function Linked(m: FriendMap, a: int, b: int): FriendMap
  {
    map x | x in m.Keys + {a, b} ::
      FriendsOf(m, x) + (if x == a then {b} else {}) + (if x == b then {a} else {})
  }

  /** The map with the friendship of `a` and `b` dissolved in both
      directions; keys are kept (a set may become empty). */
  function Unlinked(m: FriendMap, a: int, b: int): FriendMap
  {
    map x | x in m :: m[x] - (if x == a then {b} else {}) - (if x == b then {a} else {})
  }

  /** `putIfAbsent(k, new HashSet<>())`: an empty entry for `k` unless it
      already has one. */
  function PutIfAbsent(m: FriendMap, k: int): (r: FriendMap)
    ensures r.Keys == m.Keys + {k}
    ensures forall x :: x in r ==> r[x] == FriendsOf(m, x)
  {
    if k in m then m else m[k := {}]
  }

  /** The four steps of `addFriend` (two `putIfAbsent`s, then an `add` into
      each of the two sets) build exactly `Linked`. */
  lemma AddStepsLink(m: FriendMap, a: int, b: int)
    requires a != b
    ensures
      var e := PutIfAbsent(PutIfAbsent(m, a), b);
      var e1 := e[a := e[a] + {b}];
      e1[b := e1[b] + {a}] == Linked(m, a, b)
  {
    var e := PutIfAbsent(PutIfAbsent(m, a), b);
    var e1 := e[a := e[a] + {b}];
    var f := e1[b := e1[b] + {a}];
    var l := Linked(m, a, b);
    assert f.Keys == l.Keys;
    forall x | x in f ensures f[x] == l[x] {
      assert e[x] == FriendsOf(m, x);
    }
  }

  /** Adding a friendship keeps the relation mutual and irreflexive. */
  lemma LinkedKeepsInvariant(m: FriendMap, a: int, b: int)
    requires Symmetric(m) && Irreflexive(m) && a != b
    ensures Symmetric(Linked(m, a, b)) && Irreflexive(Linked(m, a, b))
  {
    var l := Linked(m, a, b);
    forall x, y | x in l && y in l[x] ensures y in l && x in l[y] {
      if y in FriendsOf(m, x) {
        assert x in m && y in m[x];
        assert x in FriendsOf(m, y);
      }
    }
  }

  /** After adding, each of the two is in the other's set. */
  lemma LinkedBothWays(m: FriendMap, a: int, b: int)
    ensures b in FriendsOf(Linked(m, a, b), a) && a in FriendsOf(Linked(m, a, b), b)
  {
  }

  /** Adding a friendship that is already there changes nothing. */
  lemma LinkedIdempotent(m: FriendMap, a: int, b: int)
    ensures Linked(Linked(m, a, b), a, b) == Linked(m, a, b)
  {
    var l := Linked(m, a, b);
    var ll := Linked(l, a, b);
    assert ll.Keys == l.Keys;
    forall x | x in ll ensures ll[x] == l[x] {
      assert FriendsOf(l, x) == l[x];
    }
  }

  /** Removing a friendship keeps the relation mutual and irreflexive and
      leaves neither direction in place. */
  lemma UnlinkedProperties(m: FriendMap, a: int, b: int)
    requires Symmetric(m) && Irreflexive(m)
    ensures Symmetric(Unlinked(m, a, b)) && Irreflexive(Unlinked(m, a, b))
    ensures b !in FriendsOf(Unlinked(m, a, b), a) && a !in FriendsOf(Unlinked(m, a, b), b)
  {
    var u := Unlinked(m, a, b);
    forall x, y | x in u && y in u[x] ensures y in u && x in u[y] {
      assert y in m[x];
    }
  }

  /** Removing a friendship that does not exist leaves the map as it was. */
  lemma UnlinkAbsentIsNoop(m: FriendMap, a: int, b: int)
    requires Symmetric(m)
    requires b !in FriendsOf(m, a)
    ensures Unlinked(m, a, b) == m
  {
    var u := Unlinked(m, a, b);
    forall x | x in m ensures u[x] == m[x] {
    }
  }

  /** The users behind a set of ids, resolved one by one with `userById`;
      the storage's "missing" exception if any id is unknown. */
  function Resolve(dir: UserDirectory, ids: set<int>): (r: Result<set<User>>)
    ensures r.Ok? <==> ids <= dir.users.Keys
    ensures r.Err? ==> r.error == dir.missing
    ensures r.Ok? ==> forall u :: u in r.value <==> exists id :: id in ids && id in dir.users && u == dir.users[id]
    ensures ids == {} ==> r == Ok({})
  {
    if ids <= dir.users.Keys then
      var users := set id | id in ids && id in dir.users :: dir.users[id];
      assert ids == {} ==> users == {};
      Ok(users)
    else Err(dir.missing)
  }

  /** With users stored under their own ids, the resolved users' ids are
      exactly the requested ids. */
  lemma ResolvedIds(dir: UserDirectory, ids: set<int>)
    requires UsersKeyed(dir.users)
    requires Resolve(dir, ids).Ok?
    ensures (set u | u in Resolve(dir, ids).value && u.id.Some? :: u.id.value) == ids
  {
    var users := Resolve(dir, ids).value;
    forall id | id in ids ensures id in (set u | u in users && u.id.Some? :: u.id.value) {
      assert dir.users[id] in users;
    }
  }

  class UserService {
    /** The `friends` hash map. */
    var friends: FriendMap

    ghost predicate Valid()
      reads this
    {
      Symmetric(friends) && Irreflexive(friends)
    }

    constructor ()
      ensures Valid() && friends == map[]
    {
      friends := map[];
    }

    /** `addFriend`: both ids are checked against the storage first (user,
        then friend), then self-friendship is refused; on success both
        directions are recorded. Every error path leaves the map unchanged. */
    method AddFriend(dir: UserDirectory, userId: int, friendId: int) returns (r: Result<()>)
      requires Valid()
      modifies this
      ensures Valid()
      ensures userId !in dir.users || friendId !in dir.users ==>
        r == Err(dir.missing) && friends == old(friends)
      ensures userId in dir.users && friendId in dir.users && userId == friendId ==>
        r == Err(Validation) && friends == old(friends)
      ensures userId in dir.users && friendId in dir.users && userId != friendId ==>
        r == Ok(()) && friends == Linked(old(friends), userId, friendId)
    {
      if userId !in dir.users || friendId !in dir.users {
        return Err(dir.missing);
      }
      if userId == friendId {
        return Err(Validation);
      }
      ghost var before := friends;
      friends := PutIfAbsent(friends, userId);
      friends := PutIfAbsent(friends, friendId);
      friends := friends[userId := friends[userId] + {friendId}];
      friends := friends[friendId := friends[friendId] + {userId}];
      AddStepsLink(before, userId, friendId);
      LinkedKeepsInvariant(before, userId, friendId);
      return Ok(());
    }

    /** `removeFriend`: both ids are checked against the storage; if the two
        are friends both directions are dropped, otherwise nothing changes
        and no error is raised. Under the mutual invariant the lookup of the
        friend's own set never misses. */
    method RemoveFriend(dir: UserDirectory, userId: int, friendId: int) returns (r: Result<()>)
      requires Valid()
      modifies this
      ensures Valid()
      ensures userId !in dir.users || friendId !in dir.users ==>
        r == Err(dir.missing) && friends == old(friends)
      ensures userId in dir.users && friendId in dir.users ==>
        r == Ok(()) && friends == Unlinked(old(friends), userId, friendId)
      ensures friendId !in FriendsOf(old(friends), userId) ==> friends == old(friends)
    {
      if userId !in dir.users || friendId !in dir.users {
        return Err(dir.missing);
      }
      ghost var before := friends;
      UnlinkedProperties(before, userId, friendId);
      if userId in friends && friendId in friends[userId] {
        friends := friends[userId := friends[userId] - {friendId}];
        friends := friends[friendId := friends[friendId] - {userId}];
        ghost var expected := Unlinked(before, userId, friendId);
        assert friends.Keys == expected.Keys;
        forall x | x in friends ensures friends[x] == expected[x] {
        }
      } else {
        UnlinkAbsentIsNoop(before, userId, friendId);
      }
      return Ok(());
    }

    /** `getFriends`: the storage's error for an unknown user; otherwise the
        users behind the ids stored for this user (none if the map has no
        entry), each resolved through the storage. */
    function GetFriends(dir: UserDirectory, userId: int): (r: Result<set<User>>)
      reads this
      ensures r.Err? ==> r.error == dir.missing
      ensures r.Ok? <==> userId in dir.users && FriendsOf(friends, userId) <= dir.users.Keys
      ensures r.Ok? ==> r == Resolve(dir, FriendsOf(friends, userId))
      ensures userId in dir.users && userId !in friends ==> r == Ok({})
    {
      if userId !in dir.users then Err(dir.missing)
      else Resolve(dir, FriendsOf(friends, userId))
    }

    /** `getCommonFriends`: both ids are checked; the result is the users
        behind the intersection of the two stored sets, computed on a copy
        so the stored sets are left alone. */
    function GetCommonFriends(dir: UserDirectory, userId1: int, userId2: int): (r: Result<set<User>>)
      reads this
      ensures r.Err? ==> r.error == dir.missing
      ensures r.Ok? <==>
        userId1 in dir.users && userId2 in dir.users &&
        FriendsOf(friends, userId1) * FriendsOf(friends, userId2) <= dir.users.Keys
      ensures r.Ok? ==> r == Resolve(dir, FriendsOf(friends, userId1) * FriendsOf(friends, userId2))
    {
      if userId1 !in dir.users || userId2 !in dir.users then Err(dir.missing)
      else Resolve(dir, FriendsOf(friends, userId1) * FriendsOf(friends, userId2))
    }

    /** Common friends do not depend on the order of the two users. */
    lemma CommonFriendsCommute(dir: UserDirectory, a: int, b: int)
      ensures GetCommonFriends(dir, a, b) == GetCommonFriends(dir, b, a)
    {
      assert FriendsOf(friends, a) * FriendsOf(friends, b) == FriendsOf(friends, b) * FriendsOf(friends, a);
    }
  }
}
