/**
 * The two user-table operations of the authentication service
 * (src/libs/services/auth/impl/AuthServiceBase.cpp): find-or-create a user
 * by login name, the first user of an empty table becoming administrator,
 * and stamping the last-login time of an authenticated user. Each operation
 * runs as one write transaction; the current time is a parameter.
 */
module AuthService {
  import opened Dbo

  type UserId = nat

  /** A wall-clock instant, supplied by the caller. */
  type Time = nat

  datatype UserType = Admin | Regular

  /** A row of the user table; `lastLogin` is null until the first authentication. */
  datatype User = User(id: UserId, loginName: string, userType: UserType, lastLogin: Option<Time>)

  /** The primary-key column of the user table. */
  function UserIdOf(u: User): UserId {
    u.id
  }

  /** The login-name column, unique in the user table. */
  function LoginNameOf(u: User): string {
    u.loginName
  }

  /** `User::find(session, loginName)`: the user with that login name, or a null pointer. */
  function FindByLogin(users: seq<User>, loginName: string): (p: Pointer<User>)
    ensures UniqueKeys(users, LoginNameOf) ==> !p.NoUniqueResult?
    ensures p.Null? <==> forall u :: u in users ==> u.loginName != loginName
    ensures p.Ptr? ==> p.value in users && p.value.loginName == loginName
  {
    var p := Find(users, KeyIs(LoginNameOf, loginName));
    assert p.Null? ==> forall u :: u in users ==> u.loginName != loginName by {
      if p.Null? {
        forall u | u in users ensures u.loginName != loginName {
          var i :| 0 <= i < |users| && users[i] == u;
          assert !KeyIs(LoginNameOf, loginName)(users[i]);
          assert LoginNameOf(users[i]) == users[i].loginName;
        }
      }
    }
    p
  }

  /** `User::find(session, userId)`: the user with that id, or a null pointer. */
  function FindById(users: seq<User>, id: UserId): (p: Pointer<User>)
    ensures UniqueKeys(users, UserIdOf) ==> !p.NoUniqueResult?
    ensures p.Null? <==> forall u :: u in users ==> u.id != id
    ensures p.Ptr? ==> p.value in users && p.value.id == id
  {
    var p := Find(users, KeyIs(UserIdOf, id));
    assert p.Null? ==> forall u :: u in users ==> u.id != id by {
      if p.Null? {
        forall u | u in users ensures u.id != id {
          var i :| 0 <= i < |users| && users[i] == u;
          assert !KeyIs(UserIdOf, id)(users[i]);
          assert UserIdOf(users[i]) == users[i].id;
        }
      }
    }
    p
  }

  /** The type `getOrCreateUser` gives a new user: administrator exactly when the table is empty. */
  function NewUserType(userCount: nat): (t: UserType)
    ensures t == Admin <==> userCount == 0
  {
    if userCount == 0 then Admin else Regular
  }

  /** The user table of one store and the id it hands to the next created row. */
  class UserTable {
    var users: seq<User>
    var nextUserId: UserId

    ghost predicate Valid()
      reads this
    {
      && UniqueKeys(users, UserIdOf)
      && UniqueKeys(users, LoginNameOf)
      && (forall u :: u in users ==> u.id < nextUserId)
    }

    /** Opens a store holding the given user table. */
    constructor (users: seq<User>, nextUserId: UserId)
      requires UniqueKeys(users, UserIdOf) && UniqueKeys(users, LoginNameOf)
      requires forall u :: u in users ==> u.id < nextUserId
      ensures Valid()
      ensures this.users == users && this.nextUserId == nextUserId
    {
      this.users := users;
      this.nextUserId := nextUserId;
    }

    /**
     * `getOrCreateUser(loginName)`: the id of the user with that login
     * name, creating the user first when there is none.
     */
    method GetOrCreateUser(loginName: string) returns (id: UserId)
      requires Valid()
      modifies this
      ensures Valid()
      ensures old(FindByLogin(users, loginName)).Ptr? ==>
                && id == old(FindByLogin(users, loginName)).value.id
                && users == old(users) && nextUserId == old(nextUserId)
      ensures old(FindByLogin(users, loginName)).Null? ==>
                && id == old(nextUserId)
                && (forall u :: u in old(users) ==> u.id != id)
                && users == old(users) + [User(id, loginName, NewUserType(|old(users)|), None)]
                && nextUserId == old(nextUserId) + 1
      ensures FindByLogin(users, loginName).Ptr? && FindByLogin(users, loginName).value.id == id
      ensures |old(users)| <= |users| <= |old(users)| + 1
    {
      var user := FindByLogin(users, loginName);
      if user.Null? {
        var userType := NewUserType(|users|);
        var created := User(nextUserId, loginName, userType, None);
        users := users + [created];
        nextUserId := nextUserId + 1;
        id := created.id;
        assert users[|users| - 1] == created;
      } else {
        id := user.value.id;
      }
    }

    /**
     * `onUserAuthenticated(userId)`: stamps the user's last login with `now`;
     * an unknown id changes nothing.
     */
    method OnUserAuthenticated(userId: UserId, now: Time)
      requires Valid()
      modifies this
      ensures Valid()
      ensures nextUserId == old(nextUserId)
      ensures |users| == |old(users)|
      ensures forall i :: 0 <= i < |users| ==>
                users[i] == if old(users[i].id) == userId then old(users[i]).(lastLogin := Some(now)) else old(users[i])
      ensures old(FindById(users, userId)).Null? ==> users == old(users)
      ensures old(FindById(users, userId)).Ptr? ==>
                FindById(users, userId) == Ptr(old(FindById(users, userId)).value.(lastLogin := Some(now)))
    {
      var user := FindById(users, userId);
      if user.Ptr? {
        var i :| 0 <= i < |users| && users[i] == user.value;
        var stamped := user.value.(lastLogin := Some(now));
        users := users[i := stamped];
        assert users[i] == stamped;
      }
    }
  }
}
