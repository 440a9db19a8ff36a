/** UserService: lookups by id and by username, and create, update and delete against the
    user table. The service refuses a username or email that another user already holds,
    so the table never holds two users with the same username or the same email. */
module UserService {
  import opened Wrappers
  import opened Users
  import opened Errors
  import opened UserRepository

  /** No two users share a username or an email. */
  predicate UniqueLogins(users: seq<User>) {
    forall i, j :: 0 <= i < j < |users| ==>
      users[i].username != users[j].username && users[i].email != users[j].email
  }

  /** `getUserById`. */
  function GetUserById(users: seq<User>, id: UserId): (r: Result<User, Error>)
    ensures r.Ok? <==> exists u :: u in users && u.id == id
    ensures r.Ok? ==> r.value in users && r.value.id == id
    ensures r.Err? ==> r.error == UserNotFound(id)
  {
    match FindById(users, id)
    case None => Err(UserNotFound(id))
    case Some(u) => Ok(u)
  }

  /** `getUserByUsername`. */
  function GetUserByUsername(users: seq<User>, username: string): (r: Result<User, Error>)
    ensures r.Ok? <==> ExistsByUsername(users, username)
    ensures r.Ok? ==> r.value in users && r.value.username == username
    ensures r.Err? ==> r.error == UsernameNotFound(username)
  {
    match FindByUsername(users, username)
    case None => Err(UsernameNotFound(username))
    case Some(u) => Ok(u)
  }

  /** With unique usernames the lookup by username finds the one user holding it, and that
      user's id leads back to the same user. */
  lemma UsernameIdentifiesUser(users: seq<User>, u: User)
    requires IdsAscending(users) && UniqueLogins(users)
    requires u in users
    ensures GetUserByUsername(users, u.username) == Ok(u)
    ensures GetUserById(users, u.id) == Ok(u)
  {
    var v := GetUserByUsername(users, u.username).value;
    var i :| 0 <= i < |users| && users[i] == u;
    var j :| 0 <= j < |users| && users[j] == v;
    assert i == j;
    var w := GetUserById(users, u.id).value;
    var k :| 0 <= k < |users| && users[k] == w;
    assert i == k;
  }

  /** The user table, the IDENTITY counter and the password encoder. */
  class UserStore {
    /** The users table in primary-key order. */
    var users: seq<User>
    /** The next value of the IDENTITY column. */
    var nextId: UserId
    /** `passwordEncoder.encode`; its hashing is not modelled. */
    const encode: string -> string

    /** Primary key, fresh ids above every stored one, unique usernames and emails. */
    ghost predicate Valid()
      reads this
    {
      && IdsAscending(users)
      && (forall i :: 0 <= i < |users| ==> users[i].id < nextId)
      && UniqueLogins(users)
    }

    constructor (encode: string -> string)
      ensures Valid() && users == [] && nextId == 1 && this.encode == encode
    {
      users := [];
      nextId := 1;
      this.encode := encode;
    }

    /** `createUser`: the username is checked first, then the email; the stored user gets
        the next id and the encoded password. */
    method CreateUser(details: UserDetails) returns (r: Result<User, Error>)
      requires Valid()
      modifies this
      ensures Valid()
      ensures ExistsByUsername(old(users), details.username) ==>
        r == Err(DuplicateResource("username", details.username))
        && users == old(users) && nextId == old(nextId)
      ensures !ExistsByUsername(old(users), details.username) && ExistsByEmail(old(users), details.email) ==>
        r == Err(DuplicateResource("email", details.email))
        && users == old(users) && nextId == old(nextId)
      ensures !ExistsByUsername(old(users), details.username) && !ExistsByEmail(old(users), details.email) ==>
        var u := User(old(nextId), details.username, details.email, encode(details.password),
                      details.firstName, details.lastName);
        r == Ok(u) && users == old(users) + [u] && nextId == old(nextId) + 1
    {
      if ExistsByUsername(users, details.username) {
        return Err(DuplicateResource("username", details.username));
      }
      if ExistsByEmail(users, details.email) {
        return Err(DuplicateResource("email", details.email));
      }
      var u := User(nextId, details.username, details.email, encode(details.password),
                    details.firstName, details.lastName);
      ghost var before := users;
      users := users + [u];
      nextId := nextId + 1;
      forall i, j | 0 <= i < j < |users|
        ensures users[i].username != users[j].username && users[i].email != users[j].email
      {
        if j == |before| {
          assert users[i] in before;
        }
      }
      r := Ok(u);
    }

    /** `updateUser`: a username or email that changes must not be held by any user; the
        four profile fields are overwritten and the password only when a new one is given.
        The id and every other user stay as they were. */
    method UpdateUser(id: UserId, details: UserDetails) returns (r: Result<User, Error>)
      requires Valid()
      modifies this
      ensures Valid() && nextId == old(nextId)
      ensures IndexOf(old(users), id).None? ==> r == Err(UserNotFound(id)) && users == old(users)
      ensures IndexOf(old(users), id).Some? ==>
        var i := IndexOf(old(users), id).value;
        var u := old(users)[i];
        if u.username != details.username && ExistsByUsername(old(users), details.username) then
          r == Err(DuplicateResource("username", details.username)) && users == old(users)
        else if u.email != details.email && ExistsByEmail(old(users), details.email) then
          r == Err(DuplicateResource("email", details.email)) && users == old(users)
        else
          var updated := User(id, details.username, details.email,
                              if details.password == "" then u.password else encode(details.password),
                              details.firstName, details.lastName);
          r == Ok(updated) && users == old(users)[i := updated]
    {
      var found := IndexOf(users, id);
      if found.None? {
        return Err(UserNotFound(id));
      }
      var i := found.value;
      var u := users[i];
      if u.username != details.username && ExistsByUsername(users, details.username) {
        return Err(DuplicateResource("username", details.username));
      }
      if u.email != details.email && ExistsByEmail(users, details.email) {
        return Err(DuplicateResource("email", details.email));
      }
      var password := if details.password == "" then u.password else encode(details.password);
      var updated := User(id, details.username, details.email, password, details.firstName, details.lastName);
      ghost var before := users;
      users := users[i := updated];
      forall a, b | 0 <= a < b < |users|
        ensures users[a].username != users[b].username && users[a].email != users[b].email
      {
        if a == i {
          assert before[b] in before;
        } else if b == i {
          assert before[a] in before;
        }
      }
      r := Ok(updated);
    }

    /** `deleteUser`: exactly the user with that id is removed. */
    method DeleteUser(id: UserId) returns (r: Result<(), Error>)
      requires Valid()
      modifies this
      ensures Valid() && nextId == old(nextId)
      ensures IndexOf(old(users), id).None? ==> r == Err(UserNotFound(id)) && users == old(users)
      ensures IndexOf(old(users), id).Some? ==>
        var i := IndexOf(old(users), id).value;
        r == Ok(()) && users == old(users)[..i] + old(users)[i + 1..]
      ensures r.Ok? ==>
        && |users| == |old(users)| - 1
        && forall u :: u in users <==> u in old(users) && u.id != id
    {
      var found := IndexOf(users, id);
      if found.None? {
        return Err(UserNotFound(id));
      }
      var i := found.value;
      ghost var before := users;
      users := users[..i] + users[i + 1..];
      RemoveUser(before, i);
      r := Ok(());
    }
  }

  /** Cutting one user out of the table keeps the key order and the unique logins and
      removes exactly the users with that user's id. */
  lemma RemoveUser(users: seq<User>, i: nat)
    requires IdsAscending(users) && UniqueLogins(users) && i < |users|
    ensures IdsAscending(users[..i] + users[i + 1..])
    ensures UniqueLogins(users[..i] + users[i + 1..])
    ensures forall u :: u in users[..i] + users[i + 1..] <==> u in users && u.id != users[i].id
  {
    var after := users[..i] + users[i + 1..];
    assert forall k :: 0 <= k < |after| ==> after[k] == users[if k < i then k else k + 1];
    forall u | u in users && u.id != users[i].id
      ensures u in after
    {
      var k :| 0 <= k < |users| && users[k] == u;
      assert after[if k < i then k else k - 1] == u;
    }
  }
}
