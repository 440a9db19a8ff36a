/** The user table and its Spring Data lookups. The table is a sequence of users in
    primary-key order; nothing here changes it. */
module UserRepository {
  import opened Wrappers
  import opened Users

  /** The primary key: ids strictly increase along the table. */
  predicate IdsAscending(users: seq<User>) {
    forall i, j :: 0 <= i < j < |users| ==> users[i].id < users[j].id
  }

  /** Position of the user whose primary key is `id`. */
  function IndexOf(users: seq<User>, id: UserId): (r: Option<nat>)
    ensures r.Some? ==> r.value < |users| && users[r.value].id == id
    ensures r.None? <==> forall i :: 0 <= i < |users| ==> users[i].id != id
  {
    if users == [] then None
    else if users[0].id == id then Some(0)
    else match IndexOf(users[1..], id)
      case None => None
      case Some(k) => Some(k + 1)
  }

  /** `findById`: the user with that primary key, if any. */
  function FindById(users: seq<User>, id: UserId): (r: Option<User>)
    ensures r.Some? ==> r.value in users && r.value.id == id
    ensures r.None? <==> forall u :: u in users ==> u.id != id
  {
    match IndexOf(users, id)
    case None => None
    case Some(i) => Some(users[i])
  }

  /** `existsByUsername`. */
  predicate ExistsByUsername(users: seq<User>, username: string) {
    exists u :: u in users && u.username == username
  }

  /** `existsByEmail`. */
  predicate ExistsByEmail(users: seq<User>, email: string) {
    exists u :: u in users && u.email == email
  }

  /** `findByUsername`: a user holding that username, empty exactly when none exists. */
  function FindByUsername(users: seq<User>, username: string): (r: Option<User>)
    ensures r.Some? ==> r.value in users && r.value.username == username
    ensures r.None? <==> !ExistsByUsername(users, username)
  {
    if users == [] then None
    else if users[0].username == username then Some(users[0])
    else
      assert users == [users[0]] + users[1..];
      FindByUsername(users[1..], username)
  }

  /** `findByEmail`: a user holding that email, empty exactly when none exists. */
  function FindByEmail(users: seq<User>, email: string): (r: Option<User>)
    ensures r.Some? ==> r.value in users && r.value.email == email
    ensures r.None? <==> !ExistsByEmail(users, email)
  {
    if users == [] then None
    else if users[0].email == email then Some(users[0])
    else
      assert users == [users[0]] + users[1..];
      FindByEmail(users[1..], email)
  }
}
