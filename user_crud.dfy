/** Registration and login of app/crud/user_crud.py. Password hashing, its
    verification and the configured admin secret live in `app.auth`, which is
    not part of this model: they are parameters here. */
module UserCrud {
  import opened Common
  import opened Store

  /** A validated `UserCreate`; `role` defaults to `user`. */
  datatype UserCreate = UserCreate(
    username: string,
    email: string,
    password: string,
    role: Role,
    adminSecretCode: Option<string>)

  const BadAdminCode := ValueError("Invalid admin secret code")

  /** `get_user`: the first user with that username, or None. */
  function GetUser(users: seq<User>, username: string): (r: Option<User>)
    ensures r.None? <==> forall u :: u in users ==> u.username != username
    ensures r.Some? ==> r.value in users && r.value.username == username
  {
    if |users| == 0 then None
    else if users[0].username == username then Some(users[0])
    else
      assert users == [users[0]] + users[1..];
      GetUser(users[1..], username)
  }

  /** The admin gate of `create_user`: only the admin role is checked, and it
      passes only when the code given equals the configured secret (an absent
      code never equals a configured one). */
  function AdminGate(role: Role, code: Option<string>, secret: Option<string>): (r: Outcome)
    ensures r.Fail? <==> role == AdminRole && code != secret
    ensures r.Fail? ==> r.error == BadAdminCode
  {
    if role == AdminRole && code != secret then Fail(BadAdminCode) else Pass
  }

  /** The row `create_user` inserts: the password as hashed, never disabled. */
  function NewUserRow(id: int, user: UserCreate, hash: string -> string): (r: User)
    ensures r.id == id && r.username == user.username && r.email == user.email
    ensures r.password == hash(user.password) && r.role == user.role && !r.disabled
  {
    User(id, user.username, user.email, hash(user.password), user.role, false)
  }

  /** `create_user`: a failed admin gate raises before anything is touched;
      otherwise the row is inserted, drawing an id, and the unique indexes on
      `username` and `email` reject a name or address already taken. */
  method CreateUser(db: Database, user: UserCreate, secret: Option<string>, hash: string -> string)
    returns (r: Result<User>)
    requires db.Valid()
    modifies db
    ensures db.Valid()
    ensures AdminGate(user.role, user.adminSecretCode, secret).Fail? ==>
              r == Err(BadAdminCode) && db.Snapshot() == old(db.Snapshot())
    ensures AdminGate(user.role, user.adminSecretCode, secret).Pass? ==>
              var taken := exists v :: v in old(db.users)
                                       && (v.username == user.username || v.email == user.email);
              && (r.Err? <==> taken)
              && (r.Err? ==> r.error.IntegrityError?
                             && db.Snapshot() == old(db.Snapshot()).(nextUserId := old(db.nextUserId) + 1))
              && (r.Ok? ==> r.value == NewUserRow(old(db.nextUserId), user, hash)
                            && db.Snapshot() == old(db.Snapshot()).(users := old(db.users) + [r.value],
                                                                     nextUserId := old(db.nextUserId) + 1))
  {
    var gate := AdminGate(user.role, user.adminSecretCode, secret);
    if gate.Fail? {
      return Err(gate.error);
    }
    ghost var before := db.Snapshot();
    var row := NewUserRow(db.nextUserId, user, hash);
    db.nextUserId := db.nextUserId + 1;
    assert db.Snapshot() == before.(nextUserId := before.nextUserId + 1);
    if exists v :: v in db.users && v.username == user.username {
      return Err(IntegrityError("ix_users_username"));
    }
    if exists v :: v in db.users && v.email == user.email {
      return Err(IntegrityError("ix_users_email"));
    }
    AddUserKeeps(before, row);
    db.users := db.users + [row];
    r := Ok(row);
  }

  /** `authenticate_user`: the user when it exists and the password verifies
      against the stored hash, None (`False`) otherwise. Disabled users are not
      refused here. */
  function AuthenticateUser(users: seq<User>, username: string, password: string,
                            verify: (string, string) -> bool)
    : (r: Option<User>)
    ensures r.None? <==> GetUser(users, username).None?
                         || !verify(password, GetUser(users, username).value.password)
    ensures r.Some? ==> r.value in users && r.value.username == username
                        && verify(password, r.value.password)
  {
    match GetUser(users, username)
    case None => None
    case Some(u) => if verify(password, u.password) then Some(u) else None
  }

  /** An appended user is found by its name when no earlier user has it. */
  lemma {:induction false} GetUserAppended(users: seq<User>, u: User)
    requires forall v :: v in users ==> v.username != u.username
    ensures GetUser(users + [u], u.username) == Some(u)
    decreases |users|
  {
    if |users| == 0 {
      assert users + [u] == [u];
    } else {
      assert (users + [u])[1..] == users[1..] + [u];
      GetUserAppended(users[1..], u);
    }
  }

  /** Registration and login agree: once `create_user` has stored a user, that
      user logs in with the password it registered with, whenever verification
      accepts a password against its own hash. */
  lemma RegisteredUserAuthenticates(users: seq<User>, id: int, user: UserCreate,
                                    hash: string -> string, verify: (string, string) -> bool)
    requires forall v :: v in users ==> v.username != user.username
    requires verify(user.password, hash(user.password))
    ensures AuthenticateUser(users + [NewUserRow(id, user, hash)], user.username, user.password, verify)
            == Some(NewUserRow(id, user, hash))
  {
    GetUserAppended(users, NewUserRow(id, user, hash));
  }

  /** A wrong password never logs in: when verification refuses it against
      the stored hash, the answer is None whatever else is stored. */
  lemma WrongPasswordRefused(users: seq<User>, username: string, password: string,
                             verify: (string, string) -> bool)
    requires forall u :: u in users && u.username == username ==> !verify(password, u.password)
    ensures AuthenticateUser(users, username, password, verify).None?
  {
  }
}
