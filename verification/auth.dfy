/** The authentication routes of server.js: register, login, profile update,
    and the start-up seeding of the admin account. Passwords are plain strings
    compared verbatim, as in the source. */
module AuthRoutes {
  import opened Wrappers
  import opened Keyed
  import opened Models
  import opened Http

  /** The account the server seeds at start-up when it is missing. */
  const AdminEmail := "admin@gmail.com"
  const AdminPassword := "Admin@06"

  /** Some stored user has this email. */
  predicate EmailTaken(users: seq<User>, email: string) {
    exists i :: 0 <= i < |users| && users[i].email == email
  }

  /** The number of stored users with this email. */
  function CountEmail(users: seq<User>, email: string): nat
    decreases |users|
  {
    if |users| == 0 then 0
    else (if users[0].email == email then 1 else 0) + CountEmail(users[1..], email)
  }

  /** The login filter `{ email, password }`. */
  function Credentials(u: User): (string, Option<string>) { (u.email, u.password) }

  /** Appending a user with a fresh id and an unused email keeps the store valid. */
  lemma AddUserValid(s: Store, u: User)
    requires u.id == s.nextId
    requires !EmailTaken(s.users, u.email)
    ensures Valid(s) ==> Valid(s.(users := s.users + [u], nextId := s.nextId + 1))
  {
    var users' := s.users + [u];
    assert forall i :: 0 <= i < |s.users| ==> users'[i] == s.users[i];
  }

  /** Rewriting a user in place, keeping its id and email, keeps the store valid. */
  lemma RewriteUserValid(s: Store, i: nat, u: User)
    requires i < |s.users| && u.id == s.users[i].id && u.email == s.users[i].email
    ensures Valid(s) ==> Valid(s.(users := s.users[i := u]))
  {
    var users' := s.users[i := u];
    assert forall j :: 0 <= j < |users'| ==> users'[j].id == s.users[j].id && users'[j].email == s.users[j].email;
    SameIdsFresh(s.users, users', UserIdOf, s.nextId);
  }

  /** POST /api/auth/register: a taken email is refused with 400 and nothing
      changes; otherwise exactly one user is appended, with role "user". */
  function Register(s: Store, name: string, email: string, password: string): (r: (Store, Response))
    ensures EmailTaken(s.users, email) ==> r == (s, BadRequest)
    ensures !EmailTaken(s.users, email) ==>
      && |r.0.users| == |s.users| + 1
      && r.0.users[..|s.users|] == s.users
      && r.0.users[|s.users|].email == email
      && r.0.users[|s.users|].name == Some(name)
      && r.0.users[|s.users|].password == Some(password)
      && r.0.users[|s.users|].role == Some(RoleUser)
      && r.0.users[|s.users|].id == s.nextId
      && r.0.progress == s.progress && r.0.notes == s.notes && r.0.settings == s.settings
      && r.1.status == 201
      && r.1.body == Registered(s.nextId, Some(name), email, Some(RoleUser))
    ensures Valid(s) ==> Valid(r.0)
  {
    match FirstIndex(s.users, EmailOf, email)
    case Some(_) => (s, BadRequest)
    case None =>
      var u := User(s.nextId, Some(name), email, Some(password), Some(RoleUser), None, None);
      var s' := s.(users := s.users + [u], nextId := s.nextId + 1);
      assert s'.users[..|s.users|] == s.users;
      AddUserValid(s, u);
      (s', Response(201, Registered(u.id, u.name, u.email, u.role)))
  }

  /** POST /api/auth/login: succeeds exactly when a stored user has this email
      and this password; the answer describes such a user. Otherwise 401. */
  function Login(s: Store, email: string, password: string): (r: Response)
    ensures r.status == 200 <==>
      exists i :: 0 <= i < |s.users| && s.users[i].email == email && s.users[i].password == Some(password)
    ensures r.status != 200 ==> r == Unauthorized
    ensures r.status == 200 ==>
      exists i :: 0 <= i < |s.users| && s.users[i].email == email && s.users[i].password == Some(password)
                  && r.body == SignedIn(AccountOf(s.users[i]))
  {
    match FirstIndex(s.users, Credentials, (email, Some(password)))
    case None => Unauthorized
    case Some(i) => Response(200, SignedIn(AccountOf(s.users[i])))
  }

  /** PUT /api/auth/profile: updates the name and avatar given in the request
      on the user with this id. An unknown id makes the handler dereference a
      null result, which surfaces as 500 with the store unchanged. */
  function UpdateProfile(s: Store, id: Id, name: Option<string>, avatar: Option<string>): (r: (Store, Response))
    ensures (forall i :: 0 <= i < |s.users| ==> s.users[i].id != id) ==> r == (s, ServerError)
    ensures FirstIndex(s.users, UserIdOf, id).Some? ==>
      var i := FirstIndex(s.users, UserIdOf, id).value;
        && s.users[i].id == id
        && |r.0.users| == |s.users|
        && (forall j :: 0 <= j < |s.users| && j != i ==> r.0.users[j] == s.users[j])
        && r.0.users[i].(name := s.users[i].name, avatar := s.users[i].avatar) == s.users[i]
        && r.0.users[i].name == (if name.Some? then name else s.users[i].name)
        && r.0.users[i].avatar == (if avatar.Some? then avatar else s.users[i].avatar)
        && r.0.progress == s.progress && r.0.notes == s.notes && r.0.settings == s.settings && r.0.nextId == s.nextId
        && r.1 == Response(200, SignedIn(AccountOf(r.0.users[i])))
    ensures Valid(s) ==> Valid(r.0)
  {
    match FirstIndex(s.users, UserIdOf, id)
    case None => (s, ServerError)
    case Some(i) =>
      var u := s.users[i];
      var u' := u.(name := if name.Some? then name else u.name, avatar := if avatar.Some? then avatar else u.avatar);
      var s' := s.(users := s.users[i := u']);
      RewriteUserValid(s, i, u');
      (s', Response(200, SignedIn(AccountOf(u'))))
  }

  /** Start-up seeding: adds the admin account when no user has its email. */
  function SeedAdmin(s: Store): (r: Store)
    ensures EmailTaken(r.users, AdminEmail)
    ensures EmailTaken(s.users, AdminEmail) ==> r == s
    ensures !EmailTaken(s.users, AdminEmail) ==>
      && |r.users| == |s.users| + 1
      && r.users[..|s.users|] == s.users
      && r.users[|s.users|].role == Some(RoleAdmin)
      && Login(r, AdminEmail, AdminPassword).status == 200
    ensures Valid(s) ==> Valid(r)
  {
    match FirstIndex(s.users, EmailOf, AdminEmail)
    case Some(_) => s
    case None =>
      var admin := User(s.nextId, Some("Admin"), AdminEmail, Some(AdminPassword), Some(RoleAdmin), None, None);
      var r := s.(users := s.users + [admin], nextId := s.nextId + 1);
      assert r.users[|s.users|] == admin;
      assert r.users[..|s.users|] == s.users;
      AddUserValid(s, admin);
      r
  }

  /** Seeding twice is seeding once. */
  lemma SeedAdminIdempotent(s: Store)
    ensures SeedAdmin(SeedAdmin(s)) == SeedAdmin(s)
  {
  }

  /** A successful registration can log in straight away with the same
      credentials, and the login answers with the new account's id. */
  lemma RegisterThenLogin(s: Store, name: string, email: string, password: string)
    requires Register(s, name, email, password).1.status == 201
    ensures var s' := Register(s, name, email, password).0;
      Login(s', email, password) == Response(200, SignedIn(Account(s.nextId, Some(name), email, Some(RoleUser), None)))
  {
    var s' := Register(s, name, email, password).0;
    var n := |s.users|;
    assert forall i :: 0 <= i < n ==> s'.users[i] == s.users[i];
    assert FirstIndex(s'.users, Credentials, (email, Some(password))) == Some(n);
  }

  /** Registering the same email twice: the second attempt is refused with 400
      and the store holds exactly one user with that email. */
  lemma RegisterTwice(s: Store, name: string, email: string, password: string, name2: string, password2: string)
    requires Valid(s)
    requires !EmailTaken(s.users, email)
    ensures var s1 := Register(s, name, email, password).0;
      var r2 := Register(s1, name2, email, password2);
      && r2 == (s1, BadRequest)
      && CountEmail(s1.users, email) == 1
  {
    var s1 := Register(s, name, email, password).0;
    CountAbsent(s.users, email);
    CountAppend(s.users, s1.users[|s.users|], email);
    assert s1.users == s.users + [s1.users[|s.users|]];
  }

  lemma {:induction false} CountAbsent(users: seq<User>, email: string)
    requires !EmailTaken(users, email)
    ensures CountEmail(users, email) == 0
    decreases |users|
  {
    if |users| > 0 {
      assert !EmailTaken(users[1..], email) by {
        forall i | 0 <= i < |users[1..]| ensures users[1..][i].email != email {
          assert users[1..][i] == users[i + 1];
        }
      }
      CountAbsent(users[1..], email);
    }
  }

  lemma {:induction false} CountAppend(users: seq<User>, u: User, email: string)
    ensures CountEmail(users + [u], email) == CountEmail(users, email) + (if u.email == email then 1 else 0)
    decreases |users|
  {
    if |users| == 0 {
      assert users + [u] == [u];
    } else {
      assert (users + [u])[1..] == users[1..] + [u];
      CountAppend(users[1..], u, email);
    }
  }
}
