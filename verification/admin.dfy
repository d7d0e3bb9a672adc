/** The admin routes of server.js: the user list joined with progress, and
    the cascading delete of a user. */
module AdminRoutes {
  import opened Wrappers
  import opened Keyed
  import opened Models
  import opened Http
  import opened ProgressRoutes

  /** The admin list shows users whose role is "user"; admins are left out. */
  predicate Listed(u: User) {
    u.role == Some(RoleUser)
  }

  /** One row of the list: the user's public fields and their progress by
      lecture, which holds exactly that user's records. */
  function ViewOf(u: User, ps: seq<Progress>): (v: AdminView)
    ensures v.id == u.id && v.email == u.email && v.role == u.role
    ensures v.name == u.name && v.avatar == u.avatar && v.createdAt == u.createdAt
    ensures v.progress.Keys == set i | 0 <= i < |ps| && ps[i].userId == u.id :: ps[i].lectureId
    ensures UniqueKeys(ps, ProgressKey) ==>
      forall i :: 0 <= i < |ps| && ps[i].userId == u.id ==> v.progress[ps[i].lectureId] == ps[i]
  {
    UserProgressExact(ps, u.id);
    AdminView(u.id, u.name, u.email, u.role, u.avatar, u.createdAt, UserProgress(ps, u.id))
  }

  /** `users.map(...)` over `User.find({ role: 'user' })`: one view per listed user, in store order. */
  function AdminViews(users: seq<User>, ps: seq<Progress>): (r: seq<AdminView>)
    ensures |r| <= |users|
    decreases |users|
  {
    if |users| == 0 then []
    else (if Listed(users[0]) then [ViewOf(users[0], ps)] else []) + AdminViews(users[1..], ps)
  }

  /** The views are exactly those of the listed users. */
  lemma {:induction false} AdminViewsMembers(users: seq<User>, ps: seq<Progress>)
    ensures forall v :: v in AdminViews(users, ps) ==> exists u :: u in users && Listed(u) && v == ViewOf(u, ps)
    ensures forall u :: u in users && Listed(u) ==> ViewOf(u, ps) in AdminViews(users, ps)
    decreases |users|
  {
    if |users| > 0 {
      AdminViewsMembers(users[1..], ps);
      assert forall u :: u in users <==> u == users[0] || u in users[1..];
    }
  }

  /** The list keeps store order: it distributes over concatenation of the user sequence. */
  lemma {:induction false} AdminViewsConcat(a: seq<User>, b: seq<User>, ps: seq<Progress>)
    ensures AdminViews(a + b, ps) == AdminViews(a, ps) + AdminViews(b, ps)
    decreases |a|
  {
    if |a| == 0 {
      assert a + b == b;
    } else {
      assert (a + b)[0] == a[0];
      assert (a + b)[1..] == a[1..] + b;
      AdminViewsConcat(a[1..], b, ps);
      var head := if Listed(a[0]) then [ViewOf(a[0], ps)] else [];
      assert AdminViews(a + b, ps) == head + AdminViews(a[1..] + b, ps);
      assert AdminViews(a, ps) == head + AdminViews(a[1..], ps);
    }
  }

  /** The id of a row of the list. */
  function ViewIdOf(v: AdminView): Id { v.id }

  /** With unique user ids no user appears twice in the list. */
  lemma {:induction false} AdminViewsDistinct(users: seq<User>, ps: seq<Progress>)
    ensures UniqueKeys(users, UserIdOf) ==> UniqueKeys(AdminViews(users, ps), ViewIdOf)
    decreases |users|
  {
    if |users| > 0 && UniqueKeys(users, UserIdOf) {
      var head := if Listed(users[0]) then [ViewOf(users[0], ps)] else [];
      var tail := AdminViews(users[1..], ps);
      assert UniqueKeys(users[1..], UserIdOf) by {
        forall i, j | 0 <= i < j < |users[1..]| ensures users[1..][i].id != users[1..][j].id {
          assert users[1..][i] == users[i + 1] && users[1..][j] == users[j + 1];
        }
      }
      AdminViewsDistinct(users[1..], ps);
      AdminViewsMembers(users[1..], ps);
      forall j | 0 <= j < |tail| ensures tail[j].id != users[0].id {
        assert tail[j] in tail;
        var u :| u in users[1..] && Listed(u) && tail[j] == ViewOf(u, ps);
        var k :| 0 <= k < |users[1..]| && users[1..][k] == u;
        assert users[k + 1] == u;
      }
      assert AdminViews(users, ps) == head + tail;
    }
  }

  /** GET /api/admin/users: exactly the listed users, each with its progress. */
  function AdminList(s: Store): (r: Response)
    ensures r.status == 200 && r.body.UserList?
    ensures forall v :: v in r.body.views ==> exists u :: u in s.users && Listed(u) && v == ViewOf(u, s.progress)
    ensures forall u :: u in s.users && Listed(u) ==> ViewOf(u, s.progress) in r.body.views
    ensures UniqueKeys(s.users, UserIdOf) ==> UniqueKeys(r.body.views, ViewIdOf)
  {
    AdminViewsMembers(s.users, s.progress);
    AdminViewsDistinct(s.users, s.progress);
    Response(200, UserList(AdminViews(s.users, s.progress)))
  }

  /** DELETE /api/admin/users/:id as written: deletes the user and the user's
      progress, then looks the user up again to find the email whose notes
      to delete. The lookup runs after the delete, so with unique ids it
      finds nothing and the notes stay. */
  function AdminDelete(s: Store, id: Id): (r: (Store, Response))
    ensures r.1 == Response(200, Ack)
    ensures r.0.settings == s.settings && r.0.nextId == s.nextId
    ensures forall p :: p in r.0.progress ==> p in s.progress && p.userId != id
    ensures forall p :: p in s.progress && p.userId != id ==> p in r.0.progress
    ensures UniqueKeys(s.users, UserIdOf) ==>
      && (forall u :: u in r.0.users ==> u in s.users && u.id != id)
      && (forall u :: u in s.users && u.id != id ==> u in r.0.users)
      && r.0.notes == s.notes
    ensures Valid(s) ==> Valid(r.0)
  {
    var users' := DeleteFirst(s.users, UserIdOf, id);
    var progress' := Without(s.progress, OwnerOf, id);
    var notes' := match FirstIndex(users', UserIdOf, id)
      case Some(i) => Without(s.notes, NoteEmailOf, users'[i].email)
      case None => s.notes;
    WithoutMembers(s.users, UserIdOf, id);
    WithoutMembers(s.progress, OwnerOf, id);
    DeleteValid(s, id);
    (s.(users := users', progress := progress', notes := notes'), Response(200, Ack))
  }

  /** The facts `AdminDelete` needs about its three deletes. */
  lemma DeleteValid(s: Store, id: Id)
    ensures UniqueKeys(s.users, UserIdOf) ==> FirstIndex(DeleteFirst(s.users, UserIdOf, id), UserIdOf, id).None?
    ensures Valid(s) ==> Valid(s.(users := DeleteFirst(s.users, UserIdOf, id), progress := Without(s.progress, OwnerOf, id)))
  {
    var users' := DeleteFirst(s.users, UserIdOf, id);
    WithoutMembers(s.users, UserIdOf, id);
    WithoutKeepsUnique(s.users, UserIdOf, id, EmailOf);
    WithoutKeepsUnique(s.users, UserIdOf, id, UserIdOf);
    WithoutKeepsUnique(s.progress, OwnerOf, id, ProgressKey);
  }

  /** The evidently intended delete: the email is read before the user is
      deleted, so the user's notes go too. */
  function AdminDeleteIntended(s: Store, id: Id): (r: (Store, Response))
    ensures r.1 == Response(200, Ack)
    ensures r.0.settings == s.settings && r.0.nextId == s.nextId
    ensures UniqueKeys(s.users, UserIdOf) ==>
      && (forall u :: u in r.0.users ==> u in s.users && u.id != id)
      && (forall u :: u in s.users && u.id != id ==> u in r.0.users)
    ensures forall p :: p in r.0.progress <==> p in s.progress && p.userId != id
    ensures forall i :: 0 <= i < |s.users| && s.users[i].id == id && UniqueKeys(s.users, UserIdOf) ==>
      (forall n :: n in r.0.notes <==> n in s.notes && n.email != s.users[i].email)
    ensures (forall i :: 0 <= i < |s.users| ==> s.users[i].id != id) ==> r.0.notes == s.notes
    ensures Valid(s) ==> Valid(r.0)
  {
    var notes' := match FirstIndex(s.users, UserIdOf, id)
      case Some(i) => Without(s.notes, NoteEmailOf, s.users[i].email)
      case None => s.notes;
    WithoutMembers(s.users, UserIdOf, id);
    WithoutMembers(s.progress, OwnerOf, id);
    DeleteValid(s, id);
    match FirstIndex(s.users, UserIdOf, id)
    case Some(i) =>
      WithoutMembers(s.notes, NoteEmailOf, s.users[i].email);
      WithoutKeepsUnique(s.notes, NoteEmailOf, s.users[i].email, NoteIdOf);
      (s.(users := DeleteFirst(s.users, UserIdOf, id), progress := Without(s.progress, OwnerOf, id), notes := notes'), Response(200, Ack))
    case None =>
      (s.(users := DeleteFirst(s.users, UserIdOf, id), progress := Without(s.progress, OwnerOf, id), notes := notes'), Response(200, Ack))
  }

  /** The discrepancy: a user with one note; the delete as written keeps the note. */
  lemma DeleteKeepsNotes()
    ensures var u := User(0, None, "a@x.com", None, Some(RoleUser), None, None);
      var n := SharedNote(1, 3, None, None, None, None, Some("A"), "a@x.com", 0);
      var s := Store([u], [], [n], [], 2);
      && AdminDelete(s, 0).0.notes == [n]
      && AdminDeleteIntended(s, 0).0.notes == []
  {
    var u := User(0, None, "a@x.com", None, Some(RoleUser), None, None);
    var n := SharedNote(1, 3, None, None, None, None, Some("A"), "a@x.com", 0);
    var s := Store([u], [], [n], [], 2);
    assert FirstIndex(s.users, UserIdOf, 0) == Some(0);
    assert DeleteFirst(s.users, UserIdOf, 0) == [];
    assert Without(s.notes, NoteEmailOf, "a@x.com") == [];
  }

  /** After the delete, the admin list no longer shows the user. */
  lemma AdminListAfterDelete(s: Store, id: Id)
    requires Valid(s)
    ensures forall v :: v in AdminList(AdminDelete(s, id).0).body.views ==> v.id != id
  {
    var s' := AdminDelete(s, id).0;
    forall v | v in AdminList(s').body.views ensures v.id != id {
      var u :| u in s'.users && Listed(u) && v == ViewOf(u, s'.progress);
    }
  }
}
