/** The four document collections and the record shapes their schemas give
    them (models/Progress.js, models/SharedNote.js, models/Settings.js; the
    User schema is reconstructed from the fields the routes read and write).

    Store identifiers (`_id`) are abstract: a counter `nextId` hands out fresh
    ones. Dates are integers, ordered like the instants they stand for. */
module Models {
  import opened Wrappers
  import opened Keyed

  type Id = nat
  type Time = int

  /** The role every self-registered user gets; the admin view lists only these. */
  const RoleUser := "user"
  const RoleAdmin := "admin"

  /** Schema default of `Settings.totalLectures`. */
  const DefaultTotalLectures := 200

  datatype User = User(
    id: Id,
    name: Option<string>,
    email: string,
    password: Option<string>,
    role: Option<string>,
    avatar: Option<string>,
    createdAt: Option<Time>)

  /** One user's state for one lecture. `completedAt` absent means "not completed". */
  datatype Progress = Progress(
    userId: Id,
    lectureId: int,
    completedAt: Option<Time>,
    note: string,
    hasNotes: bool)

  /** A note shared on a lecture. The attachment itself lives elsewhere; only
      its reference, type and name are kept. `uploadedBy` is optional here
      because the migration upsert inserts without running validators. */
  datatype SharedNote = SharedNote(
    id: Id,
    lectureNumber: int,
    textContent: Option<string>,
    fileRef: Option<string>,
    fileType: Option<string>,
    fileName: Option<string>,
    uploadedBy: Option<string>,
    email: string,
    date: Time)

  datatype Settings = Settings(totalLectures: int)

  datatype Store = Store(
    users: seq<User>,
    progress: seq<Progress>,
    notes: seq<SharedNote>,
    settings: seq<Settings>,
    nextId: Id)

  /** The filter fields of each collection's queries. */
  function UserIdOf(u: User): Id { u.id }
  function EmailOf(u: User): string { u.email }
  function NoteIdOf(n: SharedNote): Id { n.id }
  function NoteEmailOf(n: SharedNote): string { n.email }
  function OwnerOf(p: Progress): Id { p.userId }

  /** The unique compound index `{ userId: 1, lectureId: 1 }` of Progress. */
  function ProgressKey(p: Progress): (Id, int) { (p.userId, p.lectureId) }

  /** The natural key the migration uses to identify a shared note. */
  function NoteKey(n: SharedNote): (int, string, Time) { (n.lectureNumber, n.email, n.date) }

  /** The empty filter `{}`: every Settings document matches it. */
  function AnyFilter(s: Settings): () { () }

  /** The invariants every route preserves: emails and ids are unique, ids
      are below the counter, at most one Progress per (userId, lectureId),
      and at most one Settings document. */
  ghost predicate Valid(s: Store) {
    && UniqueKeys(s.users, EmailOf)
    && FreshIds(s.users, UserIdOf, s.nextId)
    && FreshIds(s.notes, NoteIdOf, s.nextId)
    && UniqueKeys(s.progress, ProgressKey)
    && UniqueKeys(s.settings, AnyFilter)
  }

  /** Ids are unique and all below the counter, so the counter is a fresh id. */
  ghost predicate FreshIds<T>(xs: seq<T>, idOf: T -> Id, next: Id) {
    UniqueKeys(xs, idOf) && forall x :: x in xs ==> idOf(x) < next
  }

  /** Appending a document that takes the counter's id, and advancing the counter, keeps ids fresh. */
  lemma AppendFresh<T>(xs: seq<T>, idOf: T -> Id, next: Id, x: T)
    requires idOf(x) == next
    ensures FreshIds(xs, idOf, next) ==> FreshIds(xs + [x], idOf, next + 1)
  {
    var ys := xs + [x];
    assert forall i :: 0 <= i < |xs| ==> ys[i] == xs[i];
  }

  /** Rewriting documents in place without touching their ids keeps ids fresh. */
  lemma SameIdsFresh<T>(xs: seq<T>, ys: seq<T>, idOf: T -> Id, next: Id)
    requires |xs| == |ys|
    requires forall j :: 0 <= j < |xs| ==> idOf(ys[j]) == idOf(xs[j])
    ensures FreshIds(xs, idOf, next) ==> FreshIds(ys, idOf, next)
  {
    if FreshIds(xs, idOf, next) {
      forall y | y in ys ensures idOf(y) < next {
        var j :| 0 <= j < |ys| && ys[j] == y;
        assert xs[j] in xs;
      }
    }
  }

  /** The empty store the server starts from. */
  function Empty(): (s: Store)
    ensures Valid(s)
    ensures s.users == [] && s.progress == [] && s.notes == [] && s.settings == []
  {
    Store([], [], [], [], 0)
  }

  /** Unique keys under the empty filter is exactly "at most one Settings document". */
  lemma SingletonSettings(ss: seq<Settings>)
    ensures UniqueKeys(ss, AnyFilter) <==> |ss| <= 1
  {
    if |ss| > 1 {
      assert AnyFilter(ss[0]) == AnyFilter(ss[1]);
    }
  }
}
