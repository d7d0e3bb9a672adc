/** POST /api/migrate: merges a legacy client-side data set into the store.

    The steps run in order and each writes through upserts on a natural key:
    1. the Settings singleton, when the payload has `settings`;
    2. users, by email, when `users` is a non-empty array;
    3. a map from email to store id, rebuilt from the users now stored;
    4. progress, after translating each legacy user id to a store id;
    5. shared notes, by (lectureNumber, email, date).
    A failing step ends the request with 500 and keeps what earlier steps wrote. */
module MigrateRoute {
  import opened Wrappers
  import opened Keyed
  import opened Models
  import opened Http
  import opened ProgressRoutes
  import opened SettingsRoutes

  /** A user record of the legacy data; `id` is the client's own identifier. */
  datatype LegacyUser = LegacyUser(
    id: string,
    email: string,
    name: Option<string>,
    password: Option<string>,
    role: Option<string>,
    createdAt: Option<Time>,
    avatar: Option<string>)

  /** One `lectureId: { completedAt, note, hasNotes }` entry of a progress block. */
  datatype LectureEntry = LectureEntry(lectureId: int, data: ProgressPatch)

  /** One `legacyUserId: { ... }` entry of the `progress` object, in the object's entry order. */
  datatype LegacyProgress = LegacyProgress(legacyUserId: string, lectures: seq<LectureEntry>)

  /** A note of the legacy data. Its key fields are always present. */
  datatype LegacyNote = LegacyNote(
    lectureNumber: int,
    email: string,
    date: Time,
    textContent: Option<string>,
    fileRef: Option<string>,
    fileType: Option<string>,
    fileName: Option<string>,
    uploadedBy: Option<string>)

  /** The request body; every section is optional. */
  datatype Payload = Payload(
    users: Option<seq<LegacyUser>>,
    progress: Option<seq<LegacyProgress>>,
    notes: Option<seq<LegacyNote>>,
    settings: Option<SettingsPatch>)

  // ---------------------------------------------------------------- users

  /** The stored user carries every field the legacy record sets. */
  predicate Reflects(u: User, l: LegacyUser) {
    && u.email == l.email
    && (l.name.Some? ==> u.name == l.name)
    && (l.password.Some? ==> u.password == l.password)
    && (l.role.Some? ==> u.role == l.role)
    && (l.createdAt.Some? ==> u.createdAt == l.createdAt)
    && (l.avatar.Some? ==> u.avatar == l.avatar)
  }

  /** The update `{ name, password, role, createdAt, avatar }`: absent fields are left alone. */
  function MergeUser(u: User, l: LegacyUser): User {
    u.(name := if l.name.Some? then l.name else u.name,
       password := if l.password.Some? then l.password else u.password,
       role := if l.role.Some? then l.role else u.role,
       createdAt := if l.createdAt.Some? then l.createdAt else u.createdAt,
       avatar := if l.avatar.Some? then l.avatar else u.avatar)
  }

  /** The user the upsert inserts: the filter's email and the record's fields. */
  function UserFrom(id: Id, l: LegacyUser): User {
    User(id, l.name, l.email, l.password, l.role, l.avatar, l.createdAt)
  }

  /** The stored user with this email, as `findOne({ email })` finds it. */
  function UserWithEmail(users: seq<User>, email: string): Option<User> {
    match FirstIndex(users, EmailOf, email)
    case Some(i) => Some(users[i])
    case None => None
  }

  /** `User.findOneAndUpdate({ email }, fields, { upsert: true })` for one legacy record. */
  function UpsertUser(users: seq<User>, nextId: Id, l: LegacyUser): (r: (seq<User>, Id))
    ensures var i := Slot(users, EmailOf, l.email);
      && FirstIndex(r.0, EmailOf, l.email) == Some(i)
      && Reflects(r.0[i], l)
      && (i < |users| ==> |r.0| == |users| && r.1 == nextId && r.0[i].id == users[i].id)
      && (i == |users| ==> |r.0| == |users| + 1 && r.1 == nextId + 1 && r.0[i].id == nextId)
      && (forall j :: 0 <= j < |users| && j != i ==> r.0[j] == users[j])
    ensures forall j :: 0 <= j < |users| ==> r.0[j].id == users[j].id && r.0[j].email == users[j].email
    ensures KeySet(r.0, EmailOf) == KeySet(users, EmailOf) + {l.email}
    ensures UniqueKeys(users, EmailOf) ==> UniqueKeys(r.0, EmailOf)
    ensures FreshIds(users, UserIdOf, nextId) ==> FreshIds(r.0, UserIdOf, r.1)
  {
    var update := (u: User) => MergeUser(u, l);
    var create := UserFrom(nextId, l);
    var us := Upsert(users, EmailOf, l.email, update, create);
    var i := Slot(users, EmailOf, l.email);
    if i < |users| then
      assert forall j :: 0 <= j < |us| ==> us[j].id == users[j].id;
      SameIdsFresh(users, us, UserIdOf, nextId);
      (us, nextId)
    else
      assert us == users + [create];
      AppendFresh(users, UserIdOf, nextId, create);
      (us, nextId + 1)
  }

  /** Upserting one legacy user leaves the lookup of every other email unchanged. */
  lemma UpsertUserOtherEmail(users: seq<User>, nextId: Id, l: LegacyUser, e: string)
    requires e != l.email
    ensures UserWithEmail(UpsertUser(users, nextId, l).0, e) == UserWithEmail(users, e)
  {
    UpsertOtherKey(users, EmailOf, l.email, (u: User) => MergeUser(u, l), UserFrom(nextId, l), e);
  }

  /** After one upsert the user with the legacy email reflects the legacy record. */
  lemma UpsertUserFinds(users: seq<User>, nextId: Id, l: LegacyUser)
    ensures var u := UserWithEmail(UpsertUser(users, nextId, l).0, l.email);
      u.Some? && Reflects(u.value, l)
  {
  }

  /** Step 2: the legacy users upserted one after the other, in input order. */
  function UpsertUsers(users: seq<User>, nextId: Id, ls: seq<LegacyUser>): (r: (seq<User>, Id))
    ensures |r.0| >= |users| && r.1 >= nextId
    ensures forall j :: 0 <= j < |users| ==> r.0[j].id == users[j].id && r.0[j].email == users[j].email
    ensures KeySet(r.0, EmailOf) == KeySet(users, EmailOf) + (set l | l in ls :: l.email)
    ensures UniqueKeys(users, EmailOf) ==> UniqueKeys(r.0, EmailOf)
    ensures FreshIds(users, UserIdOf, nextId) ==> FreshIds(r.0, UserIdOf, r.1)
    decreases |ls|
  {
    if |ls| == 0 then (users, nextId)
    else
      var (us, n) := UpsertUser(users, nextId, ls[0]);
      EmailsSplit(ls);
      UpsertUsers(us, n, ls[1..])
  }

  /** The emails of a legacy list: the first record's and the rest's. */
  lemma EmailsSplit(ls: seq<LegacyUser>)
    requires |ls| > 0
    ensures (set l | l in ls :: l.email) == {ls[0].email} + (set l | l in ls[1..] :: l.email)
  {
    assert forall l :: l in ls <==> l == ls[0] || l in ls[1..];
  }

  /** Users whose email no legacy record mentions come out of step 2 unchanged. */
  lemma {:induction false} UpsertUsersUntouched(users: seq<User>, nextId: Id, ls: seq<LegacyUser>, email: string)
    requires forall j :: 0 <= j < |ls| ==> ls[j].email != email
    ensures UserWithEmail(UpsertUsers(users, nextId, ls).0, email) == UserWithEmail(users, email)
    decreases |ls|
  {
    if |ls| > 0 {
      var (us, n) := UpsertUser(users, nextId, ls[0]);
      UpsertUserOtherEmail(users, nextId, ls[0], email);
      UpsertUsersUntouched(us, n, ls[1..], email);
    }
  }

  /** `k` is the last position of the legacy list carrying its email. */
  predicate LastWithEmail(ls: seq<LegacyUser>, k: int) {
    0 <= k < |ls| && forall j :: k < j < |ls| ==> ls[j].email != ls[k].email
  }

  /** When the input repeats an email, the stored user carries the last
      record's fields (and, for fields that record lacks, earlier values). */
  lemma {:induction false} UpsertUsersLastWins(users: seq<User>, nextId: Id, ls: seq<LegacyUser>, k: int)
    requires LastWithEmail(ls, k)
    ensures var u := UserWithEmail(UpsertUsers(users, nextId, ls).0, ls[k].email);
      u.Some? && Reflects(u.value, ls[k])
    decreases |ls|
  {
    var (us, n) := UpsertUser(users, nextId, ls[0]);
    if k == 0 {
      UpsertUserFinds(users, nextId, ls[0]);
      assert forall j :: 0 <= j < |ls[1..]| ==> ls[1..][j].email != ls[0].email by {
        forall j | 0 <= j < |ls[1..]| ensures ls[1..][j].email != ls[0].email {
          assert ls[1..][j] == ls[j + 1];
        }
      }
      UpsertUsersUntouched(us, n, ls[1..], ls[0].email);
    } else {
      assert LastWithEmail(ls[1..], k - 1) by {
        forall j | k - 1 < j < |ls[1..]| ensures ls[1..][j].email != ls[1..][k - 1].email {
          assert ls[1..][j] == ls[j + 1];
        }
      }
      UpsertUsersLastWins(us, n, ls[1..], k - 1);
      assert ls[1..][k - 1] == ls[k];
    }
  }

  /** Step 2 never duplicates an email: a legacy user whose email is stored
      updates that user, and the stored users keep their ids and emails. */
  lemma UsersStepNeverDuplicates(users: seq<User>, nextId: Id, ls: seq<LegacyUser>)
    requires UniqueKeys(users, EmailOf)
    ensures var r := UpsertUsers(users, nextId, ls).0;
      && UniqueKeys(r, EmailOf)
      && (forall j :: 0 <= j < |users| ==> r[j].id == users[j].id && r[j].email == users[j].email)
      && (forall j :: |users| <= j < |r| ==> r[j].email !in KeySet(users, EmailOf))
  {
    var r := UpsertUsers(users, nextId, ls).0;
    forall j | |users| <= j < |r| ensures r[j].email !in KeySet(users, EmailOf) {
      assert forall i :: 0 <= i < |users| ==> users[i].email == r[i].email != r[j].email;
      assert forall u :: u in users ==> u.email != r[j].email;
    }
  }

  // -------------------------------------------------------- email index

  /** Step 3: `emailToId`, filled by walking the stored users in order, so a
      later user overwrites an earlier one with the same email. */
  function EmailIndex(users: seq<User>): (m: map<string, Id>)
    ensures m.Keys == set i | 0 <= i < |users| :: users[i].email
    ensures forall e :: e in m ==> exists i :: 0 <= i < |users| && users[i].email == e && users[i].id == m[e]
    decreases |users|
  {
    if |users| == 0 then map[]
    else
      var init := users[..|users| - 1];
      var u := users[|users| - 1];
      assert forall i :: 0 <= i < |init| ==> init[i] == users[i];
      EmailIndex(init)[u.email := u.id]
  }

  /** With unique emails, the index maps each stored email to that user's id. */
  lemma EmailIndexExact(users: seq<User>)
    ensures UniqueKeys(users, EmailOf) ==>
      forall i :: 0 <= i < |users| ==> users[i].email in EmailIndex(users) && EmailIndex(users)[users[i].email] == users[i].id
  {
    if UniqueKeys(users, EmailOf) {
      forall i | 0 <= i < |users| ensures users[i].email in EmailIndex(users) && EmailIndex(users)[users[i].email] == users[i].id {
        EmailIndexAt(users, i);
      }
    }
  }

  /** One position of `EmailIndexExact`. */
  lemma EmailIndexAt(users: seq<User>, i: nat)
    requires UniqueKeys(users, EmailOf) && i < |users|
    ensures users[i].email in EmailIndex(users) && EmailIndex(users)[users[i].email] == users[i].id
  {
    var m := EmailIndex(users);
    var e := users[i].email;
    assert e in m;
    var j :| 0 <= j < |users| && users[j].email == e && users[j].id == m[e];
    assert EmailOf(users[i]) == EmailOf(users[j]);
  }

  // ---------------------------------------------------------- progress

  /** The legacy id `users.find(u => u.id === legacyId)` compares. */
  function LegacyIdOf(l: LegacyUser): string { l.id }

  /** The property key JavaScript uses for `emailToId[undefined]`. */
  const UndefinedKey := "undefined"

  /** `emailToId[users.find(u => u.id === legacyId)?.email]`, as written: when
      no legacy user has the id, the lookup key is `undefined`, which an object
      converts to the string "undefined". */
  function ResolveLegacyId(ls: seq<LegacyUser>, index: map<string, Id>, legacyId: string): (r: Option<Id>)
    ensures r.Some? ==> r.value in index.Values
    ensures UndefinedKey !in index ==> r == ResolveLegacyIdIntended(ls, index, legacyId)
  {
    var key := match FirstIndex(ls, LegacyIdOf, legacyId)
      case Some(i) => ls[i].email
      case None => UndefinedKey;
    if key in index then Some(index[key]) else None
  }

  /** The evidently intended resolution: only a legacy user with this id,
      whose email is stored, resolves, and to that email's store id. */
  function ResolveLegacyIdIntended(ls: seq<LegacyUser>, index: map<string, Id>, legacyId: string): (r: Option<Id>)
    ensures (forall i :: 0 <= i < |ls| ==> ls[i].id != legacyId) ==> r.None?
    ensures r.Some? <==> exists i :: 0 <= i < |ls| && ls[i].id == legacyId && ls[FirstIndex(ls, LegacyIdOf, legacyId).value].email in index
    ensures r.Some? ==> r.value == index[ls[FirstIndex(ls, LegacyIdOf, legacyId).value].email]
  {
    match FirstIndex(ls, LegacyIdOf, legacyId)
    case None => None
    case Some(i) => if ls[i].email in index then Some(index[ls[i].email]) else None
  }

  /** The discrepancy: a progress block whose legacy id matches no legacy user
      is written to the stored user whose email is the string "undefined". */
  lemma UndefinedKeyResolves()
    ensures ResolveLegacyId([], map[UndefinedKey := 7], "gone") == Some(7)
    ensures ResolveLegacyIdIntended([], map[UndefinedKey := 7], "gone") == None
  {
  }

  /** Upserts every lecture entry of one block for the resolved store id. */
  function MigrateLectures(ps: seq<Progress>, userId: Id, entries: seq<LectureEntry>): (r: seq<Progress>)
    ensures |r| >= |ps|
    ensures forall j :: 0 <= j < |ps| && ps[j].userId != userId ==> r[j] == ps[j]
    ensures forall j :: 0 <= j < |ps| ==> ProgressKey(r[j]) == ProgressKey(ps[j])
    ensures KeySet(r, ProgressKey) == KeySet(ps, ProgressKey) + (set e | e in entries :: (userId, e.lectureId))
    ensures UniqueKeys(ps, ProgressKey) ==> UniqueKeys(r, ProgressKey)
    decreases |entries|
  {
    if |entries| == 0 then ps
    else
      var e := entries[0];
      var ps' := UpsertProgress(ps, userId, e.lectureId, e.data);
      UpsertProgressKeeps(ps, userId, e.lectureId, e.data);
      LectureKeysSplit(userId, entries);
      MigrateLectures(ps', userId, entries[1..])
  }

  /** An upsert keeps every record's key, and leaves other users' records as they were. */
  lemma UpsertProgressKeeps(ps: seq<Progress>, userId: Id, lectureId: int, patch: ProgressPatch)
    ensures var r := UpsertProgress(ps, userId, lectureId, patch);
      && (forall j :: 0 <= j < |ps| ==> ProgressKey(r[j]) == ProgressKey(ps[j]))
      && (forall j :: 0 <= j < |ps| && ps[j].userId != userId ==> r[j] == ps[j])
  {
    var r := UpsertProgress(ps, userId, lectureId, patch);
    var i := Slot(ps, ProgressKey, (userId, lectureId));
    if i < |ps| {
      assert ProgressKey(ps[i]) == (userId, lectureId);
    }
  }

  /** The keys an entry list writes: the first entry's and the rest's. */
  lemma LectureKeysSplit(userId: Id, entries: seq<LectureEntry>)
    requires |entries| > 0
    ensures (set x | x in entries :: (userId, x.lectureId))
      == {(userId, entries[0].lectureId)} + (set x | x in entries[1..] :: (userId, x.lectureId))
  {
    assert forall x :: x in entries <==> x == entries[0] || x in entries[1..];
  }

  /** `k` is the last entry of the block for its lecture id. */
  predicate LastEntry(entries: seq<LectureEntry>, k: int) {
    0 <= k < |entries| && forall j :: k < j < |entries| ==> entries[j].lectureId != entries[k].lectureId
  }

  /** Entries for other keys leave the record under `key` as it was. */
  lemma {:induction false} MigrateLecturesUntouched(ps: seq<Progress>, userId: Id, entries: seq<LectureEntry>, key: (Id, int))
    requires forall j :: 0 <= j < |entries| ==> (userId, entries[j].lectureId) != key
    ensures RecordAt(MigrateLectures(ps, userId, entries), key) == RecordAt(ps, key)
    decreases |entries|
  {
    if |entries| > 0 {
      var e := entries[0];
      UpsertProgressOtherKey(ps, userId, e.lectureId, e.data, key);
      MigrateLecturesUntouched(UpsertProgress(ps, userId, e.lectureId, e.data), userId, entries[1..], key);
    }
  }

  /** The record for a lecture holds the fields of the block's last entry for
      that lecture (`data` at server.js:211); fields that entry lacks keep
      what earlier writes left. */
  lemma {:induction false} MigrateLecturesLastWins(ps: seq<Progress>, userId: Id, entries: seq<LectureEntry>, k: int)
    requires LastEntry(entries, k)
    ensures var rec := RecordAt(MigrateLectures(ps, userId, entries), (userId, entries[k].lectureId));
      rec.Some? && Holds(rec.value, entries[k].data)
    decreases |entries|
  {
    var e := entries[0];
    var ps' := UpsertProgress(ps, userId, e.lectureId, e.data);
    if k == 0 {
      UpsertProgressFinds(ps, userId, e.lectureId, e.data);
      forall j | 0 <= j < |entries[1..]| ensures (userId, entries[1..][j].lectureId) != (userId, e.lectureId) {
        assert entries[1..][j] == entries[j + 1];
      }
      MigrateLecturesUntouched(ps', userId, entries[1..], (userId, e.lectureId));
    } else {
      assert LastEntry(entries[1..], k - 1) by {
        forall j | k - 1 < j < |entries[1..]| ensures entries[1..][j].lectureId != entries[1..][k - 1].lectureId {
          assert entries[1..][j] == entries[j + 1];
        }
      }
      MigrateLecturesLastWins(ps', userId, entries[1..], k - 1);
      assert entries[1..][k - 1] == entries[k];
    }
  }

  /** The keys one block writes: none when its id does not resolve. */
  ghost function BlockKeys(ls: seq<LegacyUser>, index: map<string, Id>, b: LegacyProgress): set<(Id, int)> {
    match ResolveLegacyId(ls, index, b.legacyUserId)
    case None => {}
    case Some(id) => set e | e in b.lectures :: (id, e.lectureId)
  }

  /** The keys the whole `progress` object writes: those of its resolving blocks. */
  ghost function ResolvedKeys(ls: seq<LegacyUser>, index: map<string, Id>, blocks: seq<LegacyProgress>): set<(Id, int)> {
    set b, e | b in blocks && e in b.lectures && ResolveLegacyId(ls, index, b.legacyUserId).Some?
      :: (ResolveLegacyId(ls, index, b.legacyUserId).value, e.lectureId)
  }

  /** The store ids the resolving blocks write for. */
  ghost function ResolvedIds(ls: seq<LegacyUser>, index: map<string, Id>, blocks: seq<LegacyProgress>): set<Id> {
    set b | b in blocks && ResolveLegacyId(ls, index, b.legacyUserId).Some? :: ResolveLegacyId(ls, index, b.legacyUserId).value
  }

  /** The keys of a block list: the first block's and the rest's. */
  lemma ResolvedKeysSplit(ls: seq<LegacyUser>, index: map<string, Id>, blocks: seq<LegacyProgress>)
    requires |blocks| > 0
    ensures ResolvedKeys(ls, index, blocks) == BlockKeys(ls, index, blocks[0]) + ResolvedKeys(ls, index, blocks[1..])
    ensures ResolvedIds(ls, index, blocks) ==
      (if ResolveLegacyId(ls, index, blocks[0].legacyUserId).Some? then {ResolveLegacyId(ls, index, blocks[0].legacyUserId).value} else {})
      + ResolvedIds(ls, index, blocks[1..])
  {
    assert forall b :: b in blocks <==> b == blocks[0] || b in blocks[1..];
  }

  /** One `[legacyUserId, lectures]` entry: skipped silently when the id does
      not resolve; otherwise it adds exactly its lectures' keys for the
      resolved id and leaves other users' records alone. */
  function MigrateBlock(ps: seq<Progress>, ls: seq<LegacyUser>, index: map<string, Id>, b: LegacyProgress): (r: seq<Progress>)
    ensures ResolveLegacyId(ls, index, b.legacyUserId).None? ==> r == ps
    ensures |r| >= |ps|
    ensures KeySet(r, ProgressKey) == KeySet(ps, ProgressKey) + BlockKeys(ls, index, b)
    ensures ResolveLegacyId(ls, index, b.legacyUserId).Some? ==>
      forall j :: 0 <= j < |ps| && ps[j].userId != ResolveLegacyId(ls, index, b.legacyUserId).value ==> r[j] == ps[j]
    ensures UniqueKeys(ps, ProgressKey) ==> UniqueKeys(r, ProgressKey)
  {
    match ResolveLegacyId(ls, index, b.legacyUserId)
    case None => ps
    case Some(userId) => MigrateLectures(ps, userId, b.lectures)
  }

  /** Step 4: every block of the `progress` object, in entry order. The keys
      written are exactly those of the resolving blocks, and the records of
      users no block resolves to are left alone. */
  function MigrateProgress(ps: seq<Progress>, ls: seq<LegacyUser>, index: map<string, Id>, blocks: seq<LegacyProgress>): (r: seq<Progress>)
    ensures |r| >= |ps|
    ensures KeySet(r, ProgressKey) == KeySet(ps, ProgressKey) + ResolvedKeys(ls, index, blocks)
    ensures forall j :: 0 <= j < |ps| && ps[j].userId !in ResolvedIds(ls, index, blocks) ==> r[j] == ps[j]
    ensures (forall b :: b in blocks ==> ResolveLegacyId(ls, index, b.legacyUserId).None?) ==> r == ps
    ensures UniqueKeys(ps, ProgressKey) ==> UniqueKeys(r, ProgressKey)
    decreases |blocks|
  {
    if |blocks| == 0 then ps
    else
      var ps' := MigrateBlock(ps, ls, index, blocks[0]);
      ResolvedKeysSplit(ls, index, blocks);
      assert forall b :: b in blocks <==> b == blocks[0] || b in blocks[1..];
      MigrateProgress(ps', ls, index, blocks[1..])
  }

  /** Blocks that do not resolve to the key's user leave its record as it was. */
  lemma {:induction false} MigrateProgressUntouched(ps: seq<Progress>, ls: seq<LegacyUser>, index: map<string, Id>, blocks: seq<LegacyProgress>, key: (Id, int))
    requires forall m :: 0 <= m < |blocks| ==> ResolveLegacyId(ls, index, blocks[m].legacyUserId) != Some(key.0)
    ensures RecordAt(MigrateProgress(ps, ls, index, blocks), key) == RecordAt(ps, key)
    decreases |blocks|
  {
    if |blocks| > 0 {
      var b := blocks[0];
      if ResolveLegacyId(ls, index, b.legacyUserId).Some? {
        var id := ResolveLegacyId(ls, index, b.legacyUserId).value;
        MigrateLecturesUntouched(ps, id, b.lectures, key);
      }
      forall m | 0 <= m < |blocks[1..]| ensures ResolveLegacyId(ls, index, blocks[1..][m].legacyUserId) != Some(key.0) {
        assert blocks[1..][m] == blocks[m + 1];
      }
      MigrateProgressUntouched(MigrateBlock(ps, ls, index, b), ls, index, blocks[1..], key);
    }
  }

  /** Block `m` resolves, and no later block resolves to the same user. */
  predicate LastBlockFor(ls: seq<LegacyUser>, index: map<string, Id>, blocks: seq<LegacyProgress>, m: int) {
    && 0 <= m < |blocks| && ResolveLegacyId(ls, index, blocks[m].legacyUserId).Some?
    && forall m' :: m < m' < |blocks| ==>
         ResolveLegacyId(ls, index, blocks[m'].legacyUserId) != ResolveLegacyId(ls, index, blocks[m].legacyUserId)
  }

  /** Dropping the first block keeps a later last block the last. */
  lemma LastBlockForTail(ls: seq<LegacyUser>, index: map<string, Id>, blocks: seq<LegacyProgress>, m: int)
    requires LastBlockFor(ls, index, blocks, m) && m > 0
    ensures LastBlockFor(ls, index, blocks[1..], m - 1) && blocks[1..][m - 1] == blocks[m]
  {
    forall m' | m - 1 < m' < |blocks[1..]|
      ensures ResolveLegacyId(ls, index, blocks[1..][m'].legacyUserId) != ResolveLegacyId(ls, index, blocks[m].legacyUserId)
    {
      assert blocks[1..][m'] == blocks[m' + 1];
    }
  }

  /** Blocks after the last one for `id` never resolve to `id`. */
  lemma LastBlockForRest(ls: seq<LegacyUser>, index: map<string, Id>, blocks: seq<LegacyProgress>)
    requires LastBlockFor(ls, index, blocks, 0)
    ensures forall m :: 0 <= m < |blocks[1..]| ==>
      ResolveLegacyId(ls, index, blocks[1..][m].legacyUserId) != Some(ResolveLegacyId(ls, index, blocks[0].legacyUserId).value)
  {
    forall m | 0 <= m < |blocks[1..]|
      ensures ResolveLegacyId(ls, index, blocks[1..][m].legacyUserId) != Some(ResolveLegacyId(ls, index, blocks[0].legacyUserId).value)
    {
      assert blocks[1..][m] == blocks[m + 1];
    }
  }

  /** The record for (id, lectureId) holds the last entry for that lecture in
      the last block that resolves to `id`. */
  lemma {:induction false} MigrateProgressLastWins(ps: seq<Progress>, ls: seq<LegacyUser>, index: map<string, Id>,
                                                   blocks: seq<LegacyProgress>, m: int, k: int)
    requires LastBlockFor(ls, index, blocks, m)
    requires LastEntry(blocks[m].lectures, k)
    ensures var id := ResolveLegacyId(ls, index, blocks[m].legacyUserId).value;
      var rec := RecordAt(MigrateProgress(ps, ls, index, blocks), (id, blocks[m].lectures[k].lectureId));
      rec.Some? && Holds(rec.value, blocks[m].lectures[k].data)
    decreases |blocks|
  {
    if m == 0 {
      FirstBlockWins(ps, ls, index, blocks, k);
    } else {
      var ps' := MigrateBlock(ps, ls, index, blocks[0]);
      assert MigrateProgress(ps, ls, index, blocks) == MigrateProgress(ps', ls, index, blocks[1..]);
      LastBlockForTail(ls, index, blocks, m);
      MigrateProgressLastWins(ps', ls, index, blocks[1..], m - 1, k);
    }
  }

  /** The base case of `MigrateProgressLastWins`: the first block is the last for its user. */
  lemma FirstBlockWins(ps: seq<Progress>, ls: seq<LegacyUser>, index: map<string, Id>, blocks: seq<LegacyProgress>, k: int)
    requires LastBlockFor(ls, index, blocks, 0)
    requires LastEntry(blocks[0].lectures, k)
    ensures var id := ResolveLegacyId(ls, index, blocks[0].legacyUserId).value;
      var rec := RecordAt(MigrateProgress(ps, ls, index, blocks), (id, blocks[0].lectures[k].lectureId));
      rec.Some? && Holds(rec.value, blocks[0].lectures[k].data)
  {
    var b := blocks[0];
    var id := ResolveLegacyId(ls, index, b.legacyUserId).value;
    var ps' := MigrateLectures(ps, id, b.lectures);
    assert MigrateBlock(ps, ls, index, b) == ps';
    assert MigrateProgress(ps, ls, index, blocks) == MigrateProgress(ps', ls, index, blocks[1..]);
    MigrateLecturesLastWins(ps, id, b.lectures, k);
    LastBlockForRest(ls, index, blocks);
    MigrateProgressUntouched(ps', ls, index, blocks[1..], (id, b.lectures[k].lectureId));
  }

  // ------------------------------------------------------------- notes

  /** The stored note carries every field the legacy note sets. */
  predicate ReflectsNote(n: SharedNote, l: LegacyNote) {
    && NoteKey(n) == (l.lectureNumber, l.email, l.date)
    && (l.textContent.Some? ==> n.textContent == l.textContent)
    && (l.fileRef.Some? ==> n.fileRef == l.fileRef)
    && (l.fileType.Some? ==> n.fileType == l.fileType)
    && (l.fileName.Some? ==> n.fileName == l.fileName)
    && (l.uploadedBy.Some? ==> n.uploadedBy == l.uploadedBy)
  }

  function LegacyNoteKey(l: LegacyNote): (int, string, Time) { (l.lectureNumber, l.email, l.date) }

  /** The update is the whole legacy note: its fields overwrite, absent ones stay. */
  function MergeNote(n: SharedNote, l: LegacyNote): SharedNote {
    n.(lectureNumber := l.lectureNumber, email := l.email, date := l.date,
       textContent := if l.textContent.Some? then l.textContent else n.textContent,
       fileRef := if l.fileRef.Some? then l.fileRef else n.fileRef,
       fileType := if l.fileType.Some? then l.fileType else n.fileType,
       fileName := if l.fileName.Some? then l.fileName else n.fileName,
       uploadedBy := if l.uploadedBy.Some? then l.uploadedBy else n.uploadedBy)
  }

  /** The note the upsert inserts. Validators do not run on this path, so a
      note without `uploadedBy` can be stored. */
  function NoteFrom(id: Id, l: LegacyNote): SharedNote {
    SharedNote(id, l.lectureNumber, l.textContent, l.fileRef, l.fileType, l.fileName, l.uploadedBy, l.email, l.date)
  }

  /** The first stored note with this natural key. */
  function NoteWithKey(notes: seq<SharedNote>, key: (int, string, Time)): Option<SharedNote> {
    match FirstIndex(notes, NoteKey, key)
    case Some(i) => Some(notes[i])
    case None => None
  }

  /** `SharedNote.findOneAndUpdate({ lectureNumber, email, date }, n, { upsert: true })`. */
  function UpsertNote(notes: seq<SharedNote>, nextId: Id, l: LegacyNote): (r: (seq<SharedNote>, Id))
    ensures var i := Slot(notes, NoteKey, LegacyNoteKey(l));
      && FirstIndex(r.0, NoteKey, LegacyNoteKey(l)) == Some(i)
      && ReflectsNote(r.0[i], l)
      && (i < |notes| ==> |r.0| == |notes| && r.1 == nextId && r.0[i].id == notes[i].id)
      && (i == |notes| ==> |r.0| == |notes| + 1 && r.1 == nextId + 1 && r.0[i].id == nextId)
      && (forall j :: 0 <= j < |notes| && j != i ==> r.0[j] == notes[j])
    ensures forall j :: 0 <= j < |notes| ==> r.0[j].id == notes[j].id && NoteKey(r.0[j]) == NoteKey(notes[j])
    ensures KeySet(r.0, NoteKey) == KeySet(notes, NoteKey) + {LegacyNoteKey(l)}
    ensures UniqueKeys(notes, NoteKey) ==> UniqueKeys(r.0, NoteKey)
    ensures FreshIds(notes, NoteIdOf, nextId) ==> FreshIds(r.0, NoteIdOf, r.1)
  {
    var k := LegacyNoteKey(l);
    var update := (n: SharedNote) => MergeNote(n, l);
    var create := NoteFrom(nextId, l);
    var ns := Upsert(notes, NoteKey, k, update, create);
    var i := Slot(notes, NoteKey, k);
    if i < |notes| then
      assert forall j :: 0 <= j < |ns| ==> ns[j].id == notes[j].id;
      SameIdsFresh(notes, ns, NoteIdOf, nextId);
      (ns, nextId)
    else
      assert ns == notes + [create];
      AppendFresh(notes, NoteIdOf, nextId, create);
      (ns, nextId + 1)
  }

  /** Upserting one legacy note leaves the lookup of every other key unchanged. */
  lemma UpsertNoteOtherKey(notes: seq<SharedNote>, nextId: Id, l: LegacyNote, key: (int, string, Time))
    requires key != LegacyNoteKey(l)
    ensures NoteWithKey(UpsertNote(notes, nextId, l).0, key) == NoteWithKey(notes, key)
  {
    UpsertOtherKey(notes, NoteKey, LegacyNoteKey(l), (n: SharedNote) => MergeNote(n, l), NoteFrom(nextId, l), key);
  }

  /** After one upsert the note with the legacy key reflects the legacy note. */
  lemma UpsertNoteFinds(notes: seq<SharedNote>, nextId: Id, l: LegacyNote)
    ensures var n := NoteWithKey(UpsertNote(notes, nextId, l).0, LegacyNoteKey(l));
      n.Some? && ReflectsNote(n.value, l)
  {
  }

  /** Step 5: the legacy notes upserted one after the other, in input order. */
  function UpsertNotes(notes: seq<SharedNote>, nextId: Id, ls: seq<LegacyNote>): (r: (seq<SharedNote>, Id))
    ensures |r.0| >= |notes| && r.1 >= nextId
    ensures forall j :: 0 <= j < |notes| ==> r.0[j].id == notes[j].id && NoteKey(r.0[j]) == NoteKey(notes[j])
    ensures KeySet(r.0, NoteKey) == KeySet(notes, NoteKey) + (set l | l in ls :: LegacyNoteKey(l))
    ensures UniqueKeys(notes, NoteKey) ==> UniqueKeys(r.0, NoteKey)
    ensures FreshIds(notes, NoteIdOf, nextId) ==> FreshIds(r.0, NoteIdOf, r.1)
    decreases |ls|
  {
    if |ls| == 0 then (notes, nextId)
    else
      var (ns, n) := UpsertNote(notes, nextId, ls[0]);
      NoteKeysSplit(ls);
      UpsertNotes(ns, n, ls[1..])
  }

  /** The keys of a legacy note list: the first note's and the rest's. */
  lemma NoteKeysSplit(ls: seq<LegacyNote>)
    requires |ls| > 0
    ensures (set l | l in ls :: LegacyNoteKey(l)) == {LegacyNoteKey(ls[0])} + (set l | l in ls[1..] :: LegacyNoteKey(l))
  {
    assert forall l :: l in ls <==> l == ls[0] || l in ls[1..];
  }

  /** Step 5 only appends notes whose natural key was not stored, at most one
      per key; so a key absent before ends with exactly one note. */
  lemma {:induction false} UpsertNotesAppendsNewKeys(notes: seq<SharedNote>, nextId: Id, ls: seq<LegacyNote>)
    ensures var r := UpsertNotes(notes, nextId, ls).0;
      && (forall j :: |notes| <= j < |r| ==> NoteKey(r[j]) !in KeySet(notes, NoteKey))
      && UniqueKeys(r[|notes|..], NoteKey)
    decreases |ls|
  {
    if |ls| > 0 {
      var (ns, n) := UpsertNote(notes, nextId, ls[0]);
      UpsertNotesAppendsNewKeys(ns, n, ls[1..]);
      var r := UpsertNotes(ns, n, ls[1..]).0;
      assert UpsertNotes(notes, nextId, ls).0 == r;
      if |ns| == |notes| + 1 {
        var k := LegacyNoteKey(ls[0]);
        assert NoteKey(ns[|notes|]) == k;
        assert FirstIndex(notes, NoteKey, k).None?;
        assert forall x :: x in notes ==> NoteKey(x) != k by {
          forall x | x in notes ensures NoteKey(x) != k {
            var j :| 0 <= j < |notes| && notes[j] == x;
          }
        }
      }
      AppendedKeysFresh(notes, ns, r);
    }
  }

  /** Bookkeeping for `UpsertNotes`: the notes appended over two upsert
      stages carry keys that are new and pairwise distinct. */
  lemma AppendedKeysFresh(notes: seq<SharedNote>, ns: seq<SharedNote>, r: seq<SharedNote>)
    requires |notes| <= |ns| <= |notes| + 1 <= |r| + 1 && |ns| <= |r|
    requires forall j :: 0 <= j < |notes| ==> NoteKey(ns[j]) == NoteKey(notes[j])
    requires forall j :: 0 <= j < |ns| ==> NoteKey(r[j]) == NoteKey(ns[j])
    requires |ns| == |notes| + 1 ==> NoteKey(ns[|notes|]) !in KeySet(notes, NoteKey)
    requires forall j :: |ns| <= j < |r| ==> NoteKey(r[j]) !in KeySet(ns, NoteKey)
    requires UniqueKeys(r[|ns|..], NoteKey)
    ensures forall j :: |notes| <= j < |r| ==> NoteKey(r[j]) !in KeySet(notes, NoteKey)
    ensures UniqueKeys(r[|notes|..], NoteKey)
  {
    assert forall x :: x in notes ==> NoteKey(x) in KeySet(ns, NoteKey) by {
      forall x | x in notes ensures NoteKey(x) in KeySet(ns, NoteKey) {
        var j :| 0 <= j < |notes| && notes[j] == x;
        assert ns[j] in ns;
      }
    }
    assert KeySet(notes, NoteKey) <= KeySet(ns, NoteKey);
    var tail := r[|notes|..];
    forall i, j | 0 <= i < j < |tail| ensures NoteKey(tail[i]) != NoteKey(tail[j]) {
      if |notes| + i < |ns| {
        assert |ns| == |notes| + 1 && i == 0;
        assert NoteKey(tail[i]) == NoteKey(ns[|notes|]);
        assert ns[|notes|] in ns;
        assert NoteKey(tail[j]) !in KeySet(ns, NoteKey);
      } else {
        assert tail[i] == r[|ns|..][|notes| + i - |ns|];
        assert tail[j] == r[|ns|..][|notes| + j - |ns|];
      }
    }
  }

  /** `k` is the last position of the legacy notes carrying its natural key. */
  predicate LastWithKey(ls: seq<LegacyNote>, k: int) {
    0 <= k < |ls| && forall j :: k < j < |ls| ==> LegacyNoteKey(ls[j]) != LegacyNoteKey(ls[k])
  }

  /** Stored notes whose key no legacy note carries come out of step 5 unchanged. */
  lemma {:induction false} UpsertNotesUntouched(notes: seq<SharedNote>, nextId: Id, ls: seq<LegacyNote>, key: (int, string, Time))
    requires forall j :: 0 <= j < |ls| ==> LegacyNoteKey(ls[j]) != key
    ensures NoteWithKey(UpsertNotes(notes, nextId, ls).0, key) == NoteWithKey(notes, key)
    decreases |ls|
  {
    if |ls| > 0 {
      var (ns, n) := UpsertNote(notes, nextId, ls[0]);
      UpsertNoteOtherKey(notes, nextId, ls[0], key);
      UpsertNotesUntouched(ns, n, ls[1..], key);
    }
  }

  /** Two legacy notes with the same (lectureNumber, email, date) leave the
      stored note with that key carrying the later one's fields. */
  lemma {:induction false} UpsertNotesLastWins(notes: seq<SharedNote>, nextId: Id, ls: seq<LegacyNote>, k: int)
    requires LastWithKey(ls, k)
    ensures var n := NoteWithKey(UpsertNotes(notes, nextId, ls).0, LegacyNoteKey(ls[k]));
      n.Some? && ReflectsNote(n.value, ls[k])
    decreases |ls|
  {
    var (ns, n) := UpsertNote(notes, nextId, ls[0]);
    if k == 0 {
      UpsertNoteFinds(notes, nextId, ls[0]);
      assert forall j :: 0 <= j < |ls[1..]| ==> LegacyNoteKey(ls[1..][j]) != LegacyNoteKey(ls[0]) by {
        forall j | 0 <= j < |ls[1..]| ensures LegacyNoteKey(ls[1..][j]) != LegacyNoteKey(ls[0]) {
          assert ls[1..][j] == ls[j + 1];
        }
      }
      UpsertNotesUntouched(ns, n, ls[1..], LegacyNoteKey(ls[0]));
    } else {
      assert LastWithKey(ls[1..], k - 1) by {
        forall j | k - 1 < j < |ls[1..]| ensures LegacyNoteKey(ls[1..][j]) != LegacyNoteKey(ls[1..][k - 1]) {
          assert ls[1..][j] == ls[j + 1];
        }
      }
      UpsertNotesLastWins(ns, n, ls[1..], k - 1);
      assert ls[1..][k - 1] == ls[k];
    }
  }

  // ----------------------------------------------------------- the route

  /** Step 1: `if (settings)` upsert the singleton. */
  function SettingsStep(s: Store, p: Payload): (r: Store)
    ensures p.settings.None? ==> r == s
    ensures p.settings.Some? ==> r == s.(settings := UpsertSettings(s.settings, p.settings.value))
    ensures Valid(s) ==> Valid(r)
  {
    if p.settings.Some? then s.(settings := UpsertSettings(s.settings, p.settings.value)) else s
  }

  /** Step 2: `if (users && users.length > 0)`. Only users and the id counter change. */
  function UsersStep(s: Store, p: Payload): (r: Store)
    ensures r == s.(users := r.users, nextId := r.nextId)
    ensures KeySet(r.users, EmailOf) == KeySet(s.users, EmailOf) + PayloadEmails(p)
    ensures r.nextId >= s.nextId
    ensures Valid(s) ==> Valid(r)
  {
    if p.users.Some? && |p.users.value| > 0 then
      var (users, n) := UpsertUsers(s.users, s.nextId, p.users.value);
      var r := s.(users := users, nextId := n);
      assert Valid(s) ==> FreshIds(r.notes, NoteIdOf, r.nextId) by {
        if Valid(s) {
          forall x | x in r.notes ensures x.id < r.nextId { }
        }
      }
      r
    else
      assert p.users.Some? ==> (set l | l in p.users.value :: l.email) == {};
      s
  }

  /** Step 4: `if (progress)` walk its blocks, resolving against `users`. Only progress changes. */
  function ProgressStep(s: Store, p: Payload, index: map<string, Id>): (r: Store)
    ensures r == s.(progress := r.progress)
    ensures |r.progress| >= |s.progress|
    ensures KeySet(r.progress, ProgressKey) == KeySet(s.progress, ProgressKey) + PayloadProgressKeys(p, index)
    ensures forall j :: 0 <= j < |s.progress| && s.progress[j].userId !in PayloadProgressIds(p, index) ==>
      r.progress[j] == s.progress[j]
    ensures p.progress.None? ==> r == s
    ensures Valid(s) ==> Valid(r)
  {
    if p.progress.Some? then
      s.(progress := MigrateProgress(s.progress, p.users.GetOr([]), index, p.progress.value))
    else s
  }

  /** The keys a payload's `progress` object writes, against `index`. */
  ghost function PayloadProgressKeys(p: Payload, index: map<string, Id>): set<(Id, int)> {
    if p.progress.Some? then ResolvedKeys(p.users.GetOr([]), index, p.progress.value) else {}
  }

  /** The store ids a payload's `progress` object writes for, against `index`. */
  ghost function PayloadProgressIds(p: Payload, index: map<string, Id>): set<Id> {
    if p.progress.Some? then ResolvedIds(p.users.GetOr([]), index, p.progress.value) else {}
  }

  /** The (lectureNumber, email, date) keys a payload's `notes` array brings. */
  ghost function PayloadNoteKeys(p: Payload): set<(int, string, Time)> {
    if p.notes.Some? then set l | l in p.notes.value :: LegacyNoteKey(l) else {}
  }

  /** Step 5: `if (notes && notes.length > 0)`. Only notes and the id counter
      change; the stored keys grow by exactly the payload's keys. */
  function NotesStep(s: Store, p: Payload): (r: Store)
    ensures r == s.(notes := r.notes, nextId := r.nextId)
    ensures |s.notes| <= |r.notes|
    ensures KeySet(r.notes, NoteKey) == KeySet(s.notes, NoteKey) + PayloadNoteKeys(p)
    ensures forall j :: 0 <= j < |s.notes| ==> r.notes[j].id == s.notes[j].id && NoteKey(r.notes[j]) == NoteKey(s.notes[j])
    ensures Valid(s) ==> Valid(r)
  {
    if p.notes.Some? && |p.notes.value| > 0 then
      var (notes, n) := UpsertNotes(s.notes, s.nextId, p.notes.value);
      var r := s.(notes := notes, nextId := n);
      assert Valid(s) ==> FreshIds(r.users, UserIdOf, r.nextId) by {
        if Valid(s) {
          forall x | x in r.users ensures x.id < r.nextId { }
        }
      }
      r
    else
      assert PayloadNoteKeys(p) == {};
      s
  }

  /** `users.find` on an absent `users` throws as soon as one progress block is visited. */
  predicate FailsOnProgress(p: Payload) {
    p.users.None? && p.progress.Some? && |p.progress.value| > 0
  }

  /** The legacy emails a payload brings. */
  function PayloadEmails(p: Payload): set<string> {
    if p.users.Some? then set l | l in p.users.value :: l.email else {}
  }

  /** The email index step 4 resolves against: built after step 2 has run. */
  function MigrationIndex(s: Store, p: Payload): map<string, Id> {
    EmailIndex(UsersStep(SettingsStep(s, p), p).users)
  }

  /** POST /api/migrate: answers 500 exactly when progress is sent without
      a users array, keeping the settings already written; otherwise runs
      every step and answers 200. Progress and notes keys grow by exactly
      the payload's keys. */
  function Migrate(s: Store, p: Payload): (r: (Store, Response))
    ensures FailsOnProgress(p) ==> r == (SettingsStep(s, p), ServerError)
    ensures !FailsOnProgress(p) ==> r.1 == Response(200, Migrated)
    ensures r.0.settings == SettingsStep(s, p).settings
    ensures KeySet(r.0.users, EmailOf) == KeySet(s.users, EmailOf) + PayloadEmails(p)
    ensures !FailsOnProgress(p) ==>
      KeySet(r.0.progress, ProgressKey) == KeySet(s.progress, ProgressKey) + PayloadProgressKeys(p, MigrationIndex(s, p))
    ensures !FailsOnProgress(p) ==>
      KeySet(r.0.notes, NoteKey) == KeySet(s.notes, NoteKey) + PayloadNoteKeys(p)
    ensures FailsOnProgress(p) ==> r.0.progress == s.progress && r.0.notes == s.notes
    ensures |s.notes| <= |r.0.notes|
    ensures forall j :: 0 <= j < |s.notes| ==> r.0.notes[j].id == s.notes[j].id && NoteKey(r.0.notes[j]) == NoteKey(s.notes[j])
    ensures Valid(s) ==> Valid(r.0)
  {
    var s1 := SettingsStep(s, p);
    var s2 := UsersStep(s1, p);
    if FailsOnProgress(p) then
      assert s2 == s1;
      (s2, ServerError)
    else
      var s3 := ProgressStep(s2, p, MigrationIndex(s, p));
      var s4 := NotesStep(s3, p);
      (s4, Response(200, Migrated))
  }

  /** Users created by step 2 are resolvable in step 4: every lecture entry
      of a block whose legacy id names a legacy user ends up as a Progress
      record of the stored user with that legacy user's email. */
  lemma MigratedUsersResolvable(s: Store, p: Payload, b: LegacyProgress, e: LectureEntry)
    requires Valid(s)
    requires p.users.Some? && p.progress.Some?
    requires b in p.progress.value && e in b.lectures
    requires exists i :: 0 <= i < |p.users.value| && p.users.value[i].id == b.legacyUserId
    ensures var ls := p.users.value;
      var email := ls[FirstIndex(ls, LegacyIdOf, b.legacyUserId).value].email;
      var r := Migrate(s, p).0;
      exists u, q :: u in r.users && q in r.progress && u.email == email && q.userId == u.id && q.lectureId == e.lectureId
  {
    var ls := p.users.value;
    var i := FirstIndex(ls, LegacyIdOf, b.legacyUserId).value;
    var s2 := UsersStep(SettingsStep(s, p), p);
    var index := EmailIndex(s2.users);
    var s3 := ProgressStep(s2, p, index);
    assert Migrate(s, p).0 == NotesStep(s3, p);
    assert ls[i] in ls;
    var u := StoredEmailResolves(ls, s2.users, b.legacyUserId);
    assert (u.id, e.lectureId) in KeySet(s3.progress, ProgressKey);
    var q :| q in s3.progress && ProgressKey(q) == (u.id, e.lectureId);
  }

  /** The written values survive the whole route: the record for a lecture
      holds the last entry for it in the last block resolving to that user. */
  lemma MigrateLastEntryWins(s: Store, p: Payload, m: int, k: int)
    requires !FailsOnProgress(p) && p.progress.Some?
    requires LastBlockFor(p.users.GetOr([]), MigrationIndex(s, p), p.progress.value, m)
    requires LastEntry(p.progress.value[m].lectures, k)
    ensures var b := p.progress.value[m];
      var id := ResolveLegacyId(p.users.GetOr([]), MigrationIndex(s, p), b.legacyUserId).value;
      var rec := RecordAt(Migrate(s, p).0.progress, (id, b.lectures[k].lectureId));
      rec.Some? && Holds(rec.value, b.lectures[k].data)
  {
    var s2 := UsersStep(SettingsStep(s, p), p);
    var s3 := ProgressStep(s2, p, MigrationIndex(s, p));
    assert Migrate(s, p).0 == NotesStep(s3, p);
    MigrateProgressLastWins(s2.progress, p.users.GetOr([]), MigrationIndex(s, p), p.progress.value, m, k);
  }

  /** A legacy id whose legacy user's email is stored resolves, against the
      index of unique stored emails, to the id of the stored user with that email. */
  lemma StoredEmailResolves(ls: seq<LegacyUser>, users: seq<User>, legacyId: string) returns (u: User)
    requires UniqueKeys(users, EmailOf)
    requires FirstIndex(ls, LegacyIdOf, legacyId).Some?
    requires ls[FirstIndex(ls, LegacyIdOf, legacyId).value].email in KeySet(users, EmailOf)
    ensures u in users && u.email == ls[FirstIndex(ls, LegacyIdOf, legacyId).value].email
    ensures ResolveLegacyId(ls, EmailIndex(users), legacyId) == Some(u.id)
  {
    var email := ls[FirstIndex(ls, LegacyIdOf, legacyId).value].email;
    u :| u in users && u.email == email;
    var j :| 0 <= j < |users| && users[j] == u;
    EmailIndexAt(users, j);
  }

  /** A progress block whose legacy id names no legacy user writes nothing,
      provided no email is the string "undefined" (see `UndefinedKeyResolves`). */
  lemma MigrateSkipsUnknownLegacyIds(s: Store, p: Payload)
    requires p.users.Some?
    requires p.progress.Some? ==>
      forall b, l :: b in p.progress.value && l in p.users.value ==> l.id != b.legacyUserId
    requires UndefinedKey !in KeySet(s.users, EmailOf) && UndefinedKey !in PayloadEmails(p)
    ensures Migrate(s, p).0.progress == s.progress
    ensures Migrate(s, p).1 == Response(200, Migrated)
  {
    var s1 := SettingsStep(s, p);
    var s2 := UsersStep(s1, p);
    var index := EmailIndex(s2.users);
    var s3 := ProgressStep(s2, p, index);
    assert Migrate(s, p).0 == NotesStep(s3, p);
    assert UndefinedKey !in KeySet(s2.users, EmailOf);
    assert forall j :: 0 <= j < |s2.users| ==> s2.users[j].email != UndefinedKey by {
      forall j | 0 <= j < |s2.users| ensures s2.users[j].email != UndefinedKey {
        assert s2.users[j] in s2.users;
      }
    }
    assert UndefinedKey !in index;
    if p.progress.Some? {
      UnknownBlocksUnresolved(p.users.value, index, p.progress.value);
    }
  }

  /** No block whose legacy id names no legacy user resolves, absent an "undefined" email. */
  lemma UnknownBlocksUnresolved(ls: seq<LegacyUser>, index: map<string, Id>, blocks: seq<LegacyProgress>)
    requires forall b, l :: b in blocks && l in ls ==> l.id != b.legacyUserId
    requires UndefinedKey !in index
    ensures forall b :: b in blocks ==> ResolveLegacyId(ls, index, b.legacyUserId).None?
  {
    forall b | b in blocks ensures ResolveLegacyId(ls, index, b.legacyUserId).None? {
      assert forall i :: 0 <= i < |ls| ==> ls[i].id != b.legacyUserId by {
        forall i | 0 <= i < |ls| ensures ls[i].id != b.legacyUserId {
          assert ls[i] in ls;
        }
      }
    }
  }

  /** A worked instance: migrating one legacy user and one progress entry
      into the empty store creates that user and one record for its new id. */
  lemma MigrateExample()
    ensures var p := Payload(Some([ExampleUser()]), Some([LegacyProgress("legacy1", [ExampleEntry()])]), None, None);
      var r := Migrate(Empty(), p);
      && r.1 == Response(200, Migrated)
      && r.0.users == [User(0, Some("A"), "a@x.com", None, None, None, None)]
      && r.0.progress == [Progress(0, 5, Some(20240101), "", false)]
  {
    var l := ExampleUser();
    var b := LegacyProgress("legacy1", [ExampleEntry()]);
    var p := Payload(Some([l]), Some([b]), None, None);
    ExampleUsersStep();
    var s2 := UsersStep(Empty(), p);
    var index := EmailIndex(s2.users);
    assert index == map["a@x.com" := 0];
    ExampleProgressStep(index);
    assert ProgressStep(s2, p, index).progress == [Progress(0, 5, Some(20240101), "", false)];
  }

  /** The legacy user and lecture entry of `MigrateExample`. */
  function ExampleUser(): LegacyUser {
    LegacyUser("legacy1", "a@x.com", Some("A"), None, None, None, None)
  }

  function ExampleEntry(): LectureEntry {
    LectureEntry(5, ProgressPatch(Some(Some(20240101)), Some(""), Some(false)))
  }

  /** Step 2 of `MigrateExample`: the legacy user is inserted with id 0. */
  lemma ExampleUsersStep()
    ensures UpsertUsers([], 0, [ExampleUser()]).0 == [User(0, Some("A"), "a@x.com", None, None, None, None)]
  {
    var l := ExampleUser();
    var u := User(0, Some("A"), "a@x.com", None, None, None, None);
    assert UserFrom(0, l) == u;
    assert UpsertUser([], 0, l).0 == [u] by {
      assert Upsert([], EmailOf, l.email, (x: User) => MergeUser(x, l), u) == [] + [u];
    }
    assert [l][1..] == [];
  }

  /** Step 4 of `MigrateExample`: the block resolves to id 0 and writes one record. */
  lemma ExampleProgressStep(index: map<string, Id>)
    requires index == map["a@x.com" := 0]
    ensures MigrateProgress([], [ExampleUser()], index, [LegacyProgress("legacy1", [ExampleEntry()])])
      == [Progress(0, 5, Some(20240101), "", false)]
  {
    var l := ExampleUser();
    var entry := ExampleEntry();
    var b := LegacyProgress("legacy1", [entry]);
    assert FirstIndex([l], LegacyIdOf, "legacy1") == Some(0);
    assert ResolveLegacyId([l], index, "legacy1") == Some(0);
    assert UpsertProgress([], 0, 5, entry.data) == [Progress(0, 5, Some(20240101), "", false)];
    assert [entry][1..] == [];
    assert MigrateLectures([], 0, [entry]) == MigrateLectures(UpsertProgress([], 0, 5, entry.data), 0, []);
    assert MigrateBlock([], [l], index, b) == [Progress(0, 5, Some(20240101), "", false)];
    assert [b][1..] == [];
  }
}
