/** The progress routes of server.js and the Progress schema's write path:
    upsert on the unique (userId, lectureId) key, with the schema defaults
    applied when the upsert inserts. */
module ProgressRoutes {
  import opened Wrappers
  import opened Keyed
  import opened Models
  import opened Http

  /** The fields `{ completedAt, note, hasNotes }` of a progress write. `None`
      is a key absent from the request, which leaves the field as it is;
      `completedAt` may also be an explicit null (`Some(None)`). */
  datatype ProgressPatch = ProgressPatch(
    completedAt: Option<Option<Time>>,
    note: Option<string>,
    hasNotes: Option<bool>)

  /** Applies the fields present in the patch to an existing record. */
  function Patched(p: Progress, patch: ProgressPatch): Progress {
    p.(completedAt := patch.completedAt.GetOr(p.completedAt),
       note := patch.note.GetOr(p.note),
       hasNotes := patch.hasNotes.GetOr(p.hasNotes))
  }

  /** The record an upsert inserts: the filter's key, the patch's fields, and
      the schema defaults (no completion date, empty note, no notes) for the rest. */
  function Created(userId: Id, lectureId: int, patch: ProgressPatch): (r: Progress)
    ensures ProgressKey(r) == (userId, lectureId)
    ensures patch.completedAt.None? ==> r.completedAt.None?
    ensures patch.note.None? ==> r.note == ""
    ensures patch.hasNotes.None? ==> !r.hasNotes
    ensures Holds(r, patch)
  {
    Progress(userId, lectureId, patch.completedAt.GetOr(None), patch.note.GetOr(""), patch.hasNotes.GetOr(false))
  }

  /** The record carries every field the patch sets. */
  predicate Holds(p: Progress, patch: ProgressPatch) {
    && (patch.completedAt.Some? ==> p.completedAt == patch.completedAt.value)
    && (patch.note.Some? ==> p.note == patch.note.value)
    && (patch.hasNotes.Some? ==> p.hasNotes == patch.hasNotes.value)
  }

  /** `Progress.findOneAndUpdate({ userId, lectureId }, patch, { upsert: true })`.
      Afterwards exactly the first record with that key holds the patch,
      every record with another key is where it was, and the key stays unique. */
  function UpsertProgress(ps: seq<Progress>, userId: Id, lectureId: int, patch: ProgressPatch): (r: seq<Progress>)
    ensures var i := Slot(ps, ProgressKey, (userId, lectureId));
      && FirstIndex(r, ProgressKey, (userId, lectureId)) == Some(i)
      && Holds(r[i], patch)
      && (i < |ps| ==> |r| == |ps| && r[i] == Patched(ps[i], patch))
      && (i == |ps| ==> |r| == |ps| + 1 && r[i] == Created(userId, lectureId, patch))
      && (forall j :: 0 <= j < |ps| && j != i ==> r[j] == ps[j])
    ensures KeySet(r, ProgressKey) == KeySet(ps, ProgressKey) + {(userId, lectureId)}
    ensures UniqueKeys(ps, ProgressKey) ==> UniqueKeys(r, ProgressKey)
  {
    Upsert(ps, ProgressKey, (userId, lectureId), p => Patched(p, patch), Created(userId, lectureId, patch))
  }

  /** The record stored under a (userId, lectureId) key, as `findOne` finds it. */
  function RecordAt(ps: seq<Progress>, key: (Id, int)): Option<Progress> {
    match FirstIndex(ps, ProgressKey, key)
    case Some(i) => Some(ps[i])
    case None => None
  }

  /** After an upsert, the record under its key holds the patch. */
  lemma UpsertProgressFinds(ps: seq<Progress>, userId: Id, lectureId: int, patch: ProgressPatch)
    ensures var rec := RecordAt(UpsertProgress(ps, userId, lectureId, patch), (userId, lectureId));
      rec.Some? && Holds(rec.value, patch)
  {
  }

  /** An upsert leaves the record under every other key as it was. */
  lemma UpsertProgressOtherKey(ps: seq<Progress>, userId: Id, lectureId: int, patch: ProgressPatch, key: (Id, int))
    requires key != (userId, lectureId)
    ensures RecordAt(UpsertProgress(ps, userId, lectureId, patch), key) == RecordAt(ps, key)
  {
    UpsertOtherKey(ps, ProgressKey, (userId, lectureId), p => Patched(p, patch), Created(userId, lectureId, patch), key);
  }

  /** The records of one user, keyed by lecture id, built the way the routes
      build it: walking the records in order, a later record overwrites an
      earlier one under the same lecture id. */
  function UserProgress(ps: seq<Progress>, userId: Id): (m: map<int, Progress>)
    ensures m.Keys == set i | 0 <= i < |ps| && ps[i].userId == userId :: ps[i].lectureId
    ensures forall l :: l in m ==>
      exists i :: 0 <= i < |ps| && ps[i] == m[l] && ps[i].userId == userId && ps[i].lectureId == l
    decreases |ps|
  {
    if |ps| == 0 then map[]
    else
      var init := ps[..|ps| - 1];
      var rest := UserProgress(init, userId);
      var p := ps[|ps| - 1];
      assert forall i :: 0 <= i < |init| ==> init[i] == ps[i];
      if p.userId == userId then rest[p.lectureId := p] else rest
  }

  /** With the unique index in place, the user's map holds every one of that
      user's records under its own lecture id. */
  lemma UserProgressExact(ps: seq<Progress>, userId: Id)
    ensures UniqueKeys(ps, ProgressKey) ==>
      forall i :: 0 <= i < |ps| && ps[i].userId == userId ==>
        ps[i].lectureId in UserProgress(ps, userId) && UserProgress(ps, userId)[ps[i].lectureId] == ps[i]
  {
    var m := UserProgress(ps, userId);
    forall i | UniqueKeys(ps, ProgressKey) && 0 <= i < |ps| && ps[i].userId == userId
      ensures ps[i].lectureId in m && m[ps[i].lectureId] == ps[i]
    {
      var l := ps[i].lectureId;
      assert l in m;
      var j :| 0 <= j < |ps| && ps[j] == m[l] && ps[j].userId == userId && ps[j].lectureId == l;
      assert ProgressKey(ps[i]) == ProgressKey(ps[j]);
      assert i == j;
    }
  }

  /** The answer of GET /api/progress/:userId for one record. */
  function EntryOf(p: Progress): ProgressEntry {
    ProgressEntry(p.completedAt, p.note, p.hasNotes)
  }

  /** GET /api/progress/:userId: the map from lecture id to the state stored
      for that user; its keys are exactly the lecture ids of the user's records. */
  function GetProgress(s: Store, userId: Id): (r: Response)
    ensures r.status == 200 && r.body.ProgressMap?
    ensures r.body.entries.Keys == set i | 0 <= i < |s.progress| && s.progress[i].userId == userId :: s.progress[i].lectureId
    ensures UniqueKeys(s.progress, ProgressKey) ==>
      forall i :: 0 <= i < |s.progress| && s.progress[i].userId == userId ==>
        r.body.entries[s.progress[i].lectureId] == EntryOf(s.progress[i])
  {
    var m := UserProgress(s.progress, userId);
    UserProgressExact(s.progress, userId);
    Response(200, ProgressMap(map l | l in m :: EntryOf(m[l])))
  }

  /** POST /api/progress: upserts the record for (userId, lectureId) and
      answers with it; every other record and collection is left alone. */
  function PostProgress(s: Store, userId: Id, lectureId: int, patch: ProgressPatch): (r: (Store, Response))
    ensures r.0 == s.(progress := r.0.progress)
    ensures r.1.status == 200 && r.1.body.ProgressDoc?
    ensures ProgressKey(r.1.body.record) == (userId, lectureId) && Holds(r.1.body.record, patch)
    ensures r.1.body.record in r.0.progress
    ensures forall j :: 0 <= j < |s.progress| && ProgressKey(s.progress[j]) != (userId, lectureId) ==>
      j < |r.0.progress| && r.0.progress[j] == s.progress[j]
    ensures |s.progress| <= |r.0.progress| <= |s.progress| + 1
    ensures Valid(s) ==> Valid(r.0)
  {
    var ps := UpsertProgress(s.progress, userId, lectureId, patch);
    var i := Slot(s.progress, ProgressKey, (userId, lectureId));
    (s.(progress := ps), Response(200, ProgressDoc(ps[i])))
  }

  /** Repeating the same POST /api/progress changes nothing more and gets the same answer. */
  lemma PostProgressIdempotent(s: Store, userId: Id, lectureId: int, patch: ProgressPatch)
    ensures var (s1, r1) := PostProgress(s, userId, lectureId, patch);
      PostProgress(s1, userId, lectureId, patch) == (s1, r1)
  {
    var k := (userId, lectureId);
    var update := (p: Progress) => Patched(p, patch);
    var create := Created(userId, lectureId, patch);
    UpsertIdempotent(s.progress, ProgressKey, k, update, create);
    var ps := UpsertProgress(s.progress, userId, lectureId, patch);
    assert Slot(ps, ProgressKey, k) == Slot(s.progress, ProgressKey, k);
  }

  /** Two posts for the same key leave one record, holding the later post's fields. */
  lemma PostProgressLatestWins(s: Store, userId: Id, lectureId: int, first: ProgressPatch, second: ProgressPatch)
    requires Valid(s)
    ensures var s2 := PostProgress(PostProgress(s, userId, lectureId, first).0, userId, lectureId, second).0;
      && Valid(s2)
      && (exists i :: 0 <= i < |s2.progress| && ProgressKey(s2.progress[i]) == (userId, lectureId) && Holds(s2.progress[i], second))
      && (forall i, j :: 0 <= i < j < |s2.progress| ==> ProgressKey(s2.progress[i]) != ProgressKey(s2.progress[j]))
  {
    var s1 := PostProgress(s, userId, lectureId, first).0;
    var s2 := PostProgress(s1, userId, lectureId, second).0;
    var i := Slot(s1.progress, ProgressKey, (userId, lectureId));
    assert ProgressKey(s2.progress[i]) == (userId, lectureId) && Holds(s2.progress[i], second);
  }
}
