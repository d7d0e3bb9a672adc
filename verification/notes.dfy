/** The shared-notes routes of server.js: list newest first, create through
    the SharedNote schema (required fields, default date), delete by id. */
module NoteRoutes {
  import opened Wrappers
  import opened Keyed
  import opened Models
  import opened Http

  /** The request body of POST /api/notes. `None` is a key the body lacks. */
  datatype NoteInput = NoteInput(
    lectureNumber: Option<int>,
    textContent: Option<string>,
    fileRef: Option<string>,
    fileType: Option<string>,
    fileName: Option<string>,
    uploadedBy: Option<string>,
    email: Option<string>,
    date: Option<Time>)

  /** The schema's required fields are all present, and its required
      strings are non-empty: Mongoose's `required` validator rejects "" on a
      String path, but accepts any number. */
  predicate HasRequired(input: NoteInput) {
    && input.lectureNumber.Some?
    && input.uploadedBy.Some? && input.uploadedBy.value != ""
    && input.email.Some? && input.email.value != ""
  }

  /** The stored note carries the body's fields, and the creation time when
      the body gives no date. */
  predicate Carries(n: SharedNote, input: NoteInput, now: Time) {
    && Some(n.lectureNumber) == input.lectureNumber
    && n.textContent == input.textContent
    && n.fileRef == input.fileRef
    && n.fileType == input.fileType
    && n.fileName == input.fileName
    && n.uploadedBy == input.uploadedBy
    && Some(n.email) == input.email
    && (input.date.Some? ==> n.date == input.date.value)
    && (input.date.None? ==> n.date == now)
  }

  /** POST /api/notes: a body lacking lectureNumber, or whose uploadedBy or
      email is missing or empty, fails
      validation on save (500) and nothing is stored; otherwise a new note
      with a fresh id is appended, whatever notes already exist, and returned with 201. */
  function CreateNote(s: Store, input: NoteInput, now: Time): (r: (Store, Response))
    ensures !HasRequired(input) ==> r == (s, ServerError)
    ensures HasRequired(input) ==>
      && r.1.status == 201 && r.1.body.NoteDoc?
      && r.0.notes == s.notes + [r.1.body.note]
      && r.1.body.note.id == s.nextId && r.0.nextId == s.nextId + 1
      && Carries(r.1.body.note, input, now)
      && r.0.users == s.users && r.0.progress == s.progress && r.0.settings == s.settings
    ensures Valid(s) ==> Valid(r.0)
  {
    if !HasRequired(input) then (s, ServerError)
    else
      var n := SharedNote(s.nextId, input.lectureNumber.value, input.textContent, input.fileRef,
                          input.fileType, input.fileName, input.uploadedBy, input.email.value,
                          input.date.GetOr(now));
      var s' := s.(notes := s.notes + [n], nextId := s.nextId + 1);
      assert forall i :: 0 <= i < |s.notes| ==> s'.notes[i] == s.notes[i];
      (s', Response(201, NoteDoc(n)))
  }

  /** Posting the same note twice stores two notes with distinct ids. */
  lemma CreateNoteNeverDeduplicates(s: Store, input: NoteInput, now: Time)
    requires HasRequired(input)
    ensures var s1 := CreateNote(s, input, now).0;
      var s2 := CreateNote(s1, input, now).0;
      && |s2.notes| == |s.notes| + 2
      && s2.notes[|s.notes|].id != s2.notes[|s.notes| + 1].id
      && s2.notes[|s.notes|].(id := 0) == s2.notes[|s.notes| + 1].(id := 0)
  {
  }

  /** Every date is at least every later one: the order of `sort({ date: -1 })`. */
  ghost predicate NewestFirst(ns: seq<SharedNote>) {
    forall i, j :: 0 <= i < j < |ns| ==> ns[i].date >= ns[j].date
  }

  /** Inserts a note into a newest-first sequence, ahead of notes of the same date. */
  function InsertByDate(n: SharedNote, ns: seq<SharedNote>): (r: seq<SharedNote>)
    requires NewestFirst(ns)
    ensures NewestFirst(r)
    ensures multiset(r) == multiset(ns) + multiset{n}
    ensures |r| == |ns| + 1
    ensures r[0] == n || (|ns| > 0 && r[0] == ns[0])
    decreases |ns|
  {
    if |ns| == 0 || n.date >= ns[0].date then [n] + ns
    else
      var tail := ns[1..];
      var rest := InsertByDate(n, tail);
      assert ns == [ns[0]] + tail;
      assert rest[0].date <= ns[0].date;
      var r := [ns[0]] + rest;
      assert forall j :: 1 <= j < |r| ==> r[j] == rest[j - 1];
      r
  }

  /** The notes reordered newest first; the same notes, each as often as before. */
  function SortByDateDesc(ns: seq<SharedNote>): (r: seq<SharedNote>)
    ensures NewestFirst(r)
    ensures multiset(r) == multiset(ns)
    decreases |ns|
  {
    if |ns| == 0 then []
    else
      assert ns == [ns[0]] + ns[1..];
      InsertByDate(ns[0], SortByDateDesc(ns[1..]))
  }

  /** GET /api/notes: every stored note, newest first. */
  function ListNotes(s: Store): (r: Response)
    ensures r.status == 200 && r.body.NoteList?
    ensures NewestFirst(r.body.notes)
    ensures multiset(r.body.notes) == multiset(s.notes)
  {
    Response(200, NoteList(SortByDateDesc(s.notes)))
  }

  /** DELETE /api/notes/:id: removes the note with that id, if any, and
      answers 200 either way; no other note and no other collection changes. */
  function DeleteNote(s: Store, id: Id): (r: (Store, Response))
    ensures r.1 == Response(200, Ack)
    ensures r.0 == s.(notes := r.0.notes)
    ensures (forall i :: 0 <= i < |s.notes| ==> s.notes[i].id != id) ==> r.0 == s
    ensures UniqueKeys(s.notes, NoteIdOf) ==>
      && (forall n :: n in r.0.notes <==> n in s.notes && n.id != id)
      && |r.0.notes| <= |s.notes|
    ensures Valid(s) ==> Valid(r.0)
  {
    var notes' := DeleteFirst(s.notes, NoteIdOf, id);
    WithoutMembers(s.notes, NoteIdOf, id);
    WithoutKeepsUnique(s.notes, NoteIdOf, id, NoteIdOf);
    (s.(notes := notes'), Response(200, Ack))
  }
}
