# Lecture-progress server: a Dafny model of its routes

This project models the REST back end of a lecture-tracking application: an
Express server (`server.js`) over four Mongoose collections. The collections
are Users, Progress (one record per user and lecture), SharedNotes and a
Settings singleton. Every route handler becomes a pure function from a
`Store` and a request to the new `Store` and a `Response`. The properties the
server promises are proved about those functions.

How the model represents the system:

- **Collections.** `Store` holds one sequence per collection, in the store's
  natural order. Module `Keyed` gives the Mongoose operations the handlers
  use, over any key function:
  - `FirstIndex` is `findOne`.
  - `Upsert` is `findOneAndUpdate` with `upsert: true`.
  - `Without` is `deleteMany`.
  - `DeleteFirst` is `findByIdAndDelete`.
  - `UniqueKeys` is a unique index.
- **Identifiers.** `_id`s of users and notes are natural numbers handed out by
  the counter `nextId`.
- **Dates.** Dates are integers, ordered like the instants they stand for.
- **Request bodies.** A field absent from a body is `None`. On update the
  stored value is then kept, because Mongoose drops `undefined` from an
  update. On insert the schema default applies. `completedAt` in a progress
  update is `Option<Option<Time>>`, so that an explicit `null` (which clears
  the date) can be told apart from an absent key.
- **Invariant.** `Models.Valid` is the store invariant:
  - unique emails;
  - at most one Progress per (userId, lectureId), from the compound unique
    index of `models/Progress.js`;
  - at most one Settings document;
  - ids below the counter.

  Every route preserves `Valid`, so any run of requests from the seeded
  start state keeps it (`Server.ServerValid`).
- **Where the source wins.** In two places the code evidently does not do
  what its authors meant, and the route functions follow the code as
  written:
  - Admin delete never removes notes. The comment at `server.js:266` wants
    the notes gone "for a clean wipe", and the reply at `server.js:271` says
    "User and their data deleted", but the lookup of the email runs after
    the user is deleted.
  - An unknown legacy id reads the key `"undefined"` of the email index. No
    comment speaks to this case; that such an id should resolve to nothing
    is inferred from the guard `if (mongoId)` at `server.js:207`.

  Each intended behaviour is a separate, proved member (see Findings).

Files, one module each:

| file | module | contents |
|---|---|---|
| `wrappers.dfy` | `Wrappers` | `Option` |
| `keyed.dfy` | `Keyed` | the store operations |
| `models.dfy` | `Models` | schemas, key functions, `Valid` |
| `http.dfy` | `Http` | responses |
| `auth.dfy` | `AuthRoutes` | auth routes |
| `progress.dfy` | `ProgressRoutes` | progress routes |
| `notes.dfy` | `NoteRoutes` | notes routes |
| `settings.dfy` | `SettingsRoutes` | settings routes |
| `migration.dfy` | `MigrateRoute` | the migration |
| `admin.dfy` | `AdminRoutes` | admin routes |
| `server.dfy` | `Server` | route table and request runs |

## Model

| member | source | states |
|---|---|---|
| Keyed.FirstIndex | server.js:60 | the result is the first position holding the key, or none exactly when no document holds it |
| Keyed.Upsert | server.js:109-113 | the first matching document is replaced by its update, or the created one is appended when none matches; every other position is unchanged, the key set gains the key, and unique keys stay unique |
| Keyed.UpsertOtherKey | server.js:109-113 | an upsert on one key leaves the lookup of every other key, and the document it finds, unchanged |
| Keyed.UpsertIdempotent | server.js:109-113 | repeating an upsert whose update is idempotent changes nothing |
| Keyed.Without | server.js:265 | the result is no longer than the input and holds no document with the key |
| Keyed.WithoutMembers | server.js:265 | deleteMany keeps exactly the documents whose key differs (both directions) |
| Keyed.WithoutKeepsUnique | server.js:265 | deleting documents keeps any other unique key unique |
| Keyed.DeleteFirst | server.js:142 | without a match nothing changes; under unique keys deleting by id equals deleting every document with that id |
| Models.SingletonSettings | server.js:165 | the Settings collection is unique under the empty filter exactly when it holds at most one document |
| AuthRoutes.Register | server.js:57-69 | a taken email answers 400 and changes nothing; otherwise exactly one user is appended with the given fields, role "user" and a fresh id, the other collections are untouched, 201 answers that account, and the invariant is preserved |
| AuthRoutes.Login | server.js:71-80 | 200 exactly when some stored user has that email and password, answering with such a user's account; otherwise 401 |
| AuthRoutes.UpdateProfile | server.js:82-90 | an unknown id answers 500 with the store unchanged; otherwise only that user's name and avatar change, each only when given, and the answer is the updated account |
| AuthRoutes.SeedAdmin | server.js:36-49 | afterwards the admin email is taken; an existing admin email leaves the store unchanged, otherwise an admin is appended who can log in with the seeded password |
| AuthRoutes.SeedAdminIdempotent | server.js:37-38 | seeding twice is seeding once |
| AuthRoutes.RegisterThenLogin | server.js:63-76 | after a successful registration, logging in with the same credentials answers 200 with the new account |
| AuthRoutes.RegisterTwice | server.js:60-61 | registering an email twice: the second attempt answers 400, changes nothing, and exactly one user has that email |
| ProgressRoutes.Created | models/Progress.js:4-8 | a new record has the filter's userId and lectureId, an absent note defaults to "", an absent hasNotes defaults to false, and an absent completedAt stays absent |
| ProgressRoutes.UpsertProgress | server.js:109-113 | the first record with the key is patched, or a record with the schema defaults is appended when there is none; either way it holds every field the body gives, other records are unchanged and the key stays unique |
| ProgressRoutes.UpsertProgressFinds | server.js:109-113 | after the upsert, the lookup of the key finds a record holding every field the body gives |
| ProgressRoutes.UpsertProgressOtherKey | server.js:109-113 | the upsert leaves the lookup of every other key unchanged |
| ProgressRoutes.UserProgress | server.js:95-99 | the map's keys are exactly the lecture ids of that user's records, and each value is a record of that user for that lecture |
| ProgressRoutes.UserProgressExact | models/Progress.js:12 | under the compound unique index, every record of the user is the value under its own lecture id |
| ProgressRoutes.GetProgress | server.js:93-104 | answers 200 with one entry per lecture the user has a record for, carrying that record's completedAt, note and hasNotes |
| ProgressRoutes.PostProgress | server.js:106-118 | only Progress changes; the record for (userId, lectureId) holds every field the body gives, other records are unchanged, at most one record is added, and the invariant is preserved |
| ProgressRoutes.PostProgressIdempotent | server.js:109-113 | posting the same progress twice leaves the same store as posting it once |
| ProgressRoutes.PostProgressLatestWins | models/Progress.js:11-12 | two posts for the same key leave one record, and each field the second post gives wins |
| NoteRoutes.CreateNote | server.js:130-138 | without lectureNumber, or with uploadedBy or email missing or empty (the schema's `required` rejects "" on a String path, models/SharedNote.js:9-10), the answer is 500 and nothing is stored; otherwise one note with a fresh id and the given fields is appended (date defaults to the request time) and 201 answers it |
| NoteRoutes.CreateNoteNeverDeduplicates | server.js:132-133 | posting the same note twice stores two notes with distinct ids |
| NoteRoutes.InsertByDate | server.js:123 | inserting into a newest-first list keeps it newest-first and is a permutation |
| NoteRoutes.SortByDateDesc | server.js:123 | the result is ordered newest first and is a permutation of the input |
| NoteRoutes.ListNotes | server.js:121-128 | answers 200 with every stored note, each once, newest first |
| NoteRoutes.DeleteNote | server.js:140-147 | always answers 200 and touches only notes; an unknown id changes nothing; under unique ids exactly the notes with other ids remain; the invariant is preserved |
| SettingsRoutes.NewSettings | models/Settings.js:4 | a created Settings document takes the given totalLectures, or 200 when absent |
| SettingsRoutes.UpsertSettings | server.js:165 | an empty collection gains exactly one document built from the patch; otherwise the first document takes the patch and the length is unchanged |
| SettingsRoutes.GetSettings | server.js:150-161 | with no document, one with totalLectures 200 is created and returned; otherwise the first document is returned and the store is unchanged |
| SettingsRoutes.GetSettingsTwice | server.js:152-156 | a second read changes nothing and returns the same document |
| SettingsRoutes.PutSettings | server.js:163-170 | afterwards exactly one document exists when there was at most one; it carries the given totalLectures, or the old value, or 200 when newly created |
| MigrateRoute.UpsertUser | server.js:187-191 | the user with the legacy email reflects every field the legacy record gives, keeping an existing user's id or taking a fresh one; lookups of other emails are unchanged |
| MigrateRoute.UpsertUsers | server.js:184-193 | the stored emails become the old ones plus the payload's; existing users keep id and email; uniqueness and fresh ids are preserved |
| MigrateRoute.UpsertUsersUntouched | server.js:185-192 | a stored user whose email no legacy record mentions is left unchanged |
| MigrateRoute.UpsertUsersLastWins | server.js:185-192 | the stored user for an email reflects the last legacy record with that email |
| MigrateRoute.UsersStepNeverDuplicates | server.js:187-191 | migrating users keeps emails unique, whatever duplicates the payload holds |
| MigrateRoute.EmailIndex | server.js:196-198 | the map's keys are exactly the stored emails, each mapped to the id of a user with that email |
| MigrateRoute.EmailIndexExact | server.js:196-198 | with unique emails, each stored email maps to its own user's id |
| MigrateRoute.ResolveLegacyId | server.js:205-206 | a resolved id is a stored user's id; when no stored email is "undefined" the resolution agrees with the intended one |
| MigrateRoute.ResolveLegacyIdIntended | server.js:205-207 | only a legacy id that some legacy user carries, with an email that is stored, resolves, and it resolves to that email's store id |
| MigrateRoute.UndefinedKeyResolves | server.js:205-206 | with a stored user whose email is "undefined", an unknown legacy id resolves as written but not as intended |
| MigrateRoute.MigrateLectures | server.js:208-214 | records of other users are unchanged, the stored keys become exactly the old ones plus the entries' (userId, lectureId), and uniqueness is preserved |
| MigrateRoute.MigrateLecturesUntouched | server.js:208-214 | the record under a key no entry writes is looked up unchanged |
| MigrateRoute.MigrateLecturesLastWins | server.js:208-214 | the record for a lecture holds every field the block's last entry for that lecture gives |
| MigrateRoute.ResolvedKeysSplit | server.js:204-208 | the keys and user ids a block list writes are the first block's plus the rest's |
| MigrateRoute.MigrateBlock | server.js:204-216 | an unresolved block writes nothing; a resolved one adds exactly its lectures' keys for the resolved id and leaves other users' records unchanged |
| MigrateRoute.MigrateProgress | server.js:200-217 | the stored keys become exactly the old ones plus the keys of the resolved blocks; records of users no block resolves to are unchanged; if no block resolves, progress is unchanged; uniqueness is preserved |
| MigrateRoute.MigrateProgressUntouched | server.js:204-216 | blocks that do not resolve to a key's user leave that key's record as it was |
| MigrateRoute.LastBlockForTail | server.js:204 | dropping the first block keeps a later last block for a user the last one |
| MigrateRoute.LastBlockForRest | server.js:204 | no block after the last one for a user resolves to that user |
| MigrateRoute.MigrateProgressLastWins | server.js:204-216 | the record for (user, lecture) holds the fields of the last entry for that lecture in the last block resolving to that user |
| MigrateRoute.FirstBlockWins | server.js:204-216 | when the first block is the last for its user, its last entry for a lecture is what the record holds |
| MigrateRoute.UpsertNote | server.js:221-225 | the note with the legacy (lectureNumber, email, date) key reflects the legacy note, keeping an existing id or taking a fresh one; other notes are unchanged |
| MigrateRoute.UpsertNotes | server.js:219-227 | the stored keys become exactly the old ones plus the legacy notes' keys; existing notes keep their ids and keys, ids stay fresh, and unique keys stay unique |
| MigrateRoute.UpsertNotesAppendsNewKeys | server.js:220-226 | notes are only ever appended for keys not yet stored, never duplicating a stored key |
| MigrateRoute.UpsertNotesUntouched | server.js:220-226 | a note whose key no legacy note carries is left unchanged |
| MigrateRoute.UpsertNotesLastWins | server.js:220-226 | the stored note for a key reflects the last legacy note with that key |
| MigrateRoute.SettingsStep | server.js:180-182 | settings change only when the payload has them, through the singleton upsert |
| MigrateRoute.UsersStep | server.js:184-193 | only users and the id counter change, and the stored emails become the old ones plus the payload's |
| MigrateRoute.ProgressStep | server.js:200-217 | only progress changes; its keys become exactly the old ones plus the keys the payload's resolving blocks write; records of users no block resolves to are unchanged |
| MigrateRoute.NotesStep | server.js:219-227 | only notes and the id counter change; the note keys become exactly the old ones plus the payload's; stored notes keep ids and keys |
| MigrateRoute.Migrate | server.js:173-233 | 500 exactly when progress is sent without users, keeping the settings already written and no other change; otherwise 200, with user emails, progress keys and note keys each becoming exactly the old ones plus the payload's; stored notes keep ids; the invariant is preserved |
| MigrateRoute.MigrateLastEntryWins | server.js:196-214 | after the whole route, the record for (user, lecture) holds the fields of the last entry for that lecture in the last block resolving to that user |
| MigrateRoute.MigratedUsersResolvable | server.js:196-214 | every lecture of a block whose legacy id names a payload user becomes a Progress record of the stored user with that user's email |
| MigrateRoute.StoredEmailResolves | server.js:196-206 | with unique stored emails, a legacy id whose legacy user's email is stored resolves to the id of the stored user with that email |
| MigrateRoute.MigrateSkipsUnknownLegacyIds | server.js:204-207 | blocks whose legacy id matches no payload user write nothing (when no stored email is "undefined") and the answer is still 200 |
| MigrateRoute.UnknownBlocksUnresolved | server.js:205-207 | a block whose id no legacy user carries does not resolve, when no stored email is "undefined" |
| MigrateRoute.MigrateExample | server.js:184-214 | migrating one legacy user with one progress entry into the empty store yields exactly that user and one record for its new id |
| AdminRoutes.ViewOf | server.js:241-254 | a row carries the user's id, name, email, role, avatar and createdAt, and its progress map holds exactly that user's records by lecture |
| AdminRoutes.AdminViewsMembers | server.js:238-255 | the rows are exactly the views of the users whose role is "user" (both directions) |
| AdminRoutes.AdminViewsConcat | server.js:238-241 | the list keeps store order |
| AdminRoutes.AdminViewsDistinct | server.js:238-241 | with unique user ids, no id appears in two rows |
| AdminRoutes.AdminList | server.js:236-260 | answers 200 listing exactly the users with role "user", each with its progress, and with unique user ids each in one row only |
| AdminRoutes.AdminDelete | server.js:262-275 | always 200; progress keeps exactly the records of other users; under unique ids exactly the other users remain and the notes are unchanged; the invariant is preserved |
| AdminRoutes.DeleteValid | server.js:264-265 | after the user delete the id no longer resolves, and deleting the user and their progress preserves the invariant |
| AdminRoutes.AdminDeleteIntended | server.js:264-271 | as intended: always 200; settings and the counter are unchanged; under unique ids exactly the other users remain; the progress of the user goes; when the user exists exactly the notes with other emails remain, and when it does not the notes are unchanged; the invariant is preserved |
| AdminRoutes.DeleteKeepsNotes | server.js:267-270 | for a user with one note, the delete as written keeps the note and the intended delete removes it |
| AdminRoutes.AdminListAfterDelete | server.js:262-265 | after deleting a user the admin list no longer shows that id |
| Server.Handle | server.js:57-275 | every route preserves the store invariant |
| Server.HandleReadOnly | server.js:71-260 | login, progress reads, the notes list and the admin list leave the store unchanged and answer 200, or 401 for a failed login |
| Server.HandleStatus | server.js:57-275 | every answer's status is one of 200, 201, 400, 401, 500 |
| Server.RunPreservesValid | server.js:57-275 | any sequence of requests from a valid store leaves a valid store |
| Server.ServerValid | server.js:36-49 | from start-up (empty store, admin seeded), any sequence of requests keeps emails unique, at most one Progress per user and lecture, at most one Settings document, and ids fresh |

## Left out

- HTTP plumbing is not modelled: CORS, JSON body parsing and its size limit, environment variables, logging and `app.listen`. Requests arrive as already-parsed values.
- The database connection, and the failure of the connection or of the seed, are left out; `SeedAdmin` is the seeding when it succeeds.
- Storage failures (any exception from the store answering 500) are not modelled. The 500s that are modelled come from the handlers' own logic: a null profile, missing required note fields, and migrating progress without users.
- ObjectId generation and casting are not modelled: ids are numbers, and a malformed id string (a cast error answering 500) cannot be expressed.
- Requests always carry every field the handler destructures. A missing `email` in register or login, or a missing key field in a legacy note, would put `undefined` into a filter; that case is not modelled.
- JSON `null` is modelled only for `completedAt`. For other fields, absent and null are both `None`.
- models/User.js is not part of this model. User fields are reconstructed from the routes, and the schema's own defaults and validators are not applied.
- Password hashing does not exist in the source; passwords are compared verbatim, as modelled.
- Error message texts are not modelled: only the status and the kind of body are.
- Concurrency and interleaving of requests are not modelled. Requests are handled one at a time, which is where the unique indexes are invariants.
- The `_id`s of Progress and Settings documents and the `__v` field are not modelled, since no route addresses them.
- Mongoose casting of the string lecture keys of a migration progress block to numbers is taken as done: lecture ids are integers.
- Legacy user ids are strings compared with `===`. A numeric legacy `id` never equals an object key, so such a user never resolves; the model types legacy ids as strings and does not represent that case.
- NoteRoutes.ListNotes: the order of notes with equal dates is not stated, because the store does not promise one; the model keeps input order for ties.
- Fields outside a schema, which Mongoose strict mode drops, are not representable in the request types.
- A process interrupted part-way through admin delete or migration is not modelled. Each request runs to completion.

## Findings

| source | as written | input that shows it | evidently intended | confidence | as-written member | corrected member |
|---|---|---|---|---|---|---|
| server.js:264-270 | the user is fetched again after `findByIdAndDelete` has removed it, so the lookup always yields nothing and the user's shared notes are never deleted | a store holding user 0 with email "a@x.com" and one note with that email; DELETE /api/admin/users/0 | read the email before deleting the user, then delete every note with that email | high; not executed | AdminRoutes.AdminDelete, shown by AdminRoutes.DeleteKeepsNotes | AdminRoutes.AdminDeleteIntended |
| server.js:205-206 | when no legacy user has the block's id, `find(...)?.email` is `undefined`, and `emailToId[undefined]` reads the property named "undefined" | a stored user with email "undefined" (id 7) and a migration whose progress block names a legacy id no payload user carries | an unknown legacy id resolves to nothing and its block is skipped | medium; not executed | MigrateRoute.ResolveLegacyId, shown by MigrateRoute.UndefinedKeyResolves | MigrateRoute.ResolveLegacyIdIntended |

The route functions (`AdminRoutes.AdminDelete`, `MigrateRoute.Migrate` via
`ResolveLegacyId`) and `Server.Handle` keep the behaviour as written. The
corrected members carry the intended contracts.
`MigrateRoute.ResolveLegacyId` is proved equal to the corrected resolution
whenever no stored email is "undefined".
