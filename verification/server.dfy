/** The route table of server.js: each request is handled by exactly one
    route function, against the store the previous request left behind. */
module Server {
  import opened Wrappers
  import opened Models
  import opened Http
  import AuthRoutes
  import ProgressRoutes
  import NoteRoutes
  import SettingsRoutes
  import MigrateRoute
  import AdminRoutes

  datatype Request =
    | Register(name: string, email: string, password: string)       // POST /api/auth/register
    | Login(email: string, password: string)                        // POST /api/auth/login
    | Profile(id: Id, newName: Option<string>, avatar: Option<string>)  // PUT /api/auth/profile
    | GetProgress(userId: Id)                                        // GET /api/progress/:userId
    | PostProgress(userId: Id, lectureId: int, patch: ProgressRoutes.ProgressPatch)  // POST /api/progress
    | ListNotes                                                      // GET /api/notes
    | CreateNote(input: NoteRoutes.NoteInput)                        // POST /api/notes
    | DeleteNote(id: Id)                                             // DELETE /api/notes/:id
    | GetSettings                                                    // GET /api/settings
    | PutSettings(fields: SettingsRoutes.SettingsPatch)              // PUT /api/settings
    | Migrate(payload: MigrateRoute.Payload)                         // POST /api/migrate
    | ListUsers                                                      // GET /api/admin/users
    | DeleteUser(id: Id)                                             // DELETE /api/admin/users/:id

  /** The requests that only read the store. */
  predicate ReadOnly(req: Request) {
    req.Login? || req.GetProgress? || req.ListNotes? || req.ListUsers?
  }

  /** Dispatches one request; `now` is the clock reading a new note's date
      defaults to. Every route keeps the store invariant. */
  function Handle(s: Store, req: Request, now: Time): (r: (Store, Response))
    ensures Valid(s) ==> Valid(r.0)
  {
    match req
    case Register(name, email, password) => AuthRoutes.Register(s, name, email, password)
    case Login(email, password) => (s, AuthRoutes.Login(s, email, password))
    case Profile(id, newName, avatar) => AuthRoutes.UpdateProfile(s, id, newName, avatar)
    case GetProgress(userId) => (s, ProgressRoutes.GetProgress(s, userId))
    case PostProgress(userId, lectureId, patch) => ProgressRoutes.PostProgress(s, userId, lectureId, patch)
    case ListNotes => (s, NoteRoutes.ListNotes(s))
    case CreateNote(input) => NoteRoutes.CreateNote(s, input, now)
    case DeleteNote(id) => NoteRoutes.DeleteNote(s, id)
    case GetSettings => SettingsRoutes.GetSettings(s)
    case PutSettings(fields) => SettingsRoutes.PutSettings(s, fields)
    case Migrate(payload) => MigrateRoute.Migrate(s, payload)
    case ListUsers => (s, AdminRoutes.AdminList(s))
    case DeleteUser(id) => AdminRoutes.AdminDelete(s, id)
  }

  /** Reads leave the store as it was and answer 200, or 401 for a failed login. */
  lemma HandleReadOnly(s: Store, req: Request, now: Time)
    requires ReadOnly(req)
    ensures Handle(s, req, now).0 == s
    ensures Handle(s, req, now).1.status == 200 || Handle(s, req, now).1.status == 401
  {
  }

  /** Every answer carries one of the statuses the handlers send. */
  lemma HandleStatus(s: Store, req: Request, now: Time)
    ensures Handle(s, req, now).1.status in {200, 201, 400, 401, 500}
  {
  }

  /** Handles a sequence of timestamped requests in order, returning the final store. */
  function Run(s: Store, reqs: seq<(Request, Time)>): Store
    decreases |reqs|
  {
    if |reqs| == 0 then s
    else Run(Handle(s, reqs[0].0, reqs[0].1).0, reqs[1..])
  }

  /** From the empty store, any sequence of requests leaves unique emails, at
      most one Progress per (userId, lectureId), at most one Settings document
      and fresh ids. */
  lemma {:induction false} RunPreservesValid(s: Store, reqs: seq<(Request, Time)>)
    requires Valid(s)
    ensures Valid(Run(s, reqs))
    decreases |reqs|
  {
    if |reqs| > 0 {
      RunPreservesValid(Handle(s, reqs[0].0, reqs[0].1).0, reqs[1..]);
    }
  }

  /** The server as started: the empty store with the admin seeded, then the requests. */
  lemma ServerValid(reqs: seq<(Request, Time)>)
    ensures Valid(Run(AuthRoutes.SeedAdmin(Empty()), reqs))
  {
    RunPreservesValid(AuthRoutes.SeedAdmin(Empty()), reqs);
  }
}
