/** Responses of the routes: a status code and the JSON payload's shape.
    Error message texts are not modelled; every failure carries `Error`. */
module Http {
  import opened Wrappers
  import opened Models

  /** The `user` object of the login and profile responses. */
  datatype Account = Account(
    id: Id,
    name: Option<string>,
    email: string,
    role: Option<string>,
    avatar: Option<string>)

  /** The value stored under a lecture id by `GET /api/progress/:userId`. */
  datatype ProgressEntry = ProgressEntry(completedAt: Option<Time>, note: string, hasNotes: bool)

  /** One row of the admin user list, with the user's progress keyed by lecture. */
  datatype AdminView = AdminView(
    id: Id,
    name: Option<string>,
    email: string,
    role: Option<string>,
    avatar: Option<string>,
    createdAt: Option<Time>,
    progress: map<int, Progress>)

  datatype Body =
    | Registered(id: Id, name: Option<string>, email: string, role: Option<string>)
    | SignedIn(account: Account)
    | ProgressMap(entries: map<int, ProgressEntry>)
    | ProgressDoc(record: Progress)
    | NoteList(notes: seq<SharedNote>)
    | NoteDoc(note: SharedNote)
    | SettingsDoc(settings: Settings)
    | UserList(views: seq<AdminView>)
    | Ack        // `{ message }` on a successful delete
    | Migrated   // `{ success: true, message }`
    | Error      // `{ message }` on 400, 401 and 500

  datatype Response = Response(status: int, body: Body)

  const BadRequest := Response(400, Error)
  const Unauthorized := Response(401, Error)
  const ServerError := Response(500, Error)

  function AccountOf(u: User): Account {
    Account(u.id, u.name, u.email, u.role, u.avatar)
  }
}
