/** The two SQLite tables, `users` and `tasks`, as row values, and the
    invariants their declarations impose. */
module Schema {
  import opened Common

  /** A value of SQLite's CURRENT_TIMESTAMP; the caller supplies the clock. */
  type Timestamp = int

  datatype Status = Pending | Completed

  function StatusText(s: Status): string {
    match s
    case Pending => "pending"
    case Completed => "completed"
  }

  /** The column constraint `CHECK (status IN ('pending', 'completed'))`, read
      as a parser from the stored text to the enumeration. */
  function ParseStatus(text: string): (r: Option<Status>)
    ensures r.Some? <==> text == "pending" || text == "completed"
    ensures r.Some? ==> StatusText(r.value) == text
  {
    if text == "pending" then Some(Pending)
    else if text == "completed" then Some(Completed)
    else None
  }

  /** Parsing the text of a status gives that status back. */
  lemma StatusRoundTrip(s: Status)
    ensures ParseStatus(StatusText(s)) == Some(s)
  {
  }

  /** A row of `tasks`. `description` and `dueDate` are nullable; `status` is
      nullable too, because a CHECK constraint lets NULL through. */
  datatype Task = Task(
    id: int,
    title: string,
    description: Option<string>,
    status: Option<Status>,
    dueDate: Option<string>,
    userId: int,
    createdAt: Timestamp,
    updatedAt: Timestamp)

  /** A row of `users`; `password` holds the bcrypt hash. */
  datatype User = User(id: int, name: string, email: string, password: string, createdAt: Timestamp)

  /** INTEGER PRIMARY KEY: no two task rows share an id. */
  predicate TaskIdsUnique(rows: seq<Task>) {
    forall i, j :: 0 <= i < j < |rows| ==> rows[i].id != rows[j].id
  }

  /** AUTOINCREMENT: every id handed out so far lies in [1, next). */
  predicate TaskIdsBelow(rows: seq<Task>, next: int) {
    forall i :: 0 <= i < |rows| ==> 1 <= rows[i].id < next
  }

  predicate UserIdsUnique(users: seq<User>) {
    forall i, j :: 0 <= i < j < |users| ==> users[i].id != users[j].id
  }

  predicate UserIdsBelow(users: seq<User>, next: int) {
    forall i :: 0 <= i < |users| ==> 1 <= users[i].id < next
  }

  /** `email TEXT UNIQUE`. */
  predicate EmailsUnique(users: seq<User>) {
    forall i, j :: 0 <= i < j < |users| ==> users[i].email != users[j].email
  }
}
