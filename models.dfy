/** The two tables of the schema: User and Complaint, their column
    defaults, nullability and length bounds. */
module Models {

  datatype Option<+T> = None | Some(value: T)

  /** The `status` column holds exactly one of three strings. */
  datatype Status = Pending | InProgress | Resolved

  /** The text the application writes into, and compares against, the
      `status` column. */
  function StatusText(s: Status): string
  {
    match s
    case Pending => "Pending"
    case InProgress => "In Progress"
    case Resolved => "Resolved"
  }

  /** Reads a `status` column value back; any other text is not a status. */
  function ParseStatus(t: string): (r: Option<Status>)
    ensures r.Some? ==> StatusText(r.value) == t
    ensures r.None? ==> t != "Pending" && t != "In Progress" && t != "Resolved"
  {
    if t == "Pending" then Some(Pending)
    else if t == "In Progress" then Some(InProgress)
    else if t == "Resolved" then Some(Resolved)
    else None
  }

  lemma StatusTextRoundTrip(s: Status)
    ensures ParseStatus(StatusText(s)) == Some(s)
    ensures |StatusText(s)| <= StatusColumnMax
  {
  }

  // Column widths of the schema.
  const UsernameColumnMax: nat := 100
  const TitleColumnMax: nat := 200
  const StatusColumnMax: nat := 50

  /** What the `password` column holds: the salt and the one-way digest
      produced by the password hasher, never the password itself. */
  datatype PasswordRecord = PasswordRecord(salt: string, digest: string)

  /** A row of the `user` table. */
  datatype User = User(
    id: nat,
    username: string,
    email: string,
    password: PasswordRecord,
    isAdmin: bool)

  /** A row of the `complaint` table. `resolvedAt` and `resolveNote` are
      nullable columns without a default; `createdAt` is a clock reading. */
  datatype Complaint = Complaint(
    id: nat,
    title: string,
    description: string,
    status: Status,
    createdAt: nat,
    resolvedAt: Option<nat>,
    resolveNote: Option<string>,
    userId: nat)

  /** The capability that the admin routes check. */
  predicate IsAdmin(u: User)
  {
    u.isAdmin
  }

  /** A complaint row as inserted: only title, description and owner are
      given; every other column takes its schema default. */
  function NewComplaintRow(id: nat, title: string, description: string, owner: nat, now: nat): Complaint
  {
    Complaint(id, title, description, Pending, now, None, None, owner)
  }

  /** A user row as registration inserts it: never an admin. */
  function NewUserRow(id: nat, username: string, email: string, password: PasswordRecord): User
  {
    User(id, username, email, password, false)
  }
}
