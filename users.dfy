/** The `users` table: rows carry the stored password hash; reads project
    them onto the shapes the store returns. */
module UserTable {
  import opened Results
  import opened Types
  import Rows

  /** A row of `users(id, username, password_hash, role, name, email, created_at)`. */
  datatype UserRow = UserRow(
    id: nat,
    username: string,
    passwordHash: string,
    role: Role,
    name: string,
    email: Option<string>,
    createdAt: int)

  /** The `WHERE username = …` condition: exact, case-sensitive equality. */
  function HasUsername(username: string): UserRow -> bool {
    (u: UserRow) => u.username == username
  }

  /** The `WHERE id = …` condition. */
  function HasId(id: nat): UserRow -> bool {
    (u: UserRow) => u.id == id
  }

  /** The `WHERE role = 'student'` condition. */
  function IsStudent(u: UserRow): bool {
    u.role == Student
  }

  /** Primary key and unique username, with every id below the counter. */
  ghost predicate WellFormed(rows: seq<UserRow>, nextId: nat) {
    && (forall i :: 0 <= i < |rows| ==> rows[i].id < nextId)
    && (forall i, j :: 0 <= i < j < |rows| ==> rows[i].id != rows[j].id)
    && (forall i, j :: 0 <= i < j < |rows| ==> rows[i].username != rows[j].username)
  }

  /** `SELECT id, username, role, name, email` projected onto a User. */
  function PublicView(u: UserRow): (r: User)
    ensures HasId(r.id)(u) && HasUsername(r.username)(u)
    ensures r.role == Student <==> IsStudent(u)
    ensures r.name == u.name && r.email == u.email
  {
    User(u.id, u.username, u.role, u.name, u.email)
  }

  /** The record built by `getUserByUsernameForAuth`. Its SELECT does not
      name `created_at`, so that field is always undefined. */
  function AuthView(u: UserRow): (r: UserForAuth)
    ensures r == InsertedView(u).(createdAt := None)
  {
    UserForAuth(u.id, u.username, u.passwordHash, u.role, u.name, u.email, None)
  }

  /** The record returned by `INSERT … RETURNING`, `created_at` included. */
  function InsertedView(u: UserRow): (r: UserForAuth)
    ensures HasId(r.id)(u) && HasUsername(r.username)(u)
    ensures r.passwordHash == u.passwordHash
    ensures r.role == u.role && r.name == u.name && r.email == u.email
    ensures r.createdAt == Some(u.createdAt)
  {
    UserForAuth(u.id, u.username, u.passwordHash, u.role, u.name, u.email, Some(u.createdAt))
  }

  /** The first row whose username is exactly `username`. */
  function ByUsername(rows: seq<UserRow>, username: string): (r: Option<UserRow>)
    ensures r.Some? ==> r.value in rows && r.value.username == username
    ensures r.None? <==> forall u :: u in rows ==> u.username != username
  {
    Rows.FirstWhere(rows, HasUsername(username))
  }

  /** The first row whose id is `id`. */
  function ById(rows: seq<UserRow>, id: nat): (r: Option<UserRow>)
    ensures r.Some? ==> r.value in rows && r.value.id == id
    ensures r.None? <==> forall u :: u in rows ==> u.id != id
  {
    Rows.FirstWhere(rows, HasId(id))
  }

  /** The student rows, in storage order. */
  function Students(rows: seq<UserRow>): (r: seq<UserRow>)
    ensures forall u :: u in r <==> u in rows && u.role == Student
    ensures forall u :: multiset(r)[u] == if u.role == Student then multiset(rows)[u] else 0
  {
    Rows.Where(rows, IsStudent)
  }

  /** `getAllStudents`' rows mapped to public views: one view per student
      row, in storage order. */
  function StudentViews(rows: seq<UserRow>): (r: seq<User>)
    ensures |r| == |Students(rows)|
    ensures forall i :: 0 <= i < |r| ==> r[i] == PublicView(Students(rows)[i])
  {
    Rows.Project(Students(rows), PublicView)
  }

  /** The student views are those of every student and of nobody else. */
  lemma StudentViewsCoverStudents(rows: seq<UserRow>)
    ensures forall v :: v in StudentViews(rows) ==> v.role == Student
    ensures forall u :: u in rows && u.role == Student ==> PublicView(u) in StudentViews(rows)
    ensures forall v :: v in StudentViews(rows) ==> exists u :: u in rows && u.role == Student && v == PublicView(u)
  {
  }

  /** Under the unique constraint, looking up a stored username finds that
      very row, not merely one with the same name. */
  lemma ByUsernameFindsTheRow(rows: seq<UserRow>, nextId: nat, u: UserRow)
    requires WellFormed(rows, nextId)
    requires u in rows
    ensures ByUsername(rows, u.username) == Some(u)
  {
  }

  /** Under the primary key, looking up a stored id finds that very row. */
  lemma ByIdFindsTheRow(rows: seq<UserRow>, nextId: nat, u: UserRow)
    requires WellFormed(rows, nextId)
    requires u in rows
    ensures ById(rows, u.id) == Some(u)
  {
  }

  /** Appending a row with a fresh id and an unused username keeps both
      constraints. */
  lemma AppendKeepsWellFormed(rows: seq<UserRow>, nextId: nat, u: UserRow)
    requires WellFormed(rows, nextId)
    requires u.id == nextId
    requires ByUsername(rows, u.username).None?
    ensures WellFormed(rows + [u], nextId + 1)
  {
  }
}
