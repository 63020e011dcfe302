/** The record shapes of src/lib/types.ts as stored and returned by the store. */
module Types {
  import opened Results

  datatype Role = Teacher | Student

  /** One answer given during a practice round. */
  datatype Attempt = Attempt(wordId: string, userAnswer: string, correct: bool)

  /** A student's result for one round; `attempts` keeps submission order. */
  datatype StudentRoundProgress = StudentRoundProgress(
    studentId: string,
    unitId: string,
    roundId: string,
    score: int,
    attempts: seq<Attempt>,
    completed: bool,
    timestamp: int)

  /** The marks a teacher may give in an offline test. */
  type Grade = g: int | 2 <= g <= 5 witness 2

  /** One row of the offline score ledger; `id` and `date` are assigned by the server. */
  datatype OfflineTestScore = OfflineTestScore(
    id: nat,
    studentId: string,
    teacherId: string,
    score: Grade,
    notes: Option<string>,
    date: int)

  /** The public view of a user: no credential material. */
  datatype User = User(id: nat, username: string, role: Role, name: string, email: Option<string>)

  /** The view of a user handed to credential checking, hash included. */
  datatype UserForAuth = UserForAuth(
    id: nat,
    username: string,
    passwordHash: string,
    role: Role,
    name: string,
    email: Option<string>,
    createdAt: Option<int>)

  /** JavaScript's `s || null` on an optional string: both an absent value and
      the empty string become null. */
  function NullIfEmpty(s: Option<string>): (r: Option<string>)
    ensures r.None? <==> s.None? || s.value == ""
    ensures r.Some? ==> r == s
  {
    match s
    case None => None
    case Some(v) => if v == "" then None else s
  }
}
