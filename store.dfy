/** The persistence facade of src/lib/store.ts: three tables, writes as
    methods that change them, reads as functions over them. Each statement
    the source sends is one atomic step; whether the database runs it or
    fails is the `db` parameter. Reads turn a failure into an absent or
    empty result; writes report it and change nothing. */
module Facade {
  import opened Results
  import opened Types
  import Rows
  import UserTable
  import ProgressTable
  import ScoreLedger

  class Store {
    var users: seq<UserTable.UserRow>
    var nextUserId: nat
    var progress: seq<StudentRoundProgress>
    var scores: seq<OfflineTestScore>
    var nextScoreId: nat

    /** The tables' constraints: user ids and usernames unique, one progress
        row per key, offline score ids unique. */
    ghost predicate Valid()
      reads this
    {
      && UserTable.WellFormed(users, nextUserId)
      && ProgressTable.UniqueKeys(progress)
      && ScoreLedger.WellFormed(scores, nextScoreId)
    }

    constructor ()
      ensures Valid()
      ensures users == [] && progress == [] && scores == []
    {
      users, nextUserId := [], 0;
      progress := [];
      scores, nextScoreId := [], 0;
    }

    // --- Users ---

    /** `getUserByUsernameForAuth`: the user whose username is exactly the
        argument, or null when there is none or the query fails. */
    function GetUserByUsernameForAuth(username: string, db: Connection): (r: Option<UserForAuth>)
      reads this
      ensures db.Unavailable? ==> r.None?
      ensures db.Available? ==> (r.None? <==> forall u :: u in users ==> u.username != username)
      ensures r.Some? ==> r.value.username == username && r.value.createdAt.None?
      ensures r.Some? ==> exists u :: u in users && r.value == UserTable.AuthView(u)
    {
      if db.Unavailable? then None
      else
        match UserTable.ByUsername(users, username)
        case None => None
        case Some(u) => Some(UserTable.AuthView(u))
    }

    /** `findUserById`: the public view of the user with that id, or
        undefined when there is none or the query fails. */
    function FindUserById(userId: nat, db: Connection): (r: Option<User>)
      reads this
      ensures db.Unavailable? ==> r.None?
      ensures db.Available? ==> (r.None? <==> forall u :: u in users ==> u.id != userId)
      ensures r.Some? ==> r.value.id == userId
      ensures r.Some? ==> exists u :: u in users && r.value == UserTable.PublicView(u)
    {
      if db.Unavailable? then None
      else
        match UserTable.ById(users, userId)
        case None => None
        case Some(u) => Some(UserTable.PublicView(u))
    }

    /** `getAllStudents`: the public view of every student, none of any
        other role; empty when the query fails. */
    function GetAllStudents(db: Connection): (r: seq<User>)
      reads this
      ensures db.Unavailable? ==> r == []
      ensures forall i :: 0 <= i < |r| ==> r[i].role == Student
      ensures db.Available? ==> forall u :: u in users && u.role == Student ==> UserTable.PublicView(u) in r
      ensures forall v :: v in r ==> exists u :: u in users && u.role == Student && v == UserTable.PublicView(u)
      ensures db.Available? ==> |r| == |UserTable.Students(users)|
      ensures db.Available? ==> forall i :: 0 <= i < |r| ==> r[i] == UserTable.PublicView(UserTable.Students(users)[i])
    {
      if db.Unavailable? then []
      else
        UserTable.StudentViewsCoverStudents(users);
        UserTable.StudentViews(users)
    }

    /** `createUserInDb`: inserts a user with a fresh id; a taken username
        violates the unique constraint and, like a failed call, is reported
        with nothing inserted. The hash is computed by the caller. */
    method CreateUserInDb(name: string, username: string, passwordHash: string, role: Role,
                          email: Option<string>, now: int, db: Connection)
      returns (r: Result<UserForAuth>)
      requires Valid()
      modifies this
      ensures Valid()
      ensures progress == old(progress) && scores == old(scores) && nextScoreId == old(nextScoreId)
      ensures db.Unavailable? ==> r == Failure(db.error)
      ensures db.Available? && UserTable.ByUsername(old(users), username).Some? ==>
                r == Failure(ConstraintViolation)
      ensures r.Failure? ==> users == old(users) && nextUserId == old(nextUserId)
      ensures r.Success? ==>
                var row := UserTable.UserRow(old(nextUserId), username, passwordHash, role, name, NullIfEmpty(email), now);
                && users == old(users) + [row]
                && nextUserId == old(nextUserId) + 1
                && r.value == UserTable.InsertedView(row)
      ensures db.Available? && UserTable.ByUsername(old(users), username).None? ==> r.Success?
      ensures r.Success? ==>
                GetUserByUsernameForAuth(username, Available) == Some(r.value.(createdAt := None))
    {
      if db.Unavailable? {
        return Failure(db.error);
      }
      if UserTable.ByUsername(users, username).Some? {
        return Failure(ConstraintViolation);
      }
      var row := UserTable.UserRow(nextUserId, username, passwordHash, role, name, NullIfEmpty(email), now);
      UserTable.AppendKeepsWellFormed(users, nextUserId, row);
      users := users + [row];
      nextUserId := nextUserId + 1;
      UserTable.ByUsernameFindsTheRow(users, nextUserId, row);
      r := Success(UserTable.InsertedView(row));
    }

    // --- Progress ---

    /** `getStudentRoundProgress`: the record stored under the key, or
        undefined when there is none or the query fails. */
    function GetStudentRoundProgress(studentId: string, unitId: string, roundId: string, db: Connection)
      : (r: Option<StudentRoundProgress>)
      reads this
      ensures db.Unavailable? ==> r.None?
      ensures db.Available? ==> (r.None? <==> forall p :: p in progress ==> ProgressTable.KeyOf(p) != (studentId, unitId, roundId))
      ensures r.Some? ==> r.value in progress
      ensures r.Some? ==> r.value.studentId == studentId && r.value.unitId == unitId && r.value.roundId == roundId
    {
      if db.Unavailable? then None
      else ProgressTable.Lookup(progress, (studentId, unitId, roundId))
    }

    /** `getAllStudentProgress`: the empty id lists every record; any other
        id lists exactly that student's records; empty when the query fails. */
    function GetAllStudentProgress(studentId: string, db: Connection): (r: seq<StudentRoundProgress>)
      reads this
      ensures db.Unavailable? ==> r == []
      ensures db.Available? && studentId == "" ==> r == progress
      ensures studentId != "" ==> forall p :: p in r ==> p in progress && p.studentId == studentId
      ensures db.Available? && studentId != "" ==>
                forall p :: p in progress && p.studentId == studentId ==> p in r
      ensures db.Available? && studentId != "" ==>
                forall p :: multiset(r)[p] == if p.studentId == studentId then multiset(progress)[p] else 0
    {
      if db.Unavailable? then []
      else if studentId == "" then progress
      else ProgressTable.RowsOfStudent(progress, studentId)
    }

    /** `saveStudentRoundProgress`: insert-or-update on the record's key.
        Afterwards that key reads back as the record, every other key as
        before, and the key stays unique. A failure is reported and nothing
        changes. */
    method SaveStudentRoundProgress(p: StudentRoundProgress, db: Connection) returns (r: Outcome)
      requires Valid()
      modifies this
      ensures Valid()
      ensures users == old(users) && nextUserId == old(nextUserId)
      ensures scores == old(scores) && nextScoreId == old(nextScoreId)
      ensures db.Unavailable? ==> r == Fail(db.error) && progress == old(progress)
      ensures db.Available? ==> r == Pass && progress == ProgressTable.Upsert(old(progress), p)
      ensures db.Available? ==> ProgressTable.Lookup(progress, ProgressTable.KeyOf(p)) == Some(p)
      ensures forall k :: k != ProgressTable.KeyOf(p) ==>
                ProgressTable.Lookup(progress, k) == ProgressTable.Lookup(old(progress), k)
    {
      if db.Unavailable? {
        return Fail(db.error);
      }
      ProgressTable.UpsertKeepsKeysUnique(progress, p);
      ProgressTable.SaveThenGet(progress, p);
      forall k | k != ProgressTable.KeyOf(p)
        ensures ProgressTable.Lookup(ProgressTable.Upsert(progress, p), k) == ProgressTable.Lookup(progress, k)
      {
        ProgressTable.SaveKeepsOtherKeys(progress, p, k);
      }
      progress := ProgressTable.Upsert(progress, p);
      r := Pass;
    }

    // --- Offline scores ---

    /** `getOfflineScoresForStudent`: that student's rows, newest first;
        empty when the query fails. */
    function GetOfflineScoresForStudent(studentId: string, db: Connection): (r: seq<OfflineTestScore>)
      reads this
      ensures db.Unavailable? ==> r == []
      ensures ScoreLedger.NewestFirstOrder(r)
      ensures forall s :: s in r ==> s in scores && s.studentId == studentId
      ensures db.Available? ==> forall s :: s in scores && s.studentId == studentId ==> s in r
      ensures db.Available? ==> multiset(r) == multiset(Rows.Where(scores, ScoreLedger.OfStudent(studentId)))
    {
      if db.Unavailable? then []
      else
        var r := ScoreLedger.NewestFirst(Rows.Where(scores, ScoreLedger.OfStudent(studentId)));
        assert forall s :: s in r <==> s in Rows.Where(scores, ScoreLedger.OfStudent(studentId)) by {
          forall s
            ensures s in r <==> s in Rows.Where(scores, ScoreLedger.OfStudent(studentId))
          {
            assert s in r <==> s in multiset(r);
          }
        }
        r
    }

    /** `getAllOfflineScores`: every row, newest first; empty when the query
        fails. */
    function GetAllOfflineScores(db: Connection): (r: seq<OfflineTestScore>)
      reads this
      ensures db.Unavailable? ==> r == []
      ensures ScoreLedger.NewestFirstOrder(r)
      ensures db.Available? ==> multiset(r) == multiset(scores) && |r| == |scores|
    {
      if db.Unavailable? then [] else ScoreLedger.NewestFirst(scores)
    }

    /** `addOfflineScore`: appends exactly one row carrying the caller's
        fields, a fresh id and the current date, and returns it. Earlier rows
        are untouched; a failure is reported and nothing changes. */
    method AddOfflineScore(studentId: string, teacherId: string, score: Grade, notes: Option<string>,
                           now: int, db: Connection)
      returns (r: Result<OfflineTestScore>)
      requires Valid()
      modifies this
      ensures Valid()
      ensures users == old(users) && nextUserId == old(nextUserId) && progress == old(progress)
      ensures db.Unavailable? ==> r == Failure(db.error) && scores == old(scores) && nextScoreId == old(nextScoreId)
      ensures db.Available? ==>
                && r == Success(ScoreLedger.NewRow(old(nextScoreId), studentId, teacherId, score, notes, now))
                && scores == old(scores) + [r.value]
                && nextScoreId == old(nextScoreId) + 1
      ensures r.Success? ==> forall s :: s in old(scores) ==> s.id != r.value.id
      ensures r.Success? ==> r.value in GetOfflineScoresForStudent(studentId, Available)
    {
      if db.Unavailable? {
        return Failure(db.error);
      }
      var row := ScoreLedger.NewRow(nextScoreId, studentId, teacherId, score, notes, now);
      ScoreLedger.AppendKeepsWellFormed(scores, nextScoreId, row);
      scores := scores + [row];
      nextScoreId := nextScoreId + 1;
      r := Success(row);
    }
  }
}
