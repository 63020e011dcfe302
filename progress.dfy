/** The `student_progress` table: one row per (student, unit, round), written
    by an insert-or-update on that key and read by key or by student. */
module ProgressTable {
  import opened Results
  import opened Types
  import Rows

  /** The table's unique key (student_id, unit_id, round_id). */
  type Key = (string, string, string)

  function KeyOf(p: StudentRoundProgress): Key {
    (p.studentId, p.unitId, p.roundId)
  }

  /** The `WHERE student_id = … AND unit_id = … AND round_id = …` condition. */
  function HasKey(k: Key): StudentRoundProgress -> bool {
    (p: StudentRoundProgress) => KeyOf(p) == k
  }

  /** The `WHERE student_id = …` condition. */
  function OfStudent(studentId: string): StudentRoundProgress -> bool {
    (p: StudentRoundProgress) => p.studentId == studentId
  }

  /** The unique constraint on (student_id, unit_id, round_id). */
  ghost predicate UniqueKeys(rows: seq<StudentRoundProgress>) {
    forall i, j :: 0 <= i < j < |rows| ==> KeyOf(rows[i]) != KeyOf(rows[j])
  }

  /** Where the row with key `k` sits, or `|rows|` when there is none. */
  function Find(rows: seq<StudentRoundProgress>, k: Key): nat {
    Rows.IndexWhere(rows, HasKey(k))
  }

  /** The row stored under `k`, if any. */
  function Lookup(rows: seq<StudentRoundProgress>, k: Key): (r: Option<StudentRoundProgress>)
    ensures r.Some? ==> r.value in rows && KeyOf(r.value) == k
    ensures r.None? <==> forall p :: p in rows ==> KeyOf(p) != k
  {
    Rows.FirstWhere(rows, HasKey(k))
  }

  /** `INSERT … ON CONFLICT (student_id, unit_id, round_id) DO UPDATE SET
      score, attempts, completed, timestamp = EXCLUDED.…`: the row stored
      under the new record's key is replaced by the record; without one the
      record is appended. */
  function Upsert(rows: seq<StudentRoundProgress>, p: StudentRoundProgress): (r: seq<StudentRoundProgress>)
    ensures p in r
    ensures forall x :: x in r ==> x == p || x in rows
    ensures |rows| <= |r| <= |rows| + 1
  {
    var i := Find(rows, KeyOf(p));
    if i < |rows| then
      assert rows[i := p][i] == p;
      rows[i := p]
    else rows + [p]
  }

  /** The rows of one student, in storage order. */
  function RowsOfStudent(rows: seq<StudentRoundProgress>, studentId: string): (r: seq<StudentRoundProgress>)
    ensures forall p :: p in r <==> p in rows && p.studentId == studentId
    ensures forall p :: multiset(r)[p] == if p.studentId == studentId then multiset(rows)[p] else 0
  {
    Rows.Where(rows, OfStudent(studentId))
  }

  /** The upserted key stays where it was found, or lands at the end. */
  lemma FindAfterUpsert(rows: seq<StudentRoundProgress>, p: StudentRoundProgress)
    ensures Find(Upsert(rows, p), KeyOf(p)) == Find(rows, KeyOf(p))
  {
    var k := KeyOf(p);
    var i := Find(rows, k);
    var r := Upsert(rows, p);
    var i' := Find(r, k);
    assert HasKey(k)(r[i]);
    forall j | 0 <= j < i
      ensures !HasKey(k)(r[j])
    {
      assert r[j] == rows[j];
    }
  }

  /** Reading a key right after saving a record under it yields that record,
      every field included. */
  lemma SaveThenGet(rows: seq<StudentRoundProgress>, p: StudentRoundProgress)
    ensures Lookup(Upsert(rows, p), KeyOf(p)) == Some(p)
  {
    FindAfterUpsert(rows, p);
    var i := Find(rows, KeyOf(p));
    assert Upsert(rows, p)[i] == p;
  }

  /** A save touches only its own key: every other key reads as before. */
  lemma SaveKeepsOtherKeys(rows: seq<StudentRoundProgress>, p: StudentRoundProgress, k: Key)
    requires k != KeyOf(p)
    ensures Lookup(Upsert(rows, p), k) == Lookup(rows, k)
  {
    var r := Upsert(rows, p);
    var i := Find(rows, KeyOf(p));
    var m := Find(rows, k);
    var m' := Find(r, k);
    assert forall j :: 0 <= j < |r| ==> r[j] == p || (j < |rows| && r[j] == rows[j]);
    if m < |rows| {
      assert m != i;
      assert r[m] == rows[m];
      assert HasKey(k)(r[m]);
      forall j | 0 <= j < m
        ensures !HasKey(k)(r[j])
      {
        assert r[j] == p || r[j] == rows[j];
      }
      assert m' == m;
    } else {
      forall j | 0 <= j < |r|
        ensures !HasKey(k)(r[j])
      {
        assert r[j] == p || r[j] == rows[j];
      }
      assert m' == |r|;
    }
  }

  /** The unique key constraint survives every save: there is never more
      than one row per (student, unit, round). */
  lemma UpsertKeepsKeysUnique(rows: seq<StudentRoundProgress>, p: StudentRoundProgress)
    requires UniqueKeys(rows)
    ensures UniqueKeys(Upsert(rows, p))
  {
  }

  /** A save adds a row exactly when its key was absent. */
  lemma UpsertSize(rows: seq<StudentRoundProgress>, p: StudentRoundProgress)
    ensures Lookup(rows, KeyOf(p)).Some? ==> |Upsert(rows, p)| == |rows|
    ensures Lookup(rows, KeyOf(p)).None? ==> |Upsert(rows, p)| == |rows| + 1
  {
  }

  /** Two saves to one key leave exactly the second record: no field and no
      attempt of the first survives. */
  lemma LastWriteWins(rows: seq<StudentRoundProgress>, p: StudentRoundProgress, q: StudentRoundProgress)
    requires KeyOf(p) == KeyOf(q)
    ensures Upsert(Upsert(rows, p), q) == Upsert(rows, q)
  {
    FindAfterUpsert(rows, p);
    var i := Find(rows, KeyOf(p));
    if i == |rows| {
      assert Upsert(rows, p)[|rows| := q] == rows + [q];
    }
  }

  /** Saving the same record twice is the same as saving it once. */
  lemma UpsertIdempotent(rows: seq<StudentRoundProgress>, p: StudentRoundProgress)
    ensures Upsert(Upsert(rows, p), p) == Upsert(rows, p)
  {
    LastWriteWins(rows, p, p);
  }
}
