/** The `offline_scores` table: an append-only ledger, read back newest first. */
module ScoreLedger {
  import opened Results
  import opened Types
  import Rows

  /** The `WHERE student_id = …` condition. */
  function OfStudent(studentId: string): OfflineTestScore -> bool {
    (s: OfflineTestScore) => s.studentId == studentId
  }

  /** Every id was handed out before `nextId`, and no two rows share one. */
  ghost predicate WellFormed(rows: seq<OfflineTestScore>, nextId: nat) {
    && (forall i :: 0 <= i < |rows| ==> rows[i].id < nextId)
    && (forall i, j :: 0 <= i < j < |rows| ==> rows[i].id != rows[j].id)
  }

  /** `ORDER BY date DESC`: every row is at least as recent as the rows after it. */
  ghost predicate NewestFirstOrder(s: seq<OfflineTestScore>) {
    forall i, j :: 0 <= i < j < |s| ==> s[i].date >= s[j].date
  }

  /** Places `x` in front of the first row that is not more recent than it. */
  function Insert(x: OfflineTestScore, s: seq<OfflineTestScore>): (r: seq<OfflineTestScore>)
    requires NewestFirstOrder(s)
    ensures NewestFirstOrder(r)
    ensures multiset(r) == multiset(s) + multiset{x}
    ensures |r| == |s| + 1
  {
    if s == [] then [x]
    else if x.date >= s[0].date then [x] + s
    else
      var rest := Insert(x, s[1..]);
      assert s == [s[0]] + s[1..];
      NotNewerThanHead(x, s, rest);
      [s[0]] + rest
  }

  /** Every row of `rest`, the tail of `s` with `x` placed in it, is no more
      recent than the head of `s`. */
  lemma NotNewerThanHead(x: OfflineTestScore, s: seq<OfflineTestScore>, rest: seq<OfflineTestScore>)
    requires s != [] && NewestFirstOrder(s) && x.date < s[0].date
    requires multiset(rest) == multiset(s[1..]) + multiset{x}
    ensures forall k :: 0 <= k < |rest| ==> rest[k].date <= s[0].date
  {
    forall k | 0 <= k < |rest|
      ensures rest[k].date <= s[0].date
    {
      assert rest[k] in multiset(rest);
      if rest[k] != x {
        assert rest[k] in multiset(s[1..]);
        var m :| 0 <= m < |s[1..]| && s[1..][m] == rest[k];
        assert s[m + 1] == rest[k];
      }
    }
  }

  /** The rows of `s` ordered by date, newest first. Rows with equal dates
      keep their storage order reversed. */
  function NewestFirst(s: seq<OfflineTestScore>): (r: seq<OfflineTestScore>)
    ensures NewestFirstOrder(r)
    ensures multiset(r) == multiset(s)
    ensures |r| == |s|
  {
    if s == [] then []
    else
      assert s == s[..|s| - 1] + [s[|s| - 1]];
      Insert(s[|s| - 1], NewestFirst(s[..|s| - 1]))
  }

  /** The row `addOfflineScore` inserts: the caller's fields, with empty notes
      stored as null, and the server's id and date. */
  function NewRow(id: nat, studentId: string, teacherId: string, score: Grade, notes: Option<string>, date: int)
    : (r: OfflineTestScore)
    ensures OfStudent(studentId)(r) && r.teacherId == teacherId && r.score == score
    ensures r.id == id && r.date == date
    ensures r.notes.None? <==> notes.None? || notes.value == ""
    ensures r.notes.Some? ==> r.notes == notes
  {
    OfflineTestScore(id, studentId, teacherId, score, NullIfEmpty(notes), date)
  }

  /** Appending a row with a fresh id keeps ids unique and below the counter. */
  lemma AppendKeepsWellFormed(rows: seq<OfflineTestScore>, nextId: nat, x: OfflineTestScore)
    requires WellFormed(rows, nextId)
    requires x.id == nextId
    ensures WellFormed(rows + [x], nextId + 1)
  {
  }

  /** The server clock moved forward between any two additions. */
  ghost predicate DatesIncreasing(s: seq<OfflineTestScore>) {
    forall i, j :: 0 <= i < j < |s| ==> s[i].date < s[j].date
  }

  /** The rows in the opposite order. */
  function Reversed<T>(s: seq<T>): (r: seq<T>)
    ensures |r| == |s|
    ensures forall k :: 0 <= k < |s| ==> r[k] == s[|s| - 1 - k]
  {
    if s == [] then [] else [s[|s| - 1]] + Reversed(s[..|s| - 1])
  }

  /** With increasing dates, a newest-first listing starts with the row
      added last. */
  lemma NewestIsLastAdded(s: seq<OfflineTestScore>, l: seq<OfflineTestScore>)
    requires s != [] && DatesIncreasing(s)
    requires NewestFirstOrder(l) && multiset(l) == multiset(s)
    ensures |l| == |s| && l[0] == s[|s| - 1]
  {
    assert |l| == |multiset(l)| == |multiset(s)| == |s|;
    var last := s[|s| - 1];
    assert last in multiset(l);
    var k :| 0 <= k < |l| && l[k] == last;
    assert l[0] in multiset(s);
    var m :| 0 <= m < |s| && s[m] == l[0];
    assert l[0].date >= last.date;
  }

  /** When every addition got a later date than the one before, the only
      newest-first listing of the ledger is the order of addition reversed:
      the last score added comes first. */
  lemma {:induction false} IncreasingDatesListLatestFirst(s: seq<OfflineTestScore>, l: seq<OfflineTestScore>)
    requires DatesIncreasing(s)
    requires NewestFirstOrder(l) && multiset(l) == multiset(s)
    ensures l == Reversed(s)
  {
    if s == [] {
      assert |l| == |multiset(l)| == 0;
    } else {
      var init, last := s[..|s| - 1], s[|s| - 1];
      NewestIsLastAdded(s, l);
      var rest := l[1..];
      assert l == [last] + rest;
      assert s == init + [last];
      assert multiset(rest) == multiset(init) by {
        assert multiset(l) == multiset{last} + multiset(rest);
        assert multiset(s) == multiset(init) + multiset{last};
        assert multiset{last} + multiset(rest) == multiset{last} + multiset(init);
        assert multiset(rest) == (multiset{last} + multiset(rest)) - multiset{last};
        assert multiset(init) == (multiset{last} + multiset(init)) - multiset{last};
      }
      IncreasingDatesListLatestFirst(init, rest);
    }
  }
}
