/**
 * The list of registered students: per student, how many loans were ever made and how many are
 * still out, tallied over the loan rows, and a search over name and student id.
 */
module RegisteredStudents {
  import opened Wrappers
  import opened Seqs
  import opened Text
  import opened Records
  import opened RecordStore

  /** One student's figures: loans ever made, and loans still out. */
  datatype IssueStat = IssueStat(total: nat, notReturned: nat)

  const NO_LOANS := IssueStat(0, 0)

  /** The student ids that occur in the loan rows. */
  ghost function StudentIdsOf(rows: seq<Loan>): set<string> {
    set i | 0 <= i < |rows| :: rows[i].studentId
  }

  /** The figures of `sid` counted directly over the rows. */
  function CountOf(rows: seq<Loan>, sid: string): IssueStat {
    IssueStat(|Filter(LoanOf(sid), rows)|, HeldCount(rows, sid))
  }

  /** `stats` has an entry exactly for each student id in the rows, holding that student's figures. */
  ghost predicate Tallies(stats: map<string, IssueStat>, rows: seq<Loan>) {
    && stats.Keys == StudentIdsOf(rows)
    && forall sid :: sid in stats ==> stats[sid] == CountOf(rows, sid)
  }

  /** The entry for `sid` after one more row is tallied. */
  function Bump(stat: IssueStat, row: Loan): IssueStat {
    IssueStat(stat.total + 1, stat.notReturned + if row.returnStatus == ISSUED then 1 else 0)
  }

  /** The figures shown on a student's card: `issuedData[student_id] || { total: 0, notReturned: 0 }`. */
  function StatsShown(stats: map<string, IssueStat>, sid: string): (shown: IssueStat)
    ensures sid in stats ==> shown == stats[sid]
    ensures sid !in stats ==> shown.total == 0 && shown.notReturned == 0
  {
    if sid in stats then stats[sid] else NO_LOANS
  }

  /** A student id that occurs in no row has no loans. */
  lemma AbsentHasNoLoans(rows: seq<Loan>, sid: string)
    requires sid !in StudentIdsOf(rows)
    ensures CountOf(rows, sid) == NO_LOANS
  {
    forall x | x in rows
      ensures !LoanOf(sid)(x)
    {
      var j :| 0 <= j < |rows| && rows[j] == x;
    }
    FilterKeepsNone(LoanOf(sid), rows);
    FilterMonotone(CurrentLoanOf(sid), LoanOf(sid), rows);
  }

  /** One more row adds its student id to the ids seen. */
  lemma StudentIdsAppend(rows: seq<Loan>, row: Loan)
    ensures StudentIdsOf(rows + [row]) == StudentIdsOf(rows) + {row.studentId}
  {
    var rows' := rows + [row];
    forall x | x in StudentIdsOf(rows')
      ensures x in StudentIdsOf(rows) + {row.studentId}
    {
      var j :| 0 <= j < |rows'| && rows'[j].studentId == x;
      if j < |rows| {
        assert rows[j].studentId == x;
      }
    }
    forall x | x in StudentIdsOf(rows)
      ensures x in StudentIdsOf(rows')
    {
      var j :| 0 <= j < |rows| && rows[j].studentId == x;
      assert rows'[j].studentId == x;
    }
    assert rows'[|rows|].studentId == row.studentId;
  }

  /** One more row bumps the figures of its own student and of no other. */
  lemma CountAppend(rows: seq<Loan>, row: Loan, x: string)
    ensures CountOf(rows + [row], x) == if x == row.studentId then Bump(CountOf(rows, x), row) else CountOf(rows, x)
  {
    FilterAppendOne(LoanOf(x), rows, row);
    FilterAppendOne(CurrentLoanOf(x), rows, row);
  }

  /** Tallying one more row keeps the tally exact. */
  lemma TallyStep(stats: map<string, IssueStat>, rows: seq<Loan>, row: Loan)
    requires Tallies(stats, rows)
    ensures Tallies(stats[row.studentId := Bump(StatsShown(stats, row.studentId), row)], rows + [row])
  {
    var sid := row.studentId;
    var stats' := stats[sid := Bump(StatsShown(stats, sid), row)];
    assert stats'.Keys == stats.Keys + {sid};
    StudentIdsAppend(rows, row);
    assert StatsShown(stats, sid) == CountOf(rows, sid) by {
      if sid !in stats {
        AbsentHasNoLoans(rows, sid);
      }
    }
    forall x | x in stats'
      ensures stats'[x] == CountOf(rows + [row], x)
    {
      CountAppend(rows, row, x);
    }
  }

  /** The `forEach` callback: create the entry when missing, then count the row in it. */
  method TallyRow(stats: map<string, IssueStat>, row: Loan) returns (stats': map<string, IssueStat>)
    ensures stats' == stats[row.studentId := Bump(StatsShown(stats, row.studentId), row)]
  {
    var sid := row.studentId;
    stats' := stats;
    if sid !in stats' {
      stats' := stats'[sid := NO_LOANS];
    }
    assert stats'[sid] == StatsShown(stats, sid);
    stats' := stats'[sid := Bump(stats'[sid], row)];
  }

  /** `fetchIssuedData`: the `forEach` over the loan rows that builds the per-student figures. */
  method BuildStats(rows: seq<Loan>) returns (stats: map<string, IssueStat>)
    ensures Tallies(stats, rows)
  {
    stats := map[];
    var i := 0;
    while i < |rows|
      invariant 0 <= i <= |rows|
      invariant Tallies(stats, rows[..i])
    {
      TallyStep(stats, rows[..i], rows[i]);
      stats := TallyRow(stats, rows[i]);
      assert rows[..i + 1] == rows[..i] + [rows[i]];
      i := i + 1;
    }
    assert rows[..|rows|] == rows;
  }

  /** The student ids of the rows, each once, in the order `forEach` first meets them. */
  function StudentIdsInOrder(rows: seq<Loan>): (ids: seq<string>)
    ensures forall i, j :: 0 <= i < j < |ids| ==> ids[i] != ids[j]
    ensures forall sid {:trigger sid in ids} :: sid in ids <==> sid in StudentIdsOf(rows)
  {
    if rows == [] then []
    else
      var init, last := rows[..|rows| - 1], rows[|rows| - 1];
      StudentIdsAppend(init, last);
      assert rows == init + [last];
      var ids := StudentIdsInOrder(init);
      if last.studentId in ids then ids else ids + [last.studentId]
  }

  /** The sum of the loans-made figure over a sequence of keys of the tally. */
  function SumTotals(stats: map<string, IssueStat>, ids: seq<string>): nat
    requires forall sid :: sid in ids ==> sid in stats
  {
    if ids == [] then 0
    else SumTotals(stats, ids[..|ids| - 1]) + stats[ids[|ids| - 1]].total
  }

  /** The number of rows of each of the given students, summed. */
  ghost function SumLoanCounts(rows: seq<Loan>, ids: seq<string>): nat {
    if ids == [] then 0
    else SumLoanCounts(rows, ids[..|ids| - 1]) + |Filter(LoanOf(ids[|ids| - 1]), rows)|
  }

  /** Summed over keys of an exact tally, the figures are the row counts. */
  lemma {:induction false} SumTotalsAreCounts(stats: map<string, IssueStat>, rows: seq<Loan>, ids: seq<string>)
    requires Tallies(stats, rows) && forall sid :: sid in ids ==> sid in stats
    ensures SumTotals(stats, ids) == SumLoanCounts(rows, ids)
  {
    if ids != [] {
      var init := ids[..|ids| - 1];
      assert forall sid :: sid in init ==> sid in ids;
      SumTotalsAreCounts(stats, rows, init);
    }
  }

  /** One more row adds one to the sum exactly when its student is among distinct ids. */
  lemma {:induction false} SumLoanCountsAppend(rows: seq<Loan>, row: Loan, ids: seq<string>)
    requires forall i, j :: 0 <= i < j < |ids| ==> ids[i] != ids[j]
    ensures SumLoanCounts(rows + [row], ids) == SumLoanCounts(rows, ids) + if row.studentId in ids then 1 else 0
  {
    if ids != [] {
      var init, last := ids[..|ids| - 1], ids[|ids| - 1];
      assert ids == init + [last];
      SumLoanCountsAppend(rows, row, init);
      FilterAppendOne(LoanOf(last), rows, row);
      assert row.studentId in ids <==> row.studentId in init || row.studentId == last;
      assert forall i :: 0 <= i < |init| ==> init[i] == ids[i] != last;
    }
  }

  /** Over the rows' own student ids, the row counts add up to the number of rows. */
  lemma {:induction false} LoanCountsSumToRows(rows: seq<Loan>)
    ensures SumLoanCounts(rows, StudentIdsInOrder(rows)) == |rows|
  {
    if rows != [] {
      var init, last := rows[..|rows| - 1], rows[|rows| - 1];
      assert rows == init + [last];
      var ids := StudentIdsInOrder(init);
      LoanCountsSumToRows(init);
      SumLoanCountsAppend(init, last, ids);
      if last.studentId !in ids {
        AbsentHasNoLoans(init, last.studentId);
        FilterAppendOne(LoanOf(last.studentId), init, last);
        assert (ids + [last.studentId])[..|ids|] == ids;
      }
    }
  }

  /** The figures the `forEach` builds account for every row once: the loans made sum to the rows fetched. */
  lemma TotalsSumToRows(stats: map<string, IssueStat>, rows: seq<Loan>)
    requires Tallies(stats, rows)
    ensures SumTotals(stats, StudentIdsInOrder(rows)) == |rows|
  {
    SumTotalsAreCounts(stats, rows, StudentIdsInOrder(rows));
    LoanCountsSumToRows(rows);
  }

  /**
   * Every card shows the student's exact figures, a student without loans included, and never more
   * loans out than loans made.
   */
  lemma ShownStatsAreCounts(stats: map<string, IssueStat>, rows: seq<Loan>, sid: string)
    requires Tallies(stats, rows)
    ensures StatsShown(stats, sid) == CountOf(rows, sid)
    ensures StatsShown(stats, sid).notReturned <= StatsShown(stats, sid).total
  {
    if sid !in stats {
      AbsentHasNoLoans(rows, sid);
    }
    FilterMonotone(CurrentLoanOf(sid), LoanOf(sid), rows);
  }

  /** On tables kept valid by the pages, no card shows more than the loan limit still out. */
  lemma ShownOutWithinLimit(
    stats: map<string, IssueStat>, books: seq<Book>, loans: seq<Loan>, students: seq<Student>, sid: string)
    requires Tallies(stats, loans) && TablesValid(books, loans, students)
    ensures StatsShown(stats, sid).notReturned <= MAX_LOANS
  {
    ShownStatsAreCounts(stats, loans, sid);
  }

  /** The search condition on one student: name or student id contains the term, ignoring case. */
  function MatchesSearch(term: string): (m: Student -> bool)
    ensures forall s {:trigger m(s)} :: m(s) <==>
      Occurs(ToLower(s.name), ToLower(term)) || Occurs(ToLower(s.studentId), ToLower(term))
  {
    IncludesIsOccurs();
    (s: Student) =>
      Includes(ToLower(s.name), ToLower(term)) || Includes(ToLower(s.studentId), ToLower(term))
  }

  /** `filteredStudents`: the students matching the search, in the order fetched. */
  function FilteredStudents(students: seq<Student>, term: string): (r: seq<Student>)
    ensures |r| <= |students|
    ensures forall s {:trigger s in r} :: s in r <==> s in students && MatchesSearch(term)(s)
  {
    Filter(MatchesSearch(term), students)
  }

  /** An empty search lists every student. */
  lemma EmptySearchListsAll(students: seq<Student>)
    ensures FilteredStudents(students, "") == students
  {
    forall s | s in students
      ensures MatchesSearch("")(s)
    {
      assert ToLower("") == "";
      IncludesEmpty(ToLower(s.name));
    }
    FilterKeepsAll(MatchesSearch(""), students);
  }

  /** The search ignores case. */
  lemma SearchIgnoresCase(students: seq<Student>, term: string)
    ensures FilteredStudents(students, ToUpper(term)) == FilteredStudents(students, term)
  {
    LowerForgetsUpper(term);
    assert MatchesSearch(ToUpper(term)) == MatchesSearch(term);
  }

  /** A student is listed when the term is their student id. */
  lemma SearchByIdFindsStudent(students: seq<Student>, s: Student)
    requires s in students
    ensures s in FilteredStudents(students, s.studentId)
  {
    var id := ToLower(s.studentId);
    assert StartsWith(id, id);
  }
}
