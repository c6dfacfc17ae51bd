/**
 * The student profile page: a student card (or a typed id) looks the student up by student id and
 * lists their loans, split into books still out and books returned.
 */
module StudentProfile {
  import opened Wrappers
  import opened Seqs
  import opened Records
  import opened RecordStore
  import opened ScanRouting

  /** The issued list's condition: either status column says `issued`. */
  function IsIssuedView(v: LoanView): bool {
    v.loan.status == Some(ISSUED) || v.loan.returnStatus == ISSUED
  }

  /** The returned list's condition: either status column says `returned`. */
  function IsReturnedView(v: LoanView): bool {
    v.loan.status == Some(RETURNED) || v.loan.returnStatus == RETURNED
  }

  /** All of the student's loans, each joined with its book (`select('*, books(*)').eq('student_id', ...)`). */
  function AllLoans(loans: seq<Loan>, books: seq<Book>, studentId: string): (r: seq<LoanView>)
    ensures |r| == |Filter(LoanOf(studentId), loans)| <= |loans|
    ensures forall v {:trigger v in r} :: v in r ==>
      v.loan in loans && v.loan.studentId == studentId && v.book == BookById(books, v.loan.bookId)
    ensures forall l {:trigger l in loans} :: l in loans && l.studentId == studentId ==>
      LoanView(l, BookById(books, l.bookId)) in r
  {
    var mine := Filter(LoanOf(studentId), loans);
    var r := WithBooks(mine, books);
    assert forall v :: v in r ==> exists j :: 0 <= j < |mine| && v == LoanView(mine[j], BookById(books, mine[j].bookId));
    assert forall l :: l in loans && l.studentId == studentId ==> l in mine;
    assert forall j :: 0 <= j < |mine| ==> mine[j] in mine && r[j] in r;
    r
  }

  /** A loan of the student that has been returned. */
  function ReturnedLoanOf(studentId: string): Loan -> bool {
    (l: Loan) => l.studentId == studentId && l.returnStatus == RETURNED
  }

  /** The loans that carry a return status and no conflicting legacy status. */
  ghost predicate StatusesWellFormed(loans: seq<Loan>) {
    forall i :: 0 <= i < |loans| ==>
      && (loans[i].returnStatus == ISSUED || loans[i].returnStatus == RETURNED)
      && (loans[i].status.None? || loans[i].status == Some(loans[i].returnStatus))
  }

  /**
   * The writes of the issue page keep the rows well formed: a new loan says `issued`, a return
   * says `returned`, and neither writes the legacy column.
   */
  lemma IssueKeepsWellFormed(loans: seq<Loan>, id: nat, studentId: string, bookId: string, now: Timestamp)
    requires StatusesWellFormed(loans)
    ensures StatusesWellFormed(loans + [NewLoan(id, studentId, bookId, now)])
  {
  }

  lemma ReturnKeepsWellFormed(loans: seq<Loan>, id: nat, now: Timestamp)
    requires StatusesWellFormed(loans)
    requires forall i :: 0 <= i < |loans| ==> loans[i].status.None?
    ensures StatusesWellFormed(MarkReturned(loans, id, now))
  {
  }

  /** A row kept by a well-formed table's filter is well formed. */
  lemma WellFormedView(loans: seq<Loan>, books: seq<Book>, studentId: string, v: LoanView)
    requires StatusesWellFormed(loans) && v in AllLoans(loans, books, studentId)
    ensures IsIssuedView(v) <==> !IsReturnedView(v)
    ensures IsIssuedView(v) <==> CurrentLoanOf(studentId)(v.loan)
    ensures IsReturnedView(v) <==> ReturnedLoanOf(studentId)(v.loan)
  {
    var all := AllLoans(loans, books, studentId);
    var j :| 0 <= j < |all| && all[j] == v;
    var mine := Filter(LoanOf(studentId), loans);
    assert v.loan == mine[j] && mine[j] in mine;
    var i :| 0 <= i < |loans| && loans[i] == v.loan;
  }

  /**
   * When every row has one of the two statuses and no conflicting legacy status, the two lists
   * are disjoint and together hold each of the student's loans exactly once.
   */
  lemma ProfileListsPartition(loans: seq<Loan>, books: seq<Book>, studentId: string)
    requires StatusesWellFormed(loans)
    ensures var all := AllLoans(loans, books, studentId);
      && |Filter(IsIssuedView, all)| + |Filter(IsReturnedView, all)| == |all|
      && multiset(Filter(IsIssuedView, all)) + multiset(Filter(IsReturnedView, all)) == multiset(all)
      && forall v :: v in Filter(IsIssuedView, all) ==> v !in Filter(IsReturnedView, all)
  {
    var all := AllLoans(loans, books, studentId);
    forall v | v in all
      ensures IsIssuedView(v) <==> !IsReturnedView(v)
    {
      WellFormedView(loans, books, studentId, v);
    }
    FilterSplit(IsIssuedView, IsReturnedView, all);
  }

  /** One more loan keeps filtering after the join equal to joining after the filter. */
  lemma FilterWithBooksStep(p: Loan -> bool, q: LoanView -> bool, init: seq<Loan>, last: Loan, books: seq<Book>)
    requires Filter(q, WithBooks(init, books)) == WithBooks(Filter(p, init), books)
    requires q(LoanView(last, BookById(books, last.bookId))) <==> p(last)
    ensures Filter(q, WithBooks(init + [last], books)) == WithBooks(Filter(p, init + [last]), books)
  {
    var v := LoanView(last, BookById(books, last.bookId));
    WithBooksAppendOne(init, last, books);
    FilterAppendOne(q, WithBooks(init, books), v);
    FilterAppendOne(p, init, last);
    if p(last) {
      WithBooksAppendOne(Filter(p, init), last, books);
    }
  }

  /** Filtering the joined rows by a condition on the loan is joining the filtered loans. */
  lemma {:induction false} FilterWithBooks(p: Loan -> bool, q: LoanView -> bool, loans: seq<Loan>, books: seq<Book>)
    requires forall l :: l in loans ==> (q(LoanView(l, BookById(books, l.bookId))) <==> p(l))
    ensures Filter(q, WithBooks(loans, books)) == WithBooks(Filter(p, loans), books)
  {
    if loans != [] {
      var init, last := loans[..|loans| - 1], loans[|loans| - 1];
      assert loans == init + [last];
      forall l | l in init
        ensures q(LoanView(l, BookById(books, l.bookId))) <==> p(l)
      {
        assert l in loans;
      }
      FilterWithBooks(p, q, init, books);
      assert last in loans;
      FilterWithBooksStep(p, q, init, last, books);
    }
  }

  /**
   * On well-formed rows the profile's issued list is the issue page's list of current loans:
   * both pages agree on what a student holds.
   */
  lemma IssuedListIsCurrentLoans(loans: seq<Loan>, books: seq<Book>, studentId: string)
    requires StatusesWellFormed(loans)
    ensures Filter(IsIssuedView, AllLoans(loans, books, studentId)) == CurrentLoans(loans, books, studentId)
  {
    var mine := Filter(LoanOf(studentId), loans);
    forall l | l in mine
      ensures IsIssuedView(LoanView(l, BookById(books, l.bookId))) <==> CurrentLoanOf(studentId)(l)
    {
      var j :| 0 <= j < |mine| && mine[j] == l;
      WellFormedView(loans, books, studentId, AllLoans(loans, books, studentId)[j]);
    }
    FilterWithBooks(CurrentLoanOf(studentId), IsIssuedView, mine, books);
    FilterOfFilter(CurrentLoanOf(studentId), LoanOf(studentId), loans);
  }

  /**
   * On well-formed rows the profile's returned list is the student's returned loans, joined with
   * their books, in table order.
   */
  lemma ReturnedListIsReturnedLoans(loans: seq<Loan>, books: seq<Book>, studentId: string)
    requires StatusesWellFormed(loans)
    ensures Filter(IsReturnedView, AllLoans(loans, books, studentId))
      == WithBooks(Filter(ReturnedLoanOf(studentId), loans), books)
  {
    var mine := Filter(LoanOf(studentId), loans);
    forall l | l in mine
      ensures IsReturnedView(LoanView(l, BookById(books, l.bookId))) <==> ReturnedLoanOf(studentId)(l)
    {
      var j :| 0 <= j < |mine| && mine[j] == l;
      WellFormedView(loans, books, studentId, AllLoans(loans, books, studentId)[j]);
    }
    FilterWithBooks(ReturnedLoanOf(studentId), IsReturnedView, mine, books);
    FilterOfFilter(ReturnedLoanOf(studentId), LoanOf(studentId), loans);
  }

  /** On tables kept valid by the pages, the profile's lookup by student id is the lookup by roll number. */
  lemma LookupsAgree(students: seq<Student>, id: string)
    requires StudentIdsAreRollNos(students)
    ensures StudentByStudentId(students, id) == StudentByRollNo(students, id)
  {
    forall s | s in students
      ensures HasStudentId(id)(s) <==> HasRollNo(id)(s)
    {
      var i :| 0 <= i < |students| && students[i] == s;
    }
    FilterAgree(HasStudentId(id), HasRollNo(id), students);
  }

  datatype SearchOutcome = StudentFound | StudentNotFound

  class StudentProfilePage {
    /** The student id input. */
    var studentId: string
    var student: Option<Student>
    var issuedBooks: seq<LoanView>
    var returnedBooks: seq<LoanView>
    /** Whether a search has been made, so that "not found" can be shown. */
    var searched: bool
    const store: Store

    constructor (store: Store)
      ensures this.store == store
      ensures studentId == "" && student == None && issuedBooks == [] && returnedBooks == [] && !searched
    {
      this.store := store;
      studentId, student, issuedBooks, returnedBooks, searched := "", None, [], [], false;
    }

    /** Typing into the student id input. */
    method EnterStudentId(value: string)
      modifies this
      ensures studentId == value
      ensures student == old(student) && issuedBooks == old(issuedBooks)
      ensures returnedBooks == old(returnedBooks) && searched == old(searched)
    {
      studentId := value;
    }

    /**
     * `handleSearch`: look the student up by student id; when found, fetch all their loans and
     * split them into the issued and the returned list. A failed lookup clears the student and
     * leaves the lists as they were. The store is only read.
     */
    method Search() returns (outcome: SearchOutcome)
      modifies this
      ensures searched && studentId == old(studentId)
      ensures var found := StudentByStudentId(store.students, studentId);
        && (found.None? ==>
              outcome == StudentNotFound && student == None
              && issuedBooks == old(issuedBooks) && returnedBooks == old(returnedBooks))
        && (found.Some? ==>
              var all := AllLoans(store.loans, store.books, found.value.studentId);
              outcome == StudentFound && student == found
              && issuedBooks == Filter(IsIssuedView, all) && returnedBooks == Filter(IsReturnedView, all))
    {
      searched := true;
      var found := StudentByStudentId(store.students, studentId);
      if found.None? {
        student := None;
        return StudentNotFound;
      }
      var all := AllLoans(store.loans, store.books, found.value.studentId);
      student := found;
      issuedBooks := Filter(IsIssuedView, all);
      returnedBooks := Filter(IsReturnedView, all);
      outcome := StudentFound;
    }

    /** A line from the card reader: a student card fills the input and searches; book tags and empty lines are ignored. */
    method OnSerialLine(line: string)
      modifies this
      ensures !RouteLine(line).ToStudent? ==> unchanged(this)
      ensures RouteLine(line).ToStudent? ==>
        && studentId == line && searched
        && var found := StudentByStudentId(store.students, line);
        && (found.None? ==> student == None && issuedBooks == old(issuedBooks) && returnedBooks == old(returnedBooks))
        && (found.Some? ==>
              && student == found
              && issuedBooks == Filter(IsIssuedView, AllLoans(store.loans, store.books, found.value.studentId))
              && returnedBooks == Filter(IsReturnedView, AllLoans(store.loans, store.books, found.value.studentId)))
    {
      if RouteLine(line).ToStudent? {
        studentId := line;
        var _ := Search();
      }
    }
  }
}
