/** The issue/return kiosk page: look up a student and a book, then lend or take back a copy. */
module IssueReturn {
  import opened Wrappers
  import opened Seqs
  import opened Records
  import opened RecordStore
  import opened ScanRouting

  /** Book lookups start once the typed or scanned id has this many characters. */
  const LOOKUP_MIN_LENGTH := 3

  datatype SearchOutcome = StudentFound | StudentNotFound
  datatype IssueOutcome = IssueSkipped | LimitReached | NotAvailable | IssueFailed | BookIssued
  datatype ReturnOutcome = ReturnSkipped | NotIssuedToStudent | ReturnFailed | BookReturned

  function JoinedBookIs(bookId: string): LoanView -> bool {
    (v: LoanView) => v.book.Some? && v.book.value.bookId == bookId
  }

  /** The loan the return handler picks: the first cached loan whose joined book has the scanned id. */
  function ReturnTarget(issued: seq<LoanView>, bookId: string): (r: Option<nat>)
    ensures r.Some? ==>
      r.value < |issued| && issued[r.value].book.Some? && issued[r.value].book.value.bookId == bookId
    ensures r.Some? ==> forall j :: 0 <= j < r.value ==> !JoinedBookIs(bookId)(issued[j])
    ensures r.None? <==> forall j :: 0 <= j < |issued| ==> !JoinedBookIs(bookId)(issued[j])
  {
    FirstIndex(JoinedBookIs(bookId), issued)
  }

  /** None of the loans is of the book. */
  ghost predicate HoldsNoCopy(issued: seq<LoanView>, bookId: string) {
    forall v :: v in issued ==> v.loan.bookId != bookId
  }

  /** A cached current loan is the stored row under its key, still out, joined with its stored book. */
  lemma CachedLoanIsStored(books: seq<Book>, loans: seq<Loan>, rollNo: string, t: nat)
    requires LoanIdsArePositions(loans)
    requires t < |CurrentLoans(loans, books, rollNo)|
    ensures var v := CurrentLoans(loans, books, rollNo)[t];
      && v.loan.id < |loans| && loans[v.loan.id] == v.loan
      && v.loan.returnStatus == ISSUED && v.loan.studentId == rollNo
      && v.book == BookById(books, v.loan.bookId)
  {
    var current := Filter(CurrentLoanOf(rollNo), loans);
    var l := current[t];
    assert l in current;
    var i :| 0 <= i < |loans| && loans[i] == l;
  }

  class IssueReturnPage {
    /** The student id input. */
    var studentId: string
    var student: Option<Student>
    /** The student's current loans as last fetched, each joined with its book. */
    var issuedBooks: seq<LoanView>
    /** The book id input. */
    var bookId: string
    var bookDetails: Option<Book>
    const store: Store

    /** The cached rows agree with the store: every write of this page is followed by a re-fetch. */
    ghost predicate Coherent()
      reads this, store
    {
      && (student.Some? ==> issuedBooks == CurrentLoans(store.loans, store.books, student.value.rollNo))
      && (student.None? ==> issuedBooks == [])
      && (bookDetails.Some? ==> BookById(store.books, bookDetails.value.bookId) == bookDetails)
    }

    ghost predicate Valid()
      reads this, store
    {
      store.Valid() && Coherent()
    }

    constructor (store: Store)
      ensures this.store == store
      ensures studentId == "" && student == None && issuedBooks == [] && bookId == "" && bookDetails == None
      ensures store.Valid() ==> Valid()
    {
      this.store := store;
      studentId, student, issuedBooks, bookId, bookDetails := "", None, [], "", None;
    }

    /** Typing into the student id input. */
    method EnterStudentId(value: string)
      modifies this
      ensures studentId == value
      ensures student == old(student) && issuedBooks == old(issuedBooks)
      ensures bookId == old(bookId) && bookDetails == old(bookDetails)
      ensures old(Valid()) ==> Valid()
    {
      studentId := value;
    }

    /** `handleStudentSearch`: find the student by roll number and fetch their current loans. */
    method StudentSearch() returns (outcome: SearchOutcome)
      modifies this
      ensures var found := StudentByRollNo(store.students, studentId);
        && (found.None? ==> outcome == StudentNotFound && student == old(student) && issuedBooks == old(issuedBooks))
        && (found.Some? ==> outcome == StudentFound && student == found
                            && issuedBooks == CurrentLoans(store.loans, store.books, found.value.rollNo))
      ensures studentId == old(studentId) && bookId == old(bookId) && bookDetails == old(bookDetails)
      ensures old(Valid()) ==> Valid()
    {
      var found := StudentByRollNo(store.students, studentId);
      if found.None? {
        outcome := StudentNotFound;
        return;
      }
      student := found;
      issuedBooks := CurrentLoans(store.loans, store.books, found.value.rollNo);
      outcome := StudentFound;
    }

    /** `handleBookIdChange`: keep the input, and look the book up once the id is long enough. */
    method BookIdChange(value: string)
      modifies this
      ensures bookId == value
      ensures bookDetails == if |value| >= LOOKUP_MIN_LENGTH then BookById(store.books, value) else None
      ensures studentId == old(studentId) && student == old(student) && issuedBooks == old(issuedBooks)
      ensures old(Valid()) ==> Valid()
    {
      bookId := value;
      if |value| >= LOOKUP_MIN_LENGTH {
        bookDetails := BookById(store.books, value);
      } else {
        bookDetails := None;
      }
    }

    /**
     * `handleIssueBook`: the loan limit is checked on the cached loans, then availability on the
     * cached book row; on success a loan is inserted, the count set to the cached count less one,
     * the issue logged, and the student's loans re-fetched.
     */
    method IssueBook(now: Timestamp, insertAccepted: bool) returns (outcome: IssueOutcome)
      modifies this, store
      ensures old(bookDetails).None? || old(student).None? ==> outcome == IssueSkipped
      ensures old(bookDetails).Some? && old(student).Some? ==>
        && (|old(issuedBooks)| >= MAX_LOANS ==> outcome == LimitReached)
        && (|old(issuedBooks)| < MAX_LOANS && OrZero(old(bookDetails).value.availableCount) <= 0 ==>
              outcome == NotAvailable)
        && (|old(issuedBooks)| < MAX_LOANS && OrZero(old(bookDetails).value.availableCount) > 0 ==>
              outcome == if insertAccepted then BookIssued else IssueFailed)
      ensures outcome != BookIssued ==> unchanged(this, store)
      ensures outcome == BookIssued ==>
        var rollNo, book := old(student).value.rollNo, old(bookDetails).value;
        && store.loans == old(store.loans) + [NewLoan(|old(store.loans)|, rollNo, book.bookId, now)]
        && store.books == SetAvailable(old(store.books), book.bookId, OrZero(book.availableCount) - 1)
        && store.transactions == old(store.transactions) + [Transaction(rollNo, book.bookId, IssueAction)]
        && store.students == old(store.students)
        && issuedBooks == CurrentLoans(store.loans, store.books, rollNo)
        && bookId == "" && bookDetails == None
        && student == old(student) && studentId == old(studentId)
      ensures old(Valid()) ==> Valid()
    {
      if bookDetails.None? || student.None? {
        return IssueSkipped;
      }
      if |issuedBooks| >= MAX_LOANS {
        return LimitReached;
      }
      var book, rollNo := bookDetails.value, student.value.rollNo;
      if OrZero(book.availableCount) <= 0 {
        return NotAvailable;
      }
      if !insertAccepted {
        return IssueFailed;
      }
      RecordIssue(now);
      outcome := BookIssued;
    }

    /**
     * The writes of a successful issue: the loan row, the count set to the cached count less
     * one, the log entry, then the re-fetch of the student's loans and the cleared book input.
     */
    method RecordIssue(now: Timestamp)
      requires student.Some? && bookDetails.Some?
      requires |issuedBooks| < MAX_LOANS && OrZero(bookDetails.value.availableCount) > 0
      modifies this, store
      ensures var rollNo, book := old(student).value.rollNo, old(bookDetails).value;
        && store.loans == old(store.loans) + [NewLoan(|old(store.loans)|, rollNo, book.bookId, now)]
        && store.books == SetAvailable(old(store.books), book.bookId, OrZero(book.availableCount) - 1)
        && store.transactions == old(store.transactions) + [Transaction(rollNo, book.bookId, IssueAction)]
        && store.students == old(store.students)
        && issuedBooks == CurrentLoans(store.loans, store.books, rollNo)
        && bookId == "" && bookDetails == None
        && student == old(student) && studentId == old(studentId)
      ensures old(Valid()) ==> Valid()
    {
      var book, rollNo := bookDetails.value, student.value.rollNo;
      ghost var wasValid := Valid();
      ghost var books0, loans0 := store.books, store.loans;
      store.InsertLoan(rollNo, book.bookId, now);
      store.UpdateAvailable(book.bookId, OrZero(book.availableCount) - 1);
      store.Log(Transaction(rollNo, book.bookId, IssueAction));
      issuedBooks := CurrentLoans(store.loans, store.books, rollNo);
      bookId, bookDetails := "", None;
      if wasValid {
        IssueKeepsValid(books0, loans0, store.students, rollNo, book, now);
      }
    }

    /**
     * `handleReturnBook`: the scanned id must match the book of one of the cached loans; the first
     * such loan is marked returned, the book's count set to the joined snapshot's count plus one,
     * the return logged, and the student's loans re-fetched.
     */
    method ReturnBook(now: Timestamp, updateAccepted: bool) returns (outcome: ReturnOutcome)
      modifies this, store
      ensures old(bookId) == "" || old(student).None? ==> outcome == ReturnSkipped
      ensures old(bookId) != "" && old(student).Some? ==>
        var target := ReturnTarget(old(issuedBooks), old(bookId));
        && (target.None? ==> outcome == NotIssuedToStudent)
        && (target.Some? ==> outcome == if updateAccepted then BookReturned else ReturnFailed)
      ensures outcome != BookReturned ==> unchanged(this, store)
      ensures outcome == BookReturned ==>
        ReturnTarget(old(issuedBooks), old(bookId)).Some? &&
        var rollNo, v := old(student).value.rollNo, old(issuedBooks)[ReturnTarget(old(issuedBooks), old(bookId)).value];
        && store.loans == MarkReturned(old(store.loans), v.loan.id, now)
        && store.books == SetAvailable(old(store.books), v.loan.bookId, OrZero(v.book.value.availableCount) + 1)
        && store.transactions == old(store.transactions) + [Transaction(rollNo, v.loan.bookId, ReturnAction)]
        && store.students == old(store.students)
        && issuedBooks == CurrentLoans(store.loans, store.books, rollNo)
        && bookId == "" && bookDetails == None
        && student == old(student) && studentId == old(studentId)
      ensures old(Valid()) ==> Valid()
    {
      if bookId == "" || student.None? {
        return ReturnSkipped;
      }
      var target := ReturnTarget(issuedBooks, bookId);
      if target.None? {
        return NotIssuedToStudent;
      }
      if !updateAccepted {
        return ReturnFailed;
      }
      RecordReturn(now, target.value);
      outcome := BookReturned;
    }

    /**
     * The writes of a successful return of cached loan `t`: the loan marked returned, the count
     * set to the joined snapshot's count plus one, the log entry, then the re-fetch of the
     * student's loans and the cleared book input.
     */
    method RecordReturn(now: Timestamp, t: nat)
      requires student.Some? && t < |issuedBooks| && issuedBooks[t].book.Some?
      modifies this, store
      ensures var rollNo, v := old(student).value.rollNo, old(issuedBooks)[t];
        && store.loans == MarkReturned(old(store.loans), v.loan.id, now)
        && store.books == SetAvailable(old(store.books), v.loan.bookId, OrZero(v.book.value.availableCount) + 1)
        && store.transactions == old(store.transactions) + [Transaction(rollNo, v.loan.bookId, ReturnAction)]
        && store.students == old(store.students)
        && issuedBooks == CurrentLoans(store.loans, store.books, rollNo)
        && bookId == "" && bookDetails == None
        && student == old(student) && studentId == old(studentId)
      ensures old(Valid()) ==> Valid()
    {
      var v, rollNo := issuedBooks[t], student.value.rollNo;
      ghost var wasValid := Valid();
      ghost var books0, loans0 := store.books, store.loans;
      store.MarkLoanReturned(v.loan.id, now);
      store.UpdateAvailable(v.loan.bookId, OrZero(v.book.value.availableCount) + 1);
      store.Log(Transaction(rollNo, v.loan.bookId, ReturnAction));
      issuedBooks := CurrentLoans(store.loans, store.books, rollNo);
      bookId, bookDetails := "", None;
      if wasValid {
        CachedLoanIsStored(books0, loans0, rollNo, t);
        ReturnKeepsValid(books0, loans0, store.students, v.loan.id, v.book.value, now);
      }
    }

    /**
     * A line from the card reader: a student card fills the student input, and the synthetic Enter
     * submits the search only while the student form is on screen, that is while no student is
     * shown (once one is, the first input is the book input, which has no key handler); a book
     * tag goes to the book lookup; an empty line is dropped.
     */
    method OnSerialLine(line: string)
      modifies this
      ensures RouteLine(line).Ignored? ==> unchanged(this)
      ensures RouteLine(line).ToStudent? ==>
        && studentId == line && bookId == old(bookId) && bookDetails == old(bookDetails)
        && (old(student).Some? ==> student == old(student) && issuedBooks == old(issuedBooks))
        && (old(student).None? ==>
              var found := StudentByRollNo(store.students, line);
              && (found.None? ==> student == None && issuedBooks == old(issuedBooks))
              && (found.Some? ==> student == found
                                  && issuedBooks == CurrentLoans(store.loans, store.books, found.value.rollNo)))
      ensures RouteLine(line).ToBook? ==>
        && bookId == line && studentId == old(studentId)
        && student == old(student) && issuedBooks == old(issuedBooks)
        && bookDetails == if |line| >= LOOKUP_MIN_LENGTH then BookById(store.books, line) else None
      ensures old(Valid()) ==> Valid()
    {
      match RouteLine(line)
      case ToStudent(id) =>
        studentId := id;
        if student.None? {
          var _ := StudentSearch();
        }
      case ToBook(id) =>
        BookIdChange(id);
      case Ignored =>
    }
  }

  /**
   * The student's current loans after a loan of `book`: the earlier ones, now joined with the
   * updated books table, followed by the new loan joined with the row holding the new count.
   */
  lemma IssuedAfterIssue(
    books: seq<Book>, loans: seq<Loan>, rollNo: string, book: Book, l: Loan, count: int,
    books1: seq<Book>, loans1: seq<Loan>)
    requires UniqueBookIds(books) && BookById(books, book.bookId) == Some(book)
    requires l.studentId == rollNo && l.bookId == book.bookId && l.returnStatus == ISSUED
    requires books1 == SetAvailable(books, book.bookId, count) && loans1 == loans + [l]
    ensures CurrentLoans(loans1, books1, rollNo)
      == WithBooks(Filter(CurrentLoanOf(rollNo), loans), books1) + [LoanView(l, Some(book.(availableCount := Some(count))))]
  {
    FilterAppendOne(CurrentLoanOf(rollNo), loans, l);
    WithBooksAppendOne(Filter(CurrentLoanOf(rollNo), loans), l, books1);
    BookAfterSetAvailable(books, book, count);
  }

  /**
   * After a loan of `book` to `rollNo`, the return handler finds a loan of that book among the
   * re-fetched loans, joined with the decremented row; it is the new loan when the student held
   * no other copy of the book.
   */
  lemma ReturnFindsIssuedBook(
    books: seq<Book>, loans: seq<Loan>, rollNo: string, book: Book, l: Loan,
    books1: seq<Book>, loans1: seq<Loan>)
    requires UniqueBookIds(books)
    requires BookById(books, book.bookId) == Some(book) && OrZero(book.availableCount) > 0
    requires l == NewLoan(|loans|, rollNo, book.bookId, l.issueDate)
    requires books1 == SetAvailable(books, book.bookId, OrZero(book.availableCount) - 1)
    requires loans1 == loans + [l]
    ensures ReturnTarget(CurrentLoans(loans1, books1, rollNo), book.bookId).Some?
    ensures var issued := CurrentLoans(loans1, books1, rollNo);
      var v := issued[ReturnTarget(issued, book.bookId).value];
      && v.loan.bookId == book.bookId
      && v.book == Some(book.(availableCount := Some(OrZero(book.availableCount) - 1)))
      && (HoldsNoCopy(CurrentLoans(loans, books, rollNo), book.bookId) ==> v.loan == l)
  {
    var count := OrZero(book.availableCount) - 1;
    var current := Filter(CurrentLoanOf(rollNo), loans);
    var earlier := WithBooks(current, books1);
    IssuedAfterIssue(books, loans, rollNo, book, l, count, books1, loans1);
    var issued := CurrentLoans(loans1, books1, rollNo);
    var last := |current|;
    assert issued[last] == LoanView(l, Some(book.(availableCount := Some(count))));
    assert JoinedBookIs(book.bookId)(issued[last]);
    var k := ReturnTarget(issued, book.bookId).value;
    var v := issued[k];
    assert v.book.Some? && v.book.value.bookId == book.bookId;
    if k < last {
      assert v == earlier[k] && v.book == BookById(books1, current[k].bookId);
    }
    assert v.loan.bookId == book.bookId;
    BookAfterSetAvailable(books, book, count);
    assert v.book == Some(book.(availableCount := Some(count)));
    if HoldsNoCopy(CurrentLoans(loans, books, rollNo), book.bookId) && k < last {
      assert false;
    }
  }

  /**
   * The books table after a loan of `book` (the rows `IssueBook` writes) followed by the return of
   * the loan `ReturnBook` picks for that book id among the re-fetched loans: it is as before.
   */
  lemma IssueThenReturnBooks(
    books: seq<Book>, loans: seq<Loan>, rollNo: string, book: Book, l: Loan,
    books1: seq<Book>, loans1: seq<Loan>, k: nat)
    requires UniqueBookIds(books)
    requires BookById(books, book.bookId) == Some(book) && OrZero(book.availableCount) > 0
    requires l == NewLoan(|loans|, rollNo, book.bookId, l.issueDate)
    requires books1 == SetAvailable(books, book.bookId, OrZero(book.availableCount) - 1)
    requires loans1 == loans + [l]
    requires ReturnTarget(CurrentLoans(loans1, books1, rollNo), book.bookId) == Some(k)
    ensures var v := CurrentLoans(loans1, books1, rollNo)[k];
      SetAvailable(books1, v.loan.bookId, OrZero(v.book.value.availableCount) + 1) == books
  {
    ReturnFindsIssuedBook(books, loans, rollNo, book, l, books1, loans1);
    var v := CurrentLoans(loans1, books1, rollNo)[k];
    assert v.loan.bookId == book.bookId;
    assert OrZero(v.book.value.availableCount) + 1 == book.availableCount.value;
    SetAvailableRestores(books, book, OrZero(book.availableCount) - 1);
  }

  /** Issuing loan `l` and then returning a current loan of the same student leaves them holding as many books. */
  lemma HeldRestored(loans: seq<Loan>, l: Loan, id: nat, later: Timestamp)
    requires l.returnStatus == ISSUED && LoanIdsArePositions(loans + [l])
    requires id < |loans| + 1 && (loans + [l])[id].returnStatus == ISSUED
    requires (loans + [l])[id].studentId == l.studentId
    ensures HeldCount(MarkReturned(loans + [l], id, later), l.studentId) == HeldCount(loans, l.studentId)
  {
    CountsAfterIssue(loans, l);
    CountsAfterReturn(loans + [l], id, later);
  }

  /** Returning the loan just appended marks that last row and no other. */
  lemma ReturnOfNewLoan(loans: seq<Loan>, l: Loan, later: Timestamp)
    requires LoanIdsArePositions(loans) && l.id == |loans|
    ensures MarkReturned(loans + [l], |loans|, later) == loans + [l.(returnStatus := RETURNED, returnDate := Some(later))]
  {
    var r := MarkReturned(loans + [l], |loans|, later);
    forall i | 0 <= i < |loans|
      ensures r[i] == loans[i]
    {
      assert (loans + [l])[i] == loans[i];
    }
  }

  /**
   * The loans table after the same two steps: one row longer, the student holding as many books
   * as before, and without another copy held the new loan is the one marked returned.
   */
  lemma IssueThenReturnLoans(
    books: seq<Book>, loans: seq<Loan>, rollNo: string, book: Book, l: Loan, later: Timestamp,
    books1: seq<Book>, loans1: seq<Loan>, k: nat)
    requires UniqueBookIds(books) && LoanIdsArePositions(loans)
    requires BookById(books, book.bookId) == Some(book) && OrZero(book.availableCount) > 0
    requires l == NewLoan(|loans|, rollNo, book.bookId, l.issueDate)
    requires books1 == SetAvailable(books, book.bookId, OrZero(book.availableCount) - 1)
    requires loans1 == loans + [l]
    requires ReturnTarget(CurrentLoans(loans1, books1, rollNo), book.bookId) == Some(k)
    ensures var v := CurrentLoans(loans1, books1, rollNo)[k];
      && |MarkReturned(loans1, v.loan.id, later)| == |loans| + 1
      && HeldCount(MarkReturned(loans1, v.loan.id, later), rollNo) == HeldCount(loans, rollNo)
      && (HoldsNoCopy(CurrentLoans(loans, books, rollNo), book.bookId) ==>
            MarkReturned(loans1, v.loan.id, later) == loans + [l.(returnStatus := RETURNED, returnDate := Some(later))])
  {
    assert LoanIdsArePositions(loans1);
    var v := CurrentLoans(loans1, books1, rollNo)[k];
    CachedLoanIsStored(books1, loans1, rollNo, k);
    HeldRestored(loans, l, v.loan.id, later);
    if HoldsNoCopy(CurrentLoans(loans, books, rollNo), book.bookId) {
      ReturnFindsIssuedBook(books, loans, rollNo, book, l, books1, loans1);
      assert v.loan == l;
      ReturnOfNewLoan(loans, l, later);
    }
  }
}
