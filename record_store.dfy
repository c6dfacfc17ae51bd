/**
 * The record store as in-memory tables, the invariants that the pages keep on it, and the
 * writes the pages issue (`insert`, `update ... eq`).
 */
module RecordStore {
  import opened Wrappers
  import opened Seqs
  import opened Records

  ghost predicate UniqueBookIds(books: seq<Book>) {
    forall i, j :: 0 <= i < j < |books| ==> books[i].bookId != books[j].bookId
  }

  ghost predicate UniqueStudents(students: seq<Student>) {
    forall i, j :: 0 <= i < j < |students| ==>
      students[i].rollNo != students[j].rollNo && students[i].email != students[j].email
  }

  /** Registration stores the roll number as the student id too. */
  ghost predicate StudentIdsAreRollNos(students: seq<Student>) {
    forall i :: 0 <= i < |students| ==> students[i].studentId == students[i].rollNo
  }

  /** The generated loan keys: the k-th loan row has key k. */
  ghost predicate LoanIdsArePositions(loans: seq<Loan>) {
    forall i :: 0 <= i < |loans| ==> loans[i].id == i
  }

  ghost predicate HasBookRow(books: seq<Book>, id: string) {
    exists j :: 0 <= j < |books| && books[j].bookId == id
  }

  ghost predicate LoansReferenceBooks(loans: seq<Loan>, books: seq<Book>) {
    forall i :: 0 <= i < |loans| ==> HasBookRow(books, loans[i].bookId)
  }

  /**
   * The copy accounting of one book: the available count is the total less the copies out,
   * and a negative available count (a book registered with a negative total) has none out.
   */
  ghost predicate Accounted(b: Book, loans: seq<Loan>) {
    && b.totalCount.Some? && b.availableCount.Some?
    && b.availableCount.value == b.totalCount.value - ActiveCount(loans, b.bookId)
    && (b.availableCount.value < 0 ==> ActiveCount(loans, b.bookId) == 0)
  }

  ghost predicate BooksAccounted(books: seq<Book>, loans: seq<Loan>) {
    forall j :: 0 <= j < |books| ==> Accounted(books[j], loans)
  }

  ghost predicate WithinLoanLimit(loans: seq<Loan>) {
    forall sid :: HeldCount(loans, sid) <= MAX_LOANS
  }

  ghost predicate TablesValid(books: seq<Book>, loans: seq<Loan>, students: seq<Student>) {
    && UniqueBookIds(books)
    && UniqueStudents(students)
    && StudentIdsAreRollNos(students)
    && LoanIdsArePositions(loans)
    && LoansReferenceBooks(loans, books)
    && BooksAccounted(books, loans)
    && WithinLoanLimit(loans)
  }

  /** `update({ available_count: count }).eq('book_id', id)` on the books table. */
  function SetAvailable(books: seq<Book>, id: string, count: int): (r: seq<Book>)
    ensures |r| == |books|
    ensures forall i :: 0 <= i < |r| ==> r[i].bookId == books[i].bookId
  {
    seq(|books|, i requires 0 <= i < |books| =>
      if books[i].bookId == id then books[i].(availableCount := Some(count)) else books[i])
  }

  /** `update({ return_status: 'returned', return_date: now }).eq('id', id)` on the loans table. */
  function MarkReturned(loans: seq<Loan>, id: nat, now: Timestamp): (r: seq<Loan>)
    ensures |r| == |loans|
    ensures forall i :: 0 <= i < |r| ==>
      r[i].id == loans[i].id && r[i].bookId == loans[i].bookId && r[i].studentId == loans[i].studentId
  {
    seq(|loans|, i requires 0 <= i < |loans| =>
      if loans[i].id == id then loans[i].(returnStatus := RETURNED, returnDate := Some(now)) else loans[i])
  }

  /** When book ids are unique, the lookup by id finds each book. */
  lemma BookFound(books: seq<Book>, j: nat)
    requires UniqueBookIds(books) && j < |books|
    ensures BookById(books, books[j].bookId) == Some(books[j])
  {
    UniqueMatch(HasBookId(books[j].bookId), books, books[j]);
  }

  /** When book ids are unique, a failed lookup means that no row has the id. */
  lemma BookAbsent(books: seq<Book>, id: string)
    requires UniqueBookIds(books) && BookById(books, id).None?
    ensures !HasBookRow(books, id)
  {
    if HasBookRow(books, id) {
      var j :| 0 <= j < |books| && books[j].bookId == id;
      BookFound(books, j);
    }
  }

  /** A successful lookup is the only row with that id. */
  lemma BookLookedUp(books: seq<Book>, b: Book, j: nat)
    requires BookById(books, b.bookId) == Some(b) && j < |books| && books[j].bookId == b.bookId
    ensures books[j] == b
  {
    var rows := Filter(HasBookId(b.bookId), books);
    assert books[j] in books;
    assert books[j] in rows;
    assert |rows| == 1 && rows[0] == b;
  }

  /** Under unique roll numbers, the duplicate check finds a row exactly when one exists. */
  lemma RollNoTakenIffPresent(students: seq<Student>, rollNo: string)
    requires UniqueStudents(students)
    ensures MaybeSingle(Filter(HasRollNo(rollNo), students)).Some?
        <==> exists i :: 0 <= i < |students| && students[i].rollNo == rollNo
  {
    if i :| 0 <= i < |students| && students[i].rollNo == rollNo {
      UniqueMatch(HasRollNo(rollNo), students, students[i]);
    } else {
      FilterKeepsNone(HasRollNo(rollNo), students);
    }
  }

  /** Under unique emails, the duplicate check finds a row exactly when one exists. */
  lemma EmailTakenIffPresent(students: seq<Student>, email: string)
    requires UniqueStudents(students)
    ensures MaybeSingle(Filter(HasEmail(email), students)).Some?
        <==> exists i :: 0 <= i < |students| && students[i].email == email
  {
    if i :| 0 <= i < |students| && students[i].email == email {
      UniqueMatch(HasEmail(email), students, students[i]);
    } else {
      FilterKeepsNone(HasEmail(email), students);
    }
  }

  /** The copy counts stay in range: never above the total, never negative for a non-negative total. */
  lemma CountsInRange(books: seq<Book>, loans: seq<Loan>, students: seq<Student>, j: nat)
    requires TablesValid(books, loans, students) && j < |books|
    ensures books[j].availableCount.Some? && books[j].totalCount.Some?
    ensures books[j].availableCount.value <= books[j].totalCount.value
    ensures books[j].totalCount.value >= 0 ==> books[j].availableCount.value >= 0
  {
    assert Accounted(books[j], loans);
  }

  /** Issuing: one more copy of the book is out, and one more book is held by the student. */
  lemma CountsAfterIssue(loans: seq<Loan>, l: Loan)
    requires l.returnStatus == ISSUED
    ensures forall id :: ActiveCount(loans + [l], id) == ActiveCount(loans, id) + (if id == l.bookId then 1 else 0)
    ensures forall sid :: HeldCount(loans + [l], sid) == HeldCount(loans, sid) + (if sid == l.studentId then 1 else 0)
  {
    forall id
      ensures ActiveCount(loans + [l], id) == ActiveCount(loans, id) + (if id == l.bookId then 1 else 0)
    {
      FilterAppendOne(CurrentLoanOfBook(id), loans, l);
    }
    forall sid
      ensures HeldCount(loans + [l], sid) == HeldCount(loans, sid) + (if sid == l.studentId then 1 else 0)
    {
      FilterAppendOne(CurrentLoanOf(sid), loans, l);
    }
  }

  /** Returning loan `k`: one copy fewer of its book is out, and its student holds one book fewer. */
  lemma CountsAfterReturn(loans: seq<Loan>, k: nat, now: Timestamp)
    requires LoanIdsArePositions(loans) && k < |loans| && loans[k].returnStatus == ISSUED
    ensures MarkReturned(loans, k, now) == loans[k := loans[k].(returnStatus := RETURNED, returnDate := Some(now))]
    ensures forall id :: ActiveCount(MarkReturned(loans, k, now), id)
                      == ActiveCount(loans, id) - (if id == loans[k].bookId then 1 else 0)
    ensures forall sid :: HeldCount(MarkReturned(loans, k, now), sid)
                       == HeldCount(loans, sid) - (if sid == loans[k].studentId then 1 else 0)
  {
    var y := loans[k].(returnStatus := RETURNED, returnDate := Some(now));
    assert MarkReturned(loans, k, now) == loans[k := y];
    forall id
      ensures ActiveCount(loans[k := y], id) == ActiveCount(loans, id) - (if id == loans[k].bookId then 1 else 0)
    {
      FilterUpdate(CurrentLoanOfBook(id), loans, k, y);
    }
    forall sid
      ensures HeldCount(loans[k := y], sid) == HeldCount(loans, sid) - (if sid == loans[k].studentId then 1 else 0)
    {
      FilterUpdate(CurrentLoanOf(sid), loans, k, y);
    }
  }

  /**
   * A successful issue keeps every table invariant, provided the cached book row is the stored
   * one and the cached loan count is the stored one.
   */
  lemma IssueKeepsValid(
    books: seq<Book>, loans: seq<Loan>, students: seq<Student>,
    rollNo: string, book: Book, now: Timestamp)
    requires TablesValid(books, loans, students)
    requires BookById(books, book.bookId) == Some(book)
    requires HeldCount(loans, rollNo) < MAX_LOANS
    requires OrZero(book.availableCount) > 0
    ensures TablesValid(
      SetAvailable(books, book.bookId, OrZero(book.availableCount) - 1),
      loans + [NewLoan(|loans|, rollNo, book.bookId, now)], students)
  {
    var books', l := SetAvailable(books, book.bookId, OrZero(book.availableCount) - 1), NewLoan(|loans|, rollNo, book.bookId, now);
    var loans' := loans + [l];
    CountsAfterIssue(loans, l);
    forall i | 0 <= i < |loans'|
      ensures HasBookRow(books', loans'[i].bookId)
    {
      if i < |loans| {
        assert HasBookRow(books, loans[i].bookId);
        var j :| 0 <= j < |books| && books[j].bookId == loans[i].bookId;
        assert books'[j].bookId == loans'[i].bookId;
      } else {
        var j :| 0 <= j < |books| && books[j].bookId == book.bookId;
        assert books'[j].bookId == loans'[i].bookId;
      }
    }
    forall j | 0 <= j < |books'|
      ensures Accounted(books'[j], loans')
    {
      assert Accounted(books[j], loans);
      if books[j].bookId == book.bookId {
        BookLookedUp(books, book, j);
      }
    }
  }

  /** Updates that keep every row's book id keep every loan's book row. */
  lemma ReferencesKept(loans: seq<Loan>, books: seq<Book>, loans': seq<Loan>, books': seq<Book>)
    requires LoansReferenceBooks(loans, books)
    requires |loans'| == |loans| && forall i :: 0 <= i < |loans| ==> loans'[i].bookId == loans[i].bookId
    requires |books'| == |books| && forall j :: 0 <= j < |books| ==> books'[j].bookId == books[j].bookId
    ensures LoansReferenceBooks(loans', books')
  {
    forall i | 0 <= i < |loans'|
      ensures HasBookRow(books', loans'[i].bookId)
    {
      assert HasBookRow(books, loans[i].bookId);
      var j :| 0 <= j < |books| && books[j].bookId == loans[i].bookId;
      assert books'[j].bookId == loans'[i].bookId;
    }
  }

  /** Returning current loan `k` and adding one to its book's snapshot count keeps the copy accounting. */
  lemma AccountedAfterReturn(books: seq<Book>, loans: seq<Loan>, k: nat, snapshot: Book, now: Timestamp)
    requires UniqueBookIds(books) && LoanIdsArePositions(loans) && BooksAccounted(books, loans)
    requires k < |loans| && loans[k].returnStatus == ISSUED
    requires BookById(books, loans[k].bookId) == Some(snapshot)
    ensures BooksAccounted(
      SetAvailable(books, loans[k].bookId, OrZero(snapshot.availableCount) + 1), MarkReturned(loans, k, now))
  {
    var id := loans[k].bookId;
    var books' := SetAvailable(books, id, OrZero(snapshot.availableCount) + 1);
    var loans' := MarkReturned(loans, k, now);
    CountsAfterReturn(loans, k, now);
    assert ActiveCount(loans, id) >= 1 by {
      assert loans[k] in loans && CurrentLoanOfBook(id)(loans[k]);
      assert loans[k] in Filter(CurrentLoanOfBook(id), loans);
    }
    forall j | 0 <= j < |books'|
      ensures Accounted(books'[j], loans')
    {
      assert Accounted(books[j], loans);
      if books[j].bookId == id {
        BookLookedUp(books, snapshot, j);
      }
    }
  }

  /** A successful return of the current loan `k` keeps every table invariant, given a fresh snapshot. */
  lemma ReturnKeepsValid(
    books: seq<Book>, loans: seq<Loan>, students: seq<Student>,
    k: nat, snapshot: Book, now: Timestamp)
    requires TablesValid(books, loans, students)
    requires k < |loans| && loans[k].returnStatus == ISSUED
    requires BookById(books, loans[k].bookId) == Some(snapshot)
    ensures TablesValid(
      SetAvailable(books, loans[k].bookId, OrZero(snapshot.availableCount) + 1),
      MarkReturned(loans, k, now), students)
  {
    var id := loans[k].bookId;
    var books' := SetAvailable(books, id, OrZero(snapshot.availableCount) + 1);
    var loans' := MarkReturned(loans, k, now);
    assert WithinLoanLimit(loans') by {
      CountsAfterReturn(loans, k, now);
    }
    ReferencesKept(loans, books, loans', books');
    AccountedAfterReturn(books, loans, k, snapshot, now);
  }

  /** Registering a book under an unused id, with equal counts, keeps every table invariant. */
  lemma AddBookKeepsValid(books: seq<Book>, loans: seq<Loan>, students: seq<Student>, b: Book)
    requires TablesValid(books, loans, students)
    requires BookById(books, b.bookId).None?
    requires b.totalCount.Some? && b.availableCount == b.totalCount
    ensures TablesValid(books + [b], loans, students)
  {
    BookAbsent(books, b.bookId);
    var books' := books + [b];
    forall i | 0 <= i < |loans|
      ensures HasBookRow(books', loans[i].bookId) && loans[i].bookId != b.bookId
    {
      assert HasBookRow(books, loans[i].bookId);
      var j :| 0 <= j < |books| && books[j].bookId == loans[i].bookId;
      assert books'[j].bookId == loans[i].bookId;
    }
    FilterKeepsNone(CurrentLoanOfBook(b.bookId), loans);
    forall j | 0 <= j < |books'|
      ensures Accounted(books'[j], loans)
    {
      if j < |books| {
        assert Accounted(books[j], loans);
      }
    }
  }

  /** Registering a student whose roll number and email are both unused keeps every table invariant. */
  lemma AddStudentKeepsValid(books: seq<Book>, loans: seq<Loan>, students: seq<Student>, s: Student)
    requires TablesValid(books, loans, students)
    requires MaybeSingle(Filter(HasRollNo(s.rollNo), students)).None?
    requires MaybeSingle(Filter(HasEmail(s.email), students)).None?
    requires s.studentId == s.rollNo
    ensures TablesValid(books, loans, students + [s])
  {
    RollNoTakenIffPresent(students, s.rollNo);
    EmailTakenIffPresent(students, s.email);
  }

  /** Setting a book's count and then setting it back to its stored value restores the table. */
  lemma SetAvailableRestores(books: seq<Book>, b: Book, count: int)
    requires UniqueBookIds(books) && BookById(books, b.bookId) == Some(b) && b.availableCount.Some?
    ensures SetAvailable(SetAvailable(books, b.bookId, count), b.bookId, b.availableCount.value) == books
  {
    var r := SetAvailable(SetAvailable(books, b.bookId, count), b.bookId, b.availableCount.value);
    forall j | 0 <= j < |books|
      ensures r[j] == books[j]
    {
      if books[j].bookId == b.bookId {
        BookLookedUp(books, b, j);
      }
    }
  }

  /** The row a lookup finds after a count update is the old row with the new count. */
  lemma BookAfterSetAvailable(books: seq<Book>, b: Book, count: int)
    requires UniqueBookIds(books) && BookById(books, b.bookId) == Some(b)
    ensures BookById(SetAvailable(books, b.bookId, count), b.bookId) == Some(b.(availableCount := Some(count)))
  {
    var books' := SetAvailable(books, b.bookId, count);
    var j :| 0 <= j < |books| && books[j] == b;
    BookLookedUp(books, b, j);
    assert UniqueBookIds(books');
    BookFound(books', j);
  }

  /** The store's four tables. Reads are the functions of `Records` applied to these fields. */
  class Store {
    var books: seq<Book>
    var loans: seq<Loan>
    var students: seq<Student>
    var transactions: seq<Transaction>

    ghost predicate Valid()
      reads this
    {
      TablesValid(books, loans, students)
    }

    constructor ()
      ensures Valid()
      ensures books == [] && loans == [] && students == [] && transactions == []
    {
      books, loans, students, transactions := [], [], [], [];
    }

    /** `from('issued_books').insert(...)`: a new loan row under the next key. */
    method InsertLoan(studentId: string, bookId: string, now: Timestamp)
      modifies this
      ensures loans == old(loans) + [NewLoan(|old(loans)|, studentId, bookId, now)]
      ensures books == old(books) && students == old(students) && transactions == old(transactions)
    {
      loans := loans + [NewLoan(|loans|, studentId, bookId, now)];
    }

    /** `from('books').update({ available_count }).eq('book_id', bookId)`. */
    method UpdateAvailable(bookId: string, count: int)
      modifies this
      ensures books == SetAvailable(old(books), bookId, count)
      ensures loans == old(loans) && students == old(students) && transactions == old(transactions)
    {
      books := SetAvailable(books, bookId, count);
    }

    /** `from('issued_books').update({ return_status: 'returned', return_date }).eq('id', id)`. */
    method MarkLoanReturned(id: nat, now: Timestamp)
      modifies this
      ensures loans == MarkReturned(old(loans), id, now)
      ensures books == old(books) && students == old(students) && transactions == old(transactions)
    {
      loans := MarkReturned(loans, id, now);
    }

    /** `from('transactions').insert(...)`: the log only grows. */
    method Log(t: Transaction)
      modifies this
      ensures transactions == old(transactions) + [t]
      ensures books == old(books) && loans == old(loans) && students == old(students)
    {
      transactions := transactions + [t];
    }

    /** `from('books').insert(...)`: a row under an unused id, with all copies available, keeps the tables valid. */
    method InsertBook(b: Book)
      modifies this
      ensures books == old(books) + [b]
      ensures loans == old(loans) && students == old(students) && transactions == old(transactions)
      ensures (old(Valid()) && BookById(old(books), b.bookId).None? && b.totalCount.Some?
               && b.availableCount == b.totalCount) ==> Valid()
    {
      if Valid() && BookById(books, b.bookId).None? && b.totalCount.Some? && b.availableCount == b.totalCount {
        AddBookKeepsValid(books, loans, students, b);
      }
      books := books + [b];
    }

    /** `from('students').insert(...)`: a row past both duplicate checks keeps the tables valid. */
    method InsertStudent(s: Student)
      modifies this
      ensures students == old(students) + [s]
      ensures books == old(books) && loans == old(loans) && transactions == old(transactions)
      ensures (old(Valid()) && MaybeSingle(Filter(HasRollNo(s.rollNo), old(students))).None?
               && MaybeSingle(Filter(HasEmail(s.email), old(students))).None? && s.studentId == s.rollNo) ==> Valid()
    {
      if Valid() && MaybeSingle(Filter(HasRollNo(s.rollNo), students)).None?
        && MaybeSingle(Filter(HasEmail(s.email), students)).None? && s.studentId == s.rollNo {
        AddStudentKeepsValid(books, loans, students, s);
      }
      students := students + [s];
    }
  }
}
