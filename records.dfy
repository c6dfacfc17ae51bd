/**
 * The rows of the four tables of the record store (`students`, `books`, `issued_books`,
 * `transactions`) and the lookups the pages run against them.
 */
module Records {
  import opened Wrappers
  import opened Seqs

  /** An instant as the pages write it (`new Date().toISOString()`); the caller supplies it. */
  type Timestamp = string

  /** The two values of `issued_books.return_status`. */
  const ISSUED := "issued"
  const RETURNED := "returned"

  /** The most books one student may hold at once. */
  const MAX_LOANS := 3

  datatype Student = Student(
    rollNo: string, studentId: string, name: string, department: string, batch: string,
    email: string, photoUrl: Option<string>)

  /** Copy counts are nullable numbers; the pages read them through `|| 0` or `<= 0`. */
  datatype Book = Book(
    bookId: string, bookName: string, author: string, photoUrl: Option<string>,
    totalCount: Option<int>, availableCount: Option<int>)

  /**
   * A loan (`issued_books` row). `id` is the key the store generates. `status` is a column the
   * profile page reads besides `return_status`; no page ever writes it.
   */
  datatype Loan = Loan(
    id: nat, bookId: string, studentId: string, issueDate: Timestamp,
    returnDate: Option<Timestamp>, returnStatus: string, status: Option<string>)

  datatype Action = IssueAction | ReturnAction

  /** An audit-log entry; its `created_at` and `notes` are left to the store's defaults. */
  datatype Transaction = Transaction(studentId: string, bookId: string, action: Action)

  /** A loan fetched with `select('*, books(*)')`: the row and its book, or null when none matches. */
  datatype LoanView = LoanView(loan: Loan, book: Option<Book>)

  /**
   * What the photo storage answers to an upload: the public URL of the stored file, or an error.
   * The URL may be empty (`publicUrl || null` then stores null).
   */
  datatype UploadOutcome = Uploaded(publicUrl: string) | UploadFailed

  /** The `photo_url` a page stores after an upload. */
  function PhotoUrlOf(upload: UploadOutcome): (r: Option<string>)
    ensures r.Some? <==> upload.Uploaded? && upload.publicUrl != ""
    ensures r.Some? ==> r.value == upload.publicUrl
  {
    if upload.Uploaded? && upload.publicUrl != "" then Some(upload.publicUrl) else None
  }

  /** `x || 0` on a nullable number. */
  function OrZero(x: Option<int>): int {
    x.GetOr(0)
  }

  /** The loan row the issue handler inserts. */
  function NewLoan(id: nat, studentId: string, bookId: string, now: Timestamp): (l: Loan)
    ensures CurrentLoanOf(studentId)(l) && CurrentLoanOfBook(bookId)(l)
    ensures l.id == id && l.issueDate == now && l.returnDate.None? && l.status.None?
  {
    Loan(id, bookId, studentId, now, None, ISSUED, None)
  }

  // One row predicate per `.eq(column, value)` filter the pages use.

  function HasBookId(id: string): Book -> bool {
    (b: Book) => b.bookId == id
  }

  function HasRollNo(rollNo: string): Student -> bool {
    (s: Student) => s.rollNo == rollNo
  }

  function HasStudentId(studentId: string): Student -> bool {
    (s: Student) => s.studentId == studentId
  }

  function HasEmail(email: string): Student -> bool {
    (s: Student) => s.email == email
  }

  function LoanOf(studentId: string): Loan -> bool {
    (l: Loan) => l.studentId == studentId
  }

  function CurrentLoanOf(studentId: string): Loan -> bool {
    (l: Loan) => l.studentId == studentId && l.returnStatus == ISSUED
  }

  function CurrentLoanOfBook(bookId: string): Loan -> bool {
    (l: Loan) => l.bookId == bookId && l.returnStatus == ISSUED
  }

  /** `.maybeSingle()`: the row when exactly one matches; null when none does or when several do. */
  function MaybeSingle<T>(rows: seq<T>): (r: Option<T>)
    ensures r.Some? <==> |rows| == 1
    ensures r.Some? ==> r.value == rows[0]
  {
    if |rows| == 1 then Some(rows[0]) else None
  }

  /** When at most one row can match, `maybeSingle` finds every row that matches. */
  lemma UniqueMatch<T(!new)>(p: T -> bool, rows: seq<T>, x: T)
    requires forall i, j :: 0 <= i < j < |rows| && p(rows[i]) ==> !p(rows[j])
    requires x in rows && p(x)
    ensures MaybeSingle(Filter(p, rows)) == Some(x)
  {
    FilterAtMostOne(p, rows);
    assert x in Filter(p, rows);
  }

  /** `books ... .eq('book_id', id).maybeSingle()`. */
  function BookById(books: seq<Book>, id: string): (r: Option<Book>)
    ensures r.Some? ==> r.value in books && r.value.bookId == id
    ensures (forall b :: b in books ==> b.bookId != id) ==> r.None?
  {
    var rows := Filter(HasBookId(id), books);
    assert rows != [] ==> rows[0] in rows;
    MaybeSingle(rows)
  }

  /** `students ... .eq('roll_no', rollNo).maybeSingle()`. */
  function StudentByRollNo(students: seq<Student>, rollNo: string): (r: Option<Student>)
    ensures r.Some? ==> r.value in students && r.value.rollNo == rollNo
  {
    var rows := Filter(HasRollNo(rollNo), students);
    assert rows != [] ==> rows[0] in rows;
    MaybeSingle(rows)
  }

  /** `students ... .eq('student_id', studentId).maybeSingle()`. */
  function StudentByStudentId(students: seq<Student>, studentId: string): (r: Option<Student>)
    ensures r.Some? ==> r.value in students && r.value.studentId == studentId
  {
    var rows := Filter(HasStudentId(studentId), students);
    assert rows != [] ==> rows[0] in rows;
    MaybeSingle(rows)
  }

  /** Each loan joined with the book row it references (`select('*, books(*)')`). */
  function WithBooks(loans: seq<Loan>, books: seq<Book>): (r: seq<LoanView>)
    ensures |r| == |loans|
    ensures forall i :: 0 <= i < |r| ==> r[i] == LoanView(loans[i], BookById(books, loans[i].bookId))
  {
    seq(|loans|, i requires 0 <= i < |loans| => LoanView(loans[i], BookById(books, loans[i].bookId)))
  }

  /** Joining one more loan appends its view. */
  lemma WithBooksAppendOne(loans: seq<Loan>, l: Loan, books: seq<Book>)
    ensures WithBooks(loans + [l], books) == WithBooks(loans, books) + [LoanView(l, BookById(books, l.bookId))]
  {
    var a, b := WithBooks(loans + [l], books), WithBooks(loans, books) + [LoanView(l, BookById(books, l.bookId))];
    assert |a| == |b|;
    forall i | 0 <= i < |a|
      ensures a[i] == b[i]
    {
      if i < |loans| {
        assert (loans + [l])[i] == loans[i];
      }
    }
  }

  /** The student's loans with status `issued`, each with its book, in table order. */
  function CurrentLoans(loans: seq<Loan>, books: seq<Book>, studentId: string): (r: seq<LoanView>)
    ensures |r| == HeldCount(loans, studentId)
    ensures forall v {:trigger v in r} :: v in r ==>
      v.loan in loans && CurrentLoanOf(studentId)(v.loan) && v.book == BookById(books, v.loan.bookId)
    ensures forall l {:trigger l in loans} :: l in loans && CurrentLoanOf(studentId)(l) ==>
      LoanView(l, BookById(books, l.bookId)) in r
  {
    var mine := Filter(CurrentLoanOf(studentId), loans);
    var r := WithBooks(mine, books);
    assert forall v :: v in r ==> exists j :: 0 <= j < |mine| && v == LoanView(mine[j], BookById(books, mine[j].bookId));
    assert forall j :: 0 <= j < |mine| ==> mine[j] in mine && r[j] in r;
    r
  }

  /** The number of loans of the book that are still out. */
  function ActiveCount(loans: seq<Loan>, bookId: string): nat {
    |Filter(CurrentLoanOfBook(bookId), loans)|
  }

  /** The number of books the student currently holds. */
  function HeldCount(loans: seq<Loan>, studentId: string): nat {
    |Filter(CurrentLoanOf(studentId), loans)|
  }
}
