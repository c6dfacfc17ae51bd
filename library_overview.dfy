/**
 * The catalogue overview: every book with its available copies, how many copies are out and with
 * whom, filtered by a search term over name, author and id.
 */
module LibraryOverview {
  import opened Wrappers
  import opened Seqs
  import opened Text
  import opened Records
  import opened RecordStore

  /** `issueCount`: the copies of the book that are out, counted over the loan rows. */
  function IssueCount(loans: seq<Loan>, bookId: string): (n: nat)
    ensures n == |PositionsWhere(CurrentLoanOfBook(bookId), loans)|
    ensures n <= |loans|
  {
    FilterCount(CurrentLoanOfBook(bookId), loans);
    ActiveCount(loans, bookId)
  }

  /** The student of one loan, looked up by roll number (`find`): none when no student has it. */
  function HolderOf(e: Loan, students: seq<Student>): (r: seq<Student>)
    ensures |r| <= 1
    ensures r == [] <==> Find(HasRollNo(e.studentId), students).None?
    ensures r != [] ==> r[0] in students && r[0].rollNo == e.studentId
  {
    match Find(HasRollNo(e.studentId), students)
    case None => []
    case Some(s) => [s]
  }

  /** Each loan's student, looked up by roll number (`map(find)`); loans whose student is missing drop out (`filter(Boolean)`). */
  function Holders(entries: seq<Loan>, students: seq<Student>): (r: seq<Student>)
    ensures |r| <= |entries|
    ensures forall s {:trigger s in r} :: s in r ==>
      s in students && exists e :: e in entries && e.studentId == s.rollNo
    ensures forall e :: e in entries && Find(HasRollNo(e.studentId), students).Some? ==>
      Find(HasRollNo(e.studentId), students).value in r
    ensures (forall e :: e in entries ==> exists s :: s in students && s.rollNo == e.studentId) ==>
      |r| == |entries|
  {
    if entries == [] then []
    else
      var init, last := entries[..|entries| - 1], entries[|entries| - 1];
      assert entries == init + [last];
      assert forall e :: e in init ==> e in entries;
      assert forall e :: e in entries ==> e == last || e in init;
      Holders(init, students) + HolderOf(last, students)
  }

  /**
   * The list follows the loans: one more loan appends its student (when found) at the end, so the
   * students come in the order of their loans.
   */
  lemma HoldersAppend(entries: seq<Loan>, e: Loan, students: seq<Student>)
    ensures Holders(entries + [e], students) == Holders(entries, students) + HolderOf(e, students)
  {
    assert (entries + [e])[..|entries|] == entries;
  }

  /** Whether the loan's student is registered, so that `find` gives a student for it. */
  function Registered(students: seq<Student>): Loan -> bool {
    (e: Loan) => Find(HasRollNo(e.studentId), students).Some?
  }

  /** One entry per loan whose student is registered: the loans dropped are exactly the others. */
  lemma {:induction false} HoldersCount(entries: seq<Loan>, students: seq<Student>)
    ensures |Holders(entries, students)| == |Filter(Registered(students), entries)|
  {
    if entries != [] {
      var init, last := entries[..|entries| - 1], entries[|entries| - 1];
      assert entries == init + [last];
      HoldersCount(init, students);
      HoldersAppend(init, last, students);
      FilterAppendOne(Registered(students), init, last);
    }
  }

  /** `studentsWithBook`: the students holding a copy of the book, one entry per copy out. */
  function StudentsWithBook(loans: seq<Loan>, students: seq<Student>, bookId: string): (r: seq<Student>)
    ensures |r| <= IssueCount(loans, bookId)
    ensures forall s {:trigger s in r} :: s in r ==>
      s in students && exists l :: l in loans && CurrentLoanOfBook(bookId)(l) && l.studentId == s.rollNo
    ensures forall l :: l in loans && CurrentLoanOfBook(bookId)(l) && Find(HasRollNo(l.studentId), students).Some? ==>
      Find(HasRollNo(l.studentId), students).value in r
  {
    Holders(Filter(CurrentLoanOfBook(bookId), loans), students)
  }

  /** When every loan names a registered student, the list has one entry per copy out. */
  lemma HoldersCountCopiesOut(loans: seq<Loan>, students: seq<Student>, bookId: string)
    requires forall i :: 0 <= i < |loans| ==> exists s :: s in students && s.rollNo == loans[i].studentId
    ensures |StudentsWithBook(loans, students, bookId)| == IssueCount(loans, bookId)
  {
    var entries := Filter(CurrentLoanOfBook(bookId), loans);
    forall e | e in entries
      ensures exists s :: s in students && s.rollNo == e.studentId
    {
      var i :| 0 <= i < |loans| && loans[i] == e;
    }
  }

  /** `availableCopies`: the total (null read as 0) less the copies out, never below zero. */
  function AvailableCopies(book: Book, loans: seq<Loan>): (n: int)
    ensures n >= 0
    ensures n == 0 || n == OrZero(book.totalCount) - IssueCount(loans, book.bookId)
    ensures n >= OrZero(book.totalCount) - IssueCount(loans, book.bookId)
  {
    var left := OrZero(book.totalCount) - IssueCount(loans, book.bookId);
    if left > 0 then left else 0
  }

  /**
   * On tables kept valid by the pages, the figure the overview computes from the loans is the
   * stored available count, shown as zero when that is negative.
   */
  lemma AvailableCopiesMatchesStore(books: seq<Book>, loans: seq<Loan>, students: seq<Student>, j: nat)
    requires TablesValid(books, loans, students) && j < |books|
    ensures books[j].availableCount.Some?
    ensures var stored := books[j].availableCount.value;
      AvailableCopies(books[j], loans) == if stored < 0 then 0 else stored
  {
    assert Accounted(books[j], loans);
  }

  /** The search condition on one book: name, author or id contains the term, ignoring case. */
  function MatchesSearch(search: string): (m: Book -> bool)
    ensures forall b {:trigger m(b)} :: m(b) <==>
      var term := ToLower(search);
      Occurs(ToLower(b.bookName), term) || Occurs(ToLower(b.author), term) || Occurs(ToLower(b.bookId), term)
  {
    IncludesIsOccurs();
    (b: Book) =>
      var term := ToLower(search);
      Includes(ToLower(b.bookName), term) || Includes(ToLower(b.author), term) || Includes(ToLower(b.bookId), term)
  }

  /** `filteredBooks`: the books matching the search, in catalogue order. */
  function FilteredBooks(books: seq<Book>, search: string): (r: seq<Book>)
    ensures |r| <= |books|
    ensures forall b {:trigger b in r} :: b in r <==> b in books && MatchesSearch(search)(b)
  {
    Filter(MatchesSearch(search), books)
  }

  /** An empty search lists the whole catalogue. */
  lemma EmptySearchListsAll(books: seq<Book>)
    ensures FilteredBooks(books, "") == books
  {
    forall b | b in books
      ensures MatchesSearch("")(b)
    {
      assert ToLower("") == "";
      IncludesEmpty(ToLower(b.bookName));
    }
    FilterKeepsAll(MatchesSearch(""), books);
  }

  /** The search ignores case: an upper-cased term lists the same books. */
  lemma SearchIgnoresCase(books: seq<Book>, search: string)
    ensures FilteredBooks(books, ToUpper(search)) == FilteredBooks(books, search)
  {
    LowerForgetsUpper(search);
    assert MatchesSearch(ToUpper(search)) == MatchesSearch(search);
  }

  /** A book is listed when the term is its id. */
  lemma SearchByIdFindsBook(books: seq<Book>, b: Book)
    requires b in books
    ensures b in FilteredBooks(books, b.bookId)
  {
    var id := ToLower(b.bookId);
    assert StartsWith(id, id);
  }

  /** The expand button of row `index`: it opens that row, closing any other, or closes it when open. */
  function Toggle(expanded: Option<nat>, index: nat): (r: Option<nat>)
    ensures r == Some(index) <==> expanded != Some(index)
    ensures r.None? <==> expanded == Some(index)
  {
    if expanded == Some(index) then None else Some(index)
  }
}
