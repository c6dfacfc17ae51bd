/**
 * The book registration form: a new id is checked against the catalogue, the copy count is
 * read from the text of its input, and the book is inserted with every copy available.
 */
module AddBook {
  import opened Wrappers
  import opened Seqs
  import opened Numbers
  import opened Records
  import opened RecordStore

  /** The initial text of the copy-count input. */
  const DEFAULT_COUNT_TEXT := "1"

  /** `parseInt(totalCount) || 1`: NaN and zero fall back to one copy. */
  function CountFrom(text: string): (count: int)
    ensures count != 0
    ensures count == 1 <==> ParseInt(text) == None || ParseInt(text) == Some(0) || ParseInt(text) == Some(1)
    ensures count != 1 ==> ParseInt(text) == Some(count)
  {
    match ParseInt(text)
    case None => 1
    case Some(n) => if n == 0 then 1 else n
  }

  /** A count typed as a numeral, possibly followed by other text, is read as that number. */
  lemma CountFromNumeral(n: nat, rest: string)
    requires n >= 1
    requires rest == [] || !IsDecimalDigit(rest[0])
    ensures CountFrom(Decimal(n) + rest) == n
  {
    ParseIntNumeralPrefix(n, rest);
  }

  /** The initial text, a cleared input and a zero all give one copy. */
  lemma CountFromFallbacks()
    ensures CountFrom(DEFAULT_COUNT_TEXT) == 1
    ensures CountFrom("") == 1
    ensures CountFrom("0") == 1
  {
    ParseIntDecimal(1);
    assert Decimal(1) == DEFAULT_COUNT_TEXT;
    ParseIntNaN("");
    ParseIntDecimal(0);
    assert Decimal(0) == "0";
  }

  /** The photo URL a new book row gets: a failed upload leaves it null without stopping the insert. */
  function BookPhoto(photoChosen: bool, upload: UploadOutcome): (r: Option<string>)
    ensures r.Some? <==> photoChosen && upload.Uploaded?
    ensures r.Some? ==> r.value == upload.publicUrl
  {
    if photoChosen && upload.Uploaded? then Some(upload.publicUrl) else None
  }

  /** The row `handleSubmit` inserts: as many copies available as there are in total. */
  function NewBook(bookId: string, bookName: string, author: string, photoUrl: Option<string>, count: int): (b: Book)
    ensures b.bookId == bookId && b.photoUrl == photoUrl
    ensures b.totalCount == Some(count) && b.availableCount == b.totalCount
  {
    Book(bookId, bookName, author, photoUrl, Some(count), Some(count))
  }

  /**
   * A book registered past the duplicate check is found afterwards by its id (the issue page's
   * lookup), with all its copies available.
   */
  lemma RegisteredBookIsFound(books: seq<Book>, b: Book)
    requires UniqueBookIds(books)
    requires BookById(books, b.bookId).None?
    ensures BookById(books + [b], b.bookId) == Some(b)
  {
    BookAbsent(books, b.bookId);
    forall x | x in books
      ensures !HasBookId(b.bookId)(x)
    {
      var i :| 0 <= i < |books| && books[i] == x;
    }
    FilterKeepsNone(HasBookId(b.bookId), books);
    FilterAppendOne(HasBookId(b.bookId), books, b);
  }

  datatype SubmitOutcome = BookIdTaken | InsertFailed | BookAdded

  class AddBookForm {
    var bookId: string
    var bookName: string
    var author: string
    /** The text of the copy-count input. */
    var totalCount: string
    /** Whether a photo file is chosen. */
    var photoChosen: bool
    const store: Store

    constructor (store: Store)
      ensures this.store == store
      ensures bookId == "" && bookName == "" && author == "" && totalCount == DEFAULT_COUNT_TEXT
      ensures !photoChosen
    {
      this.store := store;
      bookId, bookName, author, totalCount, photoChosen := "", "", "", DEFAULT_COUNT_TEXT, false;
    }

    /** The four text inputs after typing into them; the chosen photo stays. */
    method SetFields(bookId: string, bookName: string, author: string, totalCount: string)
      modifies this
      ensures this.bookId == bookId && this.bookName == bookName && this.author == author
      ensures this.totalCount == totalCount && photoChosen == old(photoChosen)
    {
      this.bookId, this.bookName, this.author, this.totalCount := bookId, bookName, author, totalCount;
    }

    /** Choosing a file (`chosen`), or pressing the remove button (`!chosen`). */
    method SetPhoto(chosen: bool)
      modifies this
      ensures photoChosen == chosen
      ensures bookId == old(bookId) && bookName == old(bookName) && author == old(author)
      ensures totalCount == old(totalCount)
    {
      photoChosen := chosen;
    }

    /**
     * `handleSubmit`: an id already in the catalogue stops the submission; otherwise a chosen
     * photo is uploaded (`upload` is what the storage answers), the book inserted with the count
     * read from the text, and the form cleared. A refused insert (`!insertAccepted`) keeps the form.
     */
    method Submit(upload: UploadOutcome, insertAccepted: bool) returns (outcome: SubmitOutcome)
      modifies this, store
      ensures BookById(old(store.books), old(bookId)).Some? ==> outcome == BookIdTaken
      ensures BookById(old(store.books), old(bookId)).None? ==>
        outcome == if insertAccepted then BookAdded else InsertFailed
      ensures outcome != BookAdded ==> unchanged(this, store)
      ensures outcome == BookAdded ==>
        && store.books == old(store.books) + [NewBook(old(bookId), old(bookName), old(author),
             BookPhoto(old(photoChosen), upload), CountFrom(old(totalCount)))]
        && store.loans == old(store.loans) && store.students == old(store.students)
        && store.transactions == old(store.transactions)
        && bookId == "" && bookName == "" && author == "" && totalCount == DEFAULT_COUNT_TEXT
        && !photoChosen
      ensures old(store.Valid()) ==> store.Valid()
    {
      if BookById(store.books, bookId).Some? {
        return BookIdTaken;
      }
      var photoUrl := BookPhoto(photoChosen, upload);
      var count := CountFrom(totalCount);
      if !insertAccepted {
        return InsertFailed;
      }
      var b := NewBook(bookId, bookName, author, photoUrl, count);
      store.InsertBook(b);
      bookId, bookName, author, totalCount, photoChosen := "", "", "", DEFAULT_COUNT_TEXT, false;
      outcome := BookAdded;
    }
  }
}
