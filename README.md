# Library kiosk with RFID: a Dafny model

This is a model of the staff pages of a small library kiosk. The store behind the pages has
four tables: `students`, `books`, `issued_books` (the loans) and `transactions` (an audit log).
An RFID reader delivers card ids as text lines. A line starting with `BK` is a book tag. Any
other non-empty line is a student card.

The model covers these pages:

- The issue/return page. It looks up a student by roll number and a book by id, then lends a
  copy or takes one back. A student may hold at most three books, and a book must have a copy
  available.
- The student and book registration forms. The student form derives the department and the
  batch from the roll number, and it rejects a roll number or an email that is already taken.
- The catalogue overview. It shows each book's available copies and who holds them, with a
  search.
- The list of registered students. It shows per-student loan figures and has a search.
- The student profile. It lists a student's loans, split into books still out and books
  returned.
- The dashboard card click. It tells the reader service which mode the next page needs.

Modules:

- `Wrappers`: the option type.
- `Seqs`: `filter` and `find`, with their lemmas.
- `Text`: `startsWith`, `includes`, and ASCII case mapping.
- `Numbers`: ECMAScript `parseInt` (`Numbers.ParseInt`) and decimal numerals. What `ParseInt` promises is stated by the `Numbers.ParseInt…`, `Numbers.ParseUnsigned` and `Numbers.ParseMinus` lemmas below, not by a contract of its own.
- `Records`: the table rows and the `.eq(...).maybeSingle()` lookups.
- `RecordStore`: the store as a class with the writes the pages issue, plus the table
  invariants (`TablesValid`) these writes keep.
- `ScanRouting`: how a reader line is routed.
- One module per page: `IssueReturn`, `AddStudent`, `AddBook`, `LibraryOverview`,
  `RegisteredStudents`, `StudentProfile` and `Dashboard`.

Pages that hold state are classes. Their fields are the page's React state. Each handler is a
method that names the store in its `modifies` clause when it writes. The computations on
fetched rows are functions.

The outcome of a write the page does not control is a parameter: `insertAccepted`,
`updateAccepted`, and the answer of the photo storage (`UploadOutcome`). The clock value
(`now`) is a parameter too.

The table invariants are:

- book ids, roll numbers and emails are unique;
- a student's id equals their roll number;
- loan keys are row positions;
- every loan references a book;
- each book's available count equals its total less its copies out;
- no student holds more than three books.

The lemmas show that each successful write keeps these invariants. The issue/return page has an
invariant of its own, `Valid()`: the store is valid and the cached loans are the shown student's
current loans. Each of its methods ensures `old(Valid()) ==> Valid()`. The two registration
forms ensure `old(store.Valid()) ==> store.Valid()`, and the student form also keeps its derived
department and batch in step with its roll number (`Derived()`). The overview, the student list
and the profile only read the store and carry no invariant.

## Model

| member | source | states |
|---|---|---|
| ScanRouting.RouteLine | src/pages/IssueReturn.tsx:30-57 | A non-empty line not starting with `BK` goes to the student input, a `BK` line to the book lookup, an empty line nowhere; the id routed is the whole line |
| Records.PhotoUrlOf | src/pages/AddStudent.tsx:102-106 | The stored photo URL is present exactly when the upload succeeded with a non-empty public URL (`|| null`), and is that URL |
| Records.MaybeSingle | src/pages/IssueReturn.tsx:68-72 | `.maybeSingle()` yields a row exactly when one row matches, and then that row |
| Records.UniqueMatch | src/pages/IssueReturn.tsx:68-72 | When no two rows can match, `.maybeSingle()` on the filtered rows returns a row that matches |
| Records.BookById | src/pages/IssueReturn.tsx:99-104 | A book found by id is a stored row with that id; if no row has the id, nothing is found |
| Records.StudentByRollNo | src/pages/IssueReturn.tsx:68-72 | A student found by roll number is a stored row with that roll number |
| Records.StudentByStudentId | src/pages/StudentProfile.tsx:53-57 | A student found by student id is a stored row with that student id |
| Records.WithBooks | src/pages/IssueReturn.tsx:80-84 | `select('*, books(*)')`: one view per loan, in order, each joined with the lookup of its book id |
| Records.WithBooksAppendOne | src/pages/IssueReturn.tsx:80-84 | Joining one more loan appends its view, joined with its book, to the joined list |
| Records.NewLoan | src/pages/IssueReturn.tsx:130-135 | The inserted row is a current loan of the student and of the book, under the given key, issued at `now`, with no return date and no legacy status |
| Records.CurrentLoans | src/pages/IssueReturn.tsx:80-84 | The student's current loans joined with books: as many views as books the student holds, each a stored loan of the student with status `issued` joined with its book's lookup, and every such loan present |
| RecordStore.SetAvailable | src/pages/IssueReturn.tsx:144-147 | The count update keeps the number of book rows and every row's id |
| RecordStore.MarkReturned | src/pages/IssueReturn.tsx:185-191 | The return update keeps the number of loan rows |
| RecordStore.BookFound | src/pages/IssueReturn.tsx:99-104 | Under unique ids, the lookup by id finds every stored book |
| RecordStore.BookAbsent | src/pages/AddBook.tsx:37-47 | Under unique ids, a failed lookup means that no row has the id |
| RecordStore.BookLookedUp | src/pages/IssueReturn.tsx:99-104 | A successful lookup is the only row with that id |
| RecordStore.RollNoTakenIffPresent | src/pages/AddStudent.tsx:58-68 | Under unique roll numbers, the duplicate check fires exactly when some row has the roll number |
| RecordStore.EmailTakenIffPresent | src/pages/AddStudent.tsx:70-80 | Under unique emails, the duplicate check fires exactly when some row has the email |
| RecordStore.CountsInRange | src/pages/IssueReturn.tsx:124-128 | On valid tables, a book's available count is present, never above its total, and never negative when the total is not |
| RecordStore.CountsAfterIssue | src/pages/IssueReturn.tsx:130-135 | A new issued loan adds one copy out for its book only and one held book for its student only |
| RecordStore.CountsAfterReturn | src/pages/IssueReturn.tsx:185-191 | Marking current loan k returned replaces row k alone, removes one copy out for its book only, and one held book for its student only |
| RecordStore.IssueKeepsValid | src/pages/IssueReturn.tsx:113-168 | An issue that passes the limit and availability checks, with a fresh book row, keeps every table invariant |
| RecordStore.ReturnKeepsValid | src/pages/IssueReturn.tsx:170-226 | A return of a current loan, with its freshly joined book row, keeps every table invariant |
| RecordStore.AddBookKeepsValid | src/pages/AddBook.tsx:32-99 | Inserting a book under an unused id, with equal total and available counts, keeps every table invariant |
| RecordStore.AddStudentKeepsValid | src/pages/AddStudent.tsx:52-159 | Inserting a student whose roll number and email pass the duplicate checks, with student id equal to the roll number, keeps every table invariant |
| RecordStore.ReferencesKept | src/pages/IssueReturn.tsx:185-205 | Writes that keep every loan's book id and every book's id keep each loan referencing a stored book |
| RecordStore.AccountedAfterReturn | src/pages/IssueReturn.tsx:185-205 | Marking a current loan returned and setting its book's count to the joined count plus one keeps every book's available count equal to its total less its copies out |
| RecordStore.SetAvailableRestores | src/pages/IssueReturn.tsx:200-205 | Setting a count and then setting back the stored value restores the books table |
| RecordStore.BookAfterSetAvailable | src/pages/IssueReturn.tsx:144-147 | After a count update, the lookup finds the old row with the new count |
| RecordStore.Store.constructor | src/pages/IssueReturn.tsx:130-153 | The store starts empty and valid |
| RecordStore.Store.InsertLoan | src/pages/IssueReturn.tsx:130-135 | Appends an `issued` loan under the next key; the other tables stay as they were |
| RecordStore.Store.UpdateAvailable | src/pages/IssueReturn.tsx:144-147 | Sets the available count of the book with the id; the other tables stay as they were |
| RecordStore.Store.MarkLoanReturned | src/pages/IssueReturn.tsx:185-191 | Marks the loan with the key returned at `now`; the other tables stay as they were |
| RecordStore.Store.Log | src/pages/IssueReturn.tsx:149-153 | Appends one transaction; the other tables stay as they were |
| RecordStore.Store.InsertBook | src/pages/AddBook.tsx:72-85 | Appends the book row; the other tables stay as they were; a book under an unused id with equal total and available counts keeps the store valid |
| RecordStore.Store.InsertStudent | src/pages/AddStudent.tsx:110-125 | Appends the student row; the other tables stay as they were; a student past both duplicate checks, whose student id is the roll number, keeps the store valid |
| IssueReturn.ReturnTarget | src/pages/IssueReturn.tsx:175-177 | `find`: the first cached loan whose joined book has the scanned id, and none exactly when no cached loan's book has it |
| IssueReturn.CachedLoanIsStored | src/pages/IssueReturn.tsx:80-84 | Each re-fetched current loan is the stored row under its key, is still issued to the student, and carries its book's lookup |
| IssueReturn.IssueReturnPage.constructor | src/pages/IssueReturn.tsx:12-16 | All inputs and cached rows start empty, and the page is coherent with a valid store |
| IssueReturn.IssueReturnPage.EnterStudentId | src/pages/IssueReturn.tsx:276 | Typing sets the student input only |
| IssueReturn.IssueReturnPage.StudentSearch | src/pages/IssueReturn.tsx:64-93 | A found student and their current loans (joined with books) replace the cache; a failed lookup leaves the previous student and loans shown |
| IssueReturn.IssueReturnPage.BookIdChange | src/pages/IssueReturn.tsx:95-111 | Sets the input; an id of at least three characters is looked up, a shorter one clears the book |
| IssueReturn.IssueReturnPage.IssueBook | src/pages/IssueReturn.tsx:113-168 | Skipped without a book or a student; refused at three cached loans, then when the cached count is not positive; otherwise inserts a loan, sets the count to the cached count less one, logs the issue, re-fetches the loans and clears the book; a refused insert changes nothing; validity is kept |
| IssueReturn.IssueReturnPage.RecordIssue | src/pages/IssueReturn.tsx:130-163 | The writes of an accepted issue: the loan appended under the next key, the count set to the cached count less one, the issue logged, the loans re-fetched, the book cleared; validity is kept |
| IssueReturn.IssueReturnPage.ReturnBook | src/pages/IssueReturn.tsx:170-226 | Skipped without a book id or a student; refused when no cached loan's book has the id; otherwise marks the first such loan returned, sets the count to its joined count plus one, logs the return, re-fetches and clears the book; a refused update changes nothing; validity is kept |
| IssueReturn.IssueReturnPage.RecordReturn | src/pages/IssueReturn.tsx:185-221 | The writes of an accepted return: the cached loan marked returned, its book's count set to the joined count plus one, the return logged, the loans re-fetched, the book cleared; validity is kept |
| IssueReturn.IssueReturnPage.OnSerialLine | src/pages/IssueReturn.tsx:30-57 | An empty line changes nothing; a student card fills the input, and runs the search only while no student is shown (the student form, the only input with an Enter handler, is on screen only then), so a card scanned while a student is shown keeps that student and their loans; a book tag runs the book lookup |
| IssueReturn.IssuedAfterIssue | src/pages/IssueReturn.tsx:130-163 | After an issue, the re-fetched current loans are the earlier ones, joined with the updated books, followed by the new loan joined with the decremented book |
| IssueReturn.ReturnFindsIssuedBook | src/pages/IssueReturn.tsx:113-226 | After an issue, the return handler finds a loan of that book among the re-fetched loans, joined with the decremented row; without another copy held, it is the new loan |
| IssueReturn.IssueThenReturnBooks | src/pages/IssueReturn.tsx:113-226 | Issuing a book and then returning it restores the books table |
| IssueReturn.IssueThenReturnLoans | src/pages/IssueReturn.tsx:113-226 | Issuing and then returning leaves one more loan row and the student holding as many books as before; without another copy held, the new row is the one marked returned |
| IssueReturn.HeldRestored | src/pages/IssueReturn.tsx:113-226 | Returning one of the student's current loans after a new issue leaves them holding as many books as before the issue |
| IssueReturn.ReturnOfNewLoan | src/pages/IssueReturn.tsx:185-191 | Marking the newest loan returned changes that row alone, to `returned` at the given time |
| AddStudent.YearCode | src/pages/AddStudent.tsx:26 | `substring(2, 4)`: at most two characters, `rollNo[2..4]` when the roll number is long enough |
| AddStudent.InferDepartment | src/pages/AddStudent.tsx:22-38 | The department is filled in exactly when the roll number starts with `IS`, and is otherwise empty |
| AddStudent.InferBatch | src/pages/AddStudent.tsx:22-38 | The batch is filled in exactly when the roll number starts with `IS` followed by two digits |
| AddStudent.CenturyValue | src/pages/AddStudent.tsx:28 | The digits `20` followed by two digits have the value 2000 plus the two-digit value |
| AddStudent.CenturyDigits | src/pages/AddStudent.tsx:28 | `20` followed by two digits is read in full as a decimal numeral |
| AddStudent.ParseCenturyYear | src/pages/AddStudent.tsx:28 | `parseInt('20' + y)` for two digits y is 2000 plus their value |
| AddStudent.BatchYears | src/pages/AddStudent.tsx:22-38 | A filled-in batch is the start year 2000 + yy (within 2000..2099), the separator and the start year plus two, and `parseInt` reads it back as the start year |
| AddStudent.BatchHasDepartment | src/pages/AddStudent.tsx:22-38 | A filled-in batch comes with the department |
| AddStudent.TypedPrefixRecognised | src/pages/AddStudent.tsx:211 | Because the input upper-cases what is typed, `is`, `iS`, `Is` or `IS` typed first gives the department |
| AddStudent.EmptyRollNoDerivesNothing | src/pages/AddStudent.tsx:146-153 | The cleared roll number derives neither department nor batch |
| AddStudent.NewStudent | src/pages/AddStudent.tsx:110-125 | The inserted row uses the roll number as the student id and keeps the email |
| AddStudent.RegisteredStudentIsFound | src/pages/AddStudent.tsx:52-159 | A student registered past the duplicate checks is found afterwards by roll number and by student id |
| AddStudent.AddStudentForm.constructor | src/pages/AddStudent.tsx:11-16 | The form starts empty, with no photo, and its derived inputs agree with its roll number |
| AddStudent.AddStudentForm.SetRollNo | src/pages/AddStudent.tsx:211 | The roll number becomes the upper-cased text and the department and batch are re-derived; the other inputs stay |
| AddStudent.AddStudentForm.SetName | src/pages/AddStudent.tsx:224 | Sets the name only |
| AddStudent.AddStudentForm.SetEmail | src/pages/AddStudent.tsx:261 | Sets the email only |
| AddStudent.AddStudentForm.SetPhoto | src/pages/AddStudent.tsx:40-50 | Choosing or removing a photo sets only the chosen flag |
| AddStudent.AddStudentForm.RecordStudent | src/pages/AddStudent.tsx:110-153 | The writes of an accepted registration: the new student appended with the given photo URL, the other tables unchanged, the form cleared with consistent derived inputs; validity is kept |
| AddStudent.AddStudentForm.Submit | src/pages/AddStudent.tsx:52-159 | A taken roll number stops first, then a taken email, then a failed upload of a chosen photo, then a refused insert, and none of these changes anything; otherwise appends the new student with the uploaded URL and clears the form; the derived inputs stay consistent and validity is kept |
| AddBook.CountFrom | src/pages/AddBook.tsx:70 | `parseInt(text) || 1` is never zero; it is 1 exactly when the text is not a number or reads as 0 or 1, and otherwise it is the number read |
| AddBook.CountFromNumeral | src/pages/AddBook.tsx:70 | A numeral of at least 1 followed by a non-digit (or nothing) gives that number of copies |
| AddBook.CountFromFallbacks | src/pages/AddBook.tsx:14 | The initial `1`, a cleared input and `0` all give one copy |
| AddBook.BookPhoto | src/pages/AddBook.tsx:51-68 | The photo URL is present exactly when a photo was chosen and uploaded, and is the URL given, even an empty one; a failed upload leaves it null |
| AddBook.NewBook | src/pages/AddBook.tsx:72-85 | The inserted row has the given id and photo, and its available count equals its total count |
| AddBook.RegisteredBookIsFound | src/pages/AddBook.tsx:32-99 | A book registered past the duplicate check is found afterwards by its id |
| AddBook.AddBookForm.constructor | src/pages/AddBook.tsx:11-15 | The form starts empty with the copy count `1` and no photo |
| AddBook.AddBookForm.SetFields | src/pages/AddBook.tsx:139-182 | Sets the four text inputs; the chosen photo stays |
| AddBook.AddBookForm.SetPhoto | src/pages/AddBook.tsx:18-28 | Choosing or removing a photo sets only the chosen flag |
| AddBook.AddBookForm.Submit | src/pages/AddBook.tsx:32-99 | A taken id stops the submission and a refused insert does too, with nothing changed; otherwise the book is inserted with the uploaded photo (if any) and the count read from the text, and the form is reset to count `1`; validity is kept |
| LibraryOverview.IssueCount | frontend/src/pages/LibraryOverview.tsx:46-47 | The copies out are the number of loan positions holding an issued loan of the book |
| LibraryOverview.HolderOf | frontend/src/pages/LibraryOverview.tsx:49-52 | One loan's `find` by roll number: at most one student, none exactly when no student has the roll number, and otherwise a registered student with that roll number |
| LibraryOverview.Holders | frontend/src/pages/LibraryOverview.tsx:49-53 | `map(find).filter(Boolean)`: every entry is a registered student holding one of the loans, every loan's found student is listed, and none drops out when every loan's student exists |
| LibraryOverview.HoldersAppend | frontend/src/pages/LibraryOverview.tsx:49-53 | One more loan appends its found student (or nothing) at the end: the list follows the order of the loans |
| LibraryOverview.HoldersCount | frontend/src/pages/LibraryOverview.tsx:49-53 | The list has one entry per loan whose student is registered |
| LibraryOverview.StudentsWithBook | frontend/src/pages/LibraryOverview.tsx:49-53 | Each listed student holds a current loan of the book, every registered student holding a current loan of it is listed, and the list is no longer than the copies out |
| LibraryOverview.HoldersCountCopiesOut | frontend/src/pages/LibraryOverview.tsx:49-53 | When every loan names a registered student, the list has one entry per copy out |
| LibraryOverview.AvailableCopies | frontend/src/pages/LibraryOverview.tsx:56-57 | The figure is never negative; it is the total (null as 0) less the copies out, or 0 when that is not positive |
| LibraryOverview.AvailableCopiesMatchesStore | frontend/src/pages/LibraryOverview.tsx:56-57 | On valid tables the figure computed from loans equals the stored available count, clamped at zero |
| LibraryOverview.MatchesSearch | frontend/src/pages/LibraryOverview.tsx:59-64 | A book matches exactly when the lower-cased term occurs (as a substring) in its lower-cased name, author or id |
| LibraryOverview.FilteredBooks | frontend/src/pages/LibraryOverview.tsx:59-64 | A book is listed exactly when it is in the catalogue and its name, author or id contains the term, ignoring case |
| LibraryOverview.EmptySearchListsAll | frontend/src/pages/LibraryOverview.tsx:59-64 | The empty search lists the whole catalogue in order |
| LibraryOverview.SearchIgnoresCase | frontend/src/pages/LibraryOverview.tsx:59-64 | An upper-cased term lists the same books |
| LibraryOverview.SearchByIdFindsBook | frontend/src/pages/LibraryOverview.tsx:59-64 | Searching for a book's id lists that book |
| LibraryOverview.Toggle | frontend/src/pages/LibraryOverview.tsx:146 | Pressing a row's button opens that row (closing any other) unless it is open, in which case all rows close |
| RegisteredStudents.AbsentHasNoLoans | src/pages/RegisteredStudents.tsx:35-45 | A student id in no row has zero loans and zero out |
| RegisteredStudents.StudentIdsAppend | src/pages/RegisteredStudents.tsx:35-45 | One more row adds its student id to the ids seen |
| RegisteredStudents.CountAppend | src/pages/RegisteredStudents.tsx:35-45 | One more row bumps its own student's figures and no one else's |
| RegisteredStudents.TallyStep | src/pages/RegisteredStudents.tsx:35-45 | Tallying one more row as the loop does keeps the tally exact |
| RegisteredStudents.TallyRow | src/pages/RegisteredStudents.tsx:37-42 | The `forEach` callback: the row's student entry, created as zero when missing, is bumped by one loan, and by one loan out when the row is issued; other entries stay |
| RegisteredStudents.BuildStats | src/pages/RegisteredStudents.tsx:35-45 | The `forEach` leaves an entry for exactly the student ids in the rows, holding each student's loan count and count still out |
| RegisteredStudents.StudentIdsInOrder | src/pages/RegisteredStudents.tsx:37-43 | The student ids of the rows, each listed once, and exactly those |
| RegisteredStudents.SumTotalsAreCounts | src/pages/RegisteredStudents.tsx:37-43 | Over keys of an exact tally, the summed loans-made figures are the summed row counts |
| RegisteredStudents.SumLoanCountsAppend | src/pages/RegisteredStudents.tsx:37-43 | One more row raises the summed row counts over distinct ids by one exactly when its student is among them |
| RegisteredStudents.LoanCountsSumToRows | src/pages/RegisteredStudents.tsx:37-43 | Over the rows' own student ids, the row counts add up to the number of rows |
| RegisteredStudents.TotalsSumToRows | src/pages/RegisteredStudents.tsx:37-43 | The `total` figures of the object the `forEach` builds, summed over all its keys, equal the number of rows fetched |
| RegisteredStudents.StatsShown | src/pages/RegisteredStudents.tsx:106 | `issuedData[id] || { total: 0, notReturned: 0 }`: a student with an entry shows it, one without shows zero loans and zero out (ShownStatsAreCounts gives what these figures mean) |
| RegisteredStudents.ShownStatsAreCounts | src/pages/RegisteredStudents.tsx:106 | Every card, including one for a student without loans, shows the exact figures, with loans out never above loans made |
| RegisteredStudents.ShownOutWithinLimit | src/pages/RegisteredStudents.tsx:106 | On valid tables no card shows more than three loans out |
| RegisteredStudents.MatchesSearch | src/pages/RegisteredStudents.tsx:49-53 | A student matches exactly when the lower-cased term occurs (as a substring) in their lower-cased name or student id |
| RegisteredStudents.FilteredStudents | src/pages/RegisteredStudents.tsx:49-53 | A student is listed exactly when their name or student id contains the term, ignoring case |
| RegisteredStudents.EmptySearchListsAll | src/pages/RegisteredStudents.tsx:49-53 | The empty search lists every student in order |
| RegisteredStudents.SearchIgnoresCase | src/pages/RegisteredStudents.tsx:49-53 | An upper-cased term lists the same students |
| RegisteredStudents.SearchByIdFindsStudent | src/pages/RegisteredStudents.tsx:49-53 | Searching for a student's id lists that student |
| StudentProfile.AllLoans | src/pages/StudentProfile.tsx:66-69 | One view per loan row of the student; each view is a stored loan of the student joined with its book's lookup, and every loan of the student appears joined with its book |
| StudentProfile.WellFormedView | src/pages/StudentProfile.tsx:78-84 | On well-formed status columns a loan is in exactly one of the two lists, in the issued list exactly when it is a current loan, and in the returned list exactly when its return status is `returned` |
| StudentProfile.IssueKeepsWellFormed | src/pages/IssueReturn.tsx:130-135 | The loan the issue page inserts keeps the status columns well formed |
| StudentProfile.ReturnKeepsWellFormed | src/pages/IssueReturn.tsx:185-191 | The return update keeps the status columns well formed while the legacy column is unset |
| StudentProfile.ProfileListsPartition | src/pages/StudentProfile.tsx:78-84 | On well-formed status columns the issued and returned lists are disjoint and together hold each of the student's loans exactly once |
| StudentProfile.FilterWithBooksStep | src/pages/StudentProfile.tsx:66-84 | One more loan keeps filtering after the join equal to joining after the filter |
| StudentProfile.FilterWithBooks | src/pages/StudentProfile.tsx:66-84 | Filtering joined loans by a condition on the loan is joining the filtered loans |
| StudentProfile.IssuedListIsCurrentLoans | src/pages/StudentProfile.tsx:78-80 | On well-formed status columns the profile's issued list is exactly the issue page's current loans |
| StudentProfile.ReturnedListIsReturnedLoans | src/pages/StudentProfile.tsx:81-84 | On well-formed status columns the profile's returned list is exactly the student's returned loans, joined with their books, in table order |
| StudentProfile.LookupsAgree | src/pages/StudentProfile.tsx:53-57 | When student ids are roll numbers, the profile's lookup by student id equals the issue page's lookup by roll number |
| StudentProfile.StudentProfilePage.constructor | src/pages/StudentProfile.tsx:12-17 | The page starts with no student, empty lists and no search made |
| StudentProfile.StudentProfilePage.EnterStudentId | src/pages/StudentProfile.tsx:140 | Typing sets the student id input only |
| StudentProfile.StudentProfilePage.Search | src/pages/StudentProfile.tsx:48-93 | Marks the search made; a failed lookup clears the student and keeps the lists; a found student gets the issued and returned filters of all their joined loans |
| StudentProfile.StudentProfilePage.OnSerialLine | src/pages/StudentProfile.tsx:30-39 | Only a student card line acts: it fills the input and runs the search; other lines change nothing |
| Dashboard.ModeName | src/pages/Dashboard.tsx:66-72 | The mode sent is `read` for the read mode and `write` for the write mode |
| Dashboard.ModeFor | src/pages/Dashboard.tsx:66-72 | The issue/return and profile pages need reading, the two registration pages need writing, and other pages need no mode |
| Dashboard.CardClick | src/pages/Dashboard.tsx:64-89 | A click always navigates to the card's path, and posts a mode exactly when the page needs one, and then that mode's name |
| Dashboard.CardModes | src/pages/Dashboard.tsx:19-54 | Of the six cards, the two scanning pages post `read`, the two forms post `write`, the two reports post nothing |
| Numbers.ValueOfDecimal | src/pages/AddBook.tsx:70 | The decimal numeral of a number has that number as its value |
| Numbers.ParseUnsigned | src/pages/AddBook.tsx:70 | Text starting with a digit, and not a hex prefix, is read as its leading decimal digits |
| Numbers.ParseDigitsPrefix | src/pages/AddBook.tsx:70 | A run of decimal digits followed by a non-digit (or nothing) is read as exactly that run |
| Numbers.ParseMinus | src/pages/AddBook.tsx:70 | A leading minus sign negates what the rest reads as, and an unreadable rest is not a number |
| Numbers.ParseIntNumeralPrefix | src/pages/AddBook.tsx:70 | `parseInt` of a decimal numeral followed by a non-digit (or nothing) is that number |
| Numbers.ParseIntDecimal | src/pages/AddBook.tsx:70 | `parseInt` reads back every decimal numeral |
| Numbers.ParseIntNegative | src/pages/AddBook.tsx:70 | `parseInt` reads a minus sign followed by a numeral as the negated number |
| Numbers.ParseIntNaN | src/pages/AddBook.tsx:70 | Empty text, or text starting with a character that is neither white space, a sign nor a digit, is not a number |
| Text.IncludesGivesSplit | frontend/src/pages/LibraryOverview.tsx:59-64 | Where `includes` holds, the text is some prefix, the term and some suffix |
| Text.SplitGivesIncludes | frontend/src/pages/LibraryOverview.tsx:59-64 | A text made of a prefix, the term and a suffix includes the term |
| Text.IncludesSplits | frontend/src/pages/LibraryOverview.tsx:59-64 | `includes` holds exactly when the text splits around the term |
| Text.IncludesIsOccurs | frontend/src/pages/LibraryOverview.tsx:59-64 | On every pair of texts, `includes` is the textbook substring relation `Occurs` |
| Text.LowerForgetsUpper | frontend/src/pages/LibraryOverview.tsx:59-64 | Lower-casing an upper-cased text is lower-casing the text |
| Text.UpperHasNoLowerLetters | src/pages/AddStudent.tsx:211 | An upper-cased text holds no lower-case ASCII letter |

## Left out

- The serial link is not modelled: the socket, the backend server that reads the reader, and its write mode. A reader line is a method parameter.
- The synthetic Enter key press (issue page) and `requestSubmit` (profile page) are not modelled as events. On the issue page the Enter reaches the student form's handler only while no student is shown, so the model calls the search directly in that case only; the profile's form is always on screen, so there the search always runs. The 300 ms delay before it is not modelled.
- Login, the authentication context and the route guard are not modelled: no page logic depends on them.
- Rendering, toasts, loading flags and console output are not modelled.
- The photo upload is not modelled: file names, the upload call and the preview. Only the storage's answer (`UploadOutcome`) and whether a photo is chosen are.
- The `write_student` request to the reader service after a student is registered, and the `stop_write` request sent by the registration page's Back button, are not modelled (external I/O).
- A failure of the follow-up writes (count update, log entry, re-fetch) is not modelled. Only the first write of each handler can fail, via a parameter.
- Read errors of the store are not modelled: a failed read is treated like an empty answer.
- Concurrency is not modelled: two kiosks writing at once, or a handler running while another is pending.
- Row order is not modelled: the store's order of returned rows is the table order, and the ordering by name of the student list is left out.
- Generated values are not modelled: loan keys are row positions, and `created_at` and `notes` defaults are omitted.
- HTML form validation (`required`, `min="1"`) is not modelled; the handlers are modelled on any input.
- RegisteredStudents.BuildStats: the tally is a map, not a plain JavaScript object. A student id naming an `Object.prototype` property (`constructor`, `toString`, `__proto__`) already reads as truthy in the page, so the page never creates its entry and its figures become NaN; the model counts such ids like any other.
- Null text columns are not modelled: names, authors and ids are always strings, so the optional chaining in the overview search has no model.
- Case mapping covers ASCII letters only, and lengths are counted in characters, not UTF-16 code units.
- Numbers.ParseInt: reads integers exactly; the floating-point rounding of very long numerals is not modelled.
- IssueReturn: issuing and then returning is stated on table values by the lemmas `IssueThenReturnBooks` and `IssueThenReturnLoans`, not as one composed method run.
- StudentProfile.ReturnKeepsWellFormed: requires the legacy `status` column to be unset, because the return update does not write it.
- IssueReturn.IssueReturnPage.StudentSearch: a failed lookup keeps the previously found student and loans. This is what the handler does; it is modelled as written.
