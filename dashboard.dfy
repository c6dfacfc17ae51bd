/**
 * The dashboard: each card navigates to its page, after telling the reader service which mode the
 * page needs (reading cards on the scanning pages, writing cards on the registration pages).
 */
module Dashboard {
  import opened Wrappers

  const ISSUE_RETURN := "/issue-return"
  const STUDENT_PROFILE := "/student-profile"
  const ADD_STUDENT := "/add-student"
  const ADD_BOOK := "/add-book"
  const LIBRARY_DETAILS := "/library-details"
  const STUDENTS_LIST := "/students-list"

  datatype ReaderMode = ReadMode | WriteMode

  /** The body field `mode` sent for a reader mode. */
  function ModeName(m: ReaderMode): (name: string)
    ensures name == "read" || name == "write"
    ensures name == "read" <==> m == ReadMode
  {
    match m
    case ReadMode => "read"
    case WriteMode => "write"
  }

  /** The mode a page needs, if any. */
  function ModeFor(path: string): (m: Option<ReaderMode>)
    ensures m == Some(ReadMode) <==> path == ISSUE_RETURN || path == STUDENT_PROFILE
    ensures m == Some(WriteMode) <==> path == ADD_STUDENT || path == ADD_BOOK
  {
    if path == ISSUE_RETURN || path == STUDENT_PROFILE then Some(ReadMode)
    else if path == ADD_STUDENT || path == ADD_BOOK then Some(WriteMode)
    else None
  }

  /** What a click does: the mode posted to the reader service (if any), then the navigation. */
  datatype ClickEffect = ClickEffect(modeSent: Option<string>, navigateTo: string)

  /**
   * `handleCardClick`: post the mode when the page needs one; whether the post fails or not,
   * navigate to the card's page.
   */
  function CardClick(path: string): (e: ClickEffect)
    ensures e.navigateTo == path
    ensures e.modeSent.Some? <==> ModeFor(path).Some?
    ensures e.modeSent.Some? ==> e.modeSent.value == ModeName(ModeFor(path).value)
  {
    match ModeFor(path)
    case None => ClickEffect(None, path)
    case Some(m) => ClickEffect(Some(ModeName(m)), path)
  }

  /**
   * Of the six cards, the two scanning pages ask for reading, the two registration pages for
   * writing, and the two reports send nothing.
   */
  lemma CardModes()
    ensures CardClick(ISSUE_RETURN).modeSent == Some("read") && CardClick(STUDENT_PROFILE).modeSent == Some("read")
    ensures CardClick(ADD_STUDENT).modeSent == Some("write") && CardClick(ADD_BOOK).modeSent == Some("write")
    ensures CardClick(LIBRARY_DETAILS).modeSent == None && CardClick(STUDENTS_LIST).modeSent == None
  {
  }
}
