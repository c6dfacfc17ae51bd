/**
 * The student registration form: the department and batch are derived from the roll number,
 * and submitting checks the roll number and the email for duplicates before inserting the row.
 */
module AddStudent {
  import opened Wrappers
  import opened Seqs
  import opened Text
  import opened Numbers
  import opened Records
  import opened RecordStore

  /** Roll numbers of the one department the form knows start with this code. */
  const DEPT_PREFIX := "IS"
  const DEPARTMENT := "Instrumentation Science"
  /** The characters between the two years of a batch, exactly as they appear in the page's text. */
  const BATCH_SEPARATOR := "\U{00E2}\U{20AC}\U{201C}"

  /** `rollNo.substring(2, 4)`: both ends are clamped to the length. */
  function YearCode(rollNo: string): (y: string)
    ensures |y| <= 2
    ensures |rollNo| >= 4 ==> y == rollNo[2..4]
  {
    var lo := if |rollNo| < 2 then |rollNo| else 2;
    var hi := if |rollNo| < 4 then |rollNo| else 4;
    rollNo[lo..hi]
  }

  /** `/^\d{2}$/.test(y)`. */
  predicate IsTwoDigits(y: string) {
    |y| == 2 && IsDecimalDigit(y[0]) && IsDecimalDigit(y[1])
  }

  /** `${n}` for an integer number. */
  function NumberText(n: int): string {
    if n < 0 then "-" + Decimal(-n) else Decimal(n)
  }

  /** The department the form fills in for a roll number. */
  function InferDepartment(rollNo: string): (d: string)
    ensures d == DEPARTMENT <==> StartsWith(rollNo, DEPT_PREFIX)
    ensures d != DEPARTMENT ==> d == ""
  {
    if StartsWith(rollNo, DEPT_PREFIX) then DEPARTMENT else ""
  }

  /**
   * The batch the form fills in: with the department's prefix and two digits after it, the start
   * year `parseInt('20' + yearCode)` and the year two later.
   */
  function InferBatch(rollNo: string): (b: string)
    ensures b != "" <==>
      StartsWith(rollNo, DEPT_PREFIX) && |rollNo| >= 4 && IsDecimalDigit(rollNo[2]) && IsDecimalDigit(rollNo[3])
  {
    if StartsWith(rollNo, DEPT_PREFIX) then
      var y := YearCode(rollNo);
      if IsTwoDigits(y) then
        match ParseInt("20" + y)
        case None => "NaN" + BATCH_SEPARATOR + "NaN"
        case Some(start) => NumberText(start) + BATCH_SEPARATOR + NumberText(start + 2)
      else ""
    else ""
  }

  /** The numeral `20` followed by two digits `y` denotes 2000 plus their value. */
  lemma CenturyValue(y: string)
    requires IsTwoDigits(y)
    ensures ValueOf("20" + y, 10) == 2000 + 10 * DigitValue(y[0]) + DigitValue(y[1])
  {
    var s := "20" + y;
    assert s[..|s| - 1] == "20" + [y[0]] && s[|s| - 1] == y[1];
    var t := "20" + [y[0]];
    assert t[..|t| - 1] == "20" && t[|t| - 1] == y[0];
    assert "20"[..1] == "2" && "2"[..0] == "";
    assert ValueOf("20", 10) == 20;
  }

  /** The text `20` followed by two digits is all digits, and reads as a whole. */
  lemma CenturyDigits(y: string)
    requires IsTwoDigits(y)
    ensures ParseDigits("20" + y, 10) == Some(ValueOf("20" + y, 10))
  {
    var s := "20" + y;
    assert s + "" == s;
    assert forall i :: 0 <= i < |s| ==> IsDecimalDigit(s[i]) by {
      assert s[0] == '2' && s[1] == '0' && s[2] == y[0] && s[3] == y[1];
    }
    ParseDigitsPrefix(s, "");
  }

  /** `parseInt('20' + y)` for two digits `y` is 2000 plus their value. */
  lemma ParseCenturyYear(y: string)
    requires IsTwoDigits(y)
    ensures ParseInt("20" + y) == Some(2000 + 10 * DigitValue(y[0]) + DigitValue(y[1]))
  {
    assert ("20" + y)[0] == '2';
    ParseUnsigned("20" + y);
    CenturyDigits(y);
    CenturyValue(y);
  }

  /**
   * A batch that is filled in names two years of this century two apart, the first being
   * 2000 plus the two digits after the prefix, and it reads back (`parseInt`) as its start year.
   */
  lemma BatchYears(rollNo: string)
    requires InferBatch(rollNo) != ""
    ensures |rollNo| >= 4
    ensures var start := 2000 + 10 * DigitValue(rollNo[2]) + DigitValue(rollNo[3]);
      && 2000 <= start <= 2099
      && InferBatch(rollNo) == Decimal(start) + BATCH_SEPARATOR + Decimal(start + 2)
      && ParseInt(InferBatch(rollNo)) == Some(start)
  {
    var start := 2000 + 10 * DigitValue(rollNo[2]) + DigitValue(rollNo[3]);
    var y := YearCode(rollNo);
    assert y == rollNo[2..4] && y[0] == rollNo[2] && y[1] == rollNo[3];
    ParseCenturyYear(y);
    assert InferBatch(rollNo) == NumberText(start) + BATCH_SEPARATOR + NumberText(start + 2);
    assert NumberText(start) == Decimal(start) && NumberText(start + 2) == Decimal(start + 2);
    var first, second := Decimal(start), Decimal(start + 2);
    var rest := BATCH_SEPARATOR + second;
    assert first + BATCH_SEPARATOR + second == first + rest by {
      assert |first + BATCH_SEPARATOR + second| == |first + rest|;
      forall i | 0 <= i < |first + rest|
        ensures (first + BATCH_SEPARATOR + second)[i] == (first + rest)[i]
      {
      }
    }
    ParseIntNumeralPrefix(start, rest);
  }

  /** A filled-in batch always comes with the department. */
  lemma BatchHasDepartment(rollNo: string)
    requires InferBatch(rollNo) != ""
    ensures InferDepartment(rollNo) == DEPARTMENT
  {
  }

  /** The roll number input upper-cases what is typed, so a prefix typed in any case is recognised. */
  lemma TypedPrefixRecognised(typed: string)
    requires |typed| >= 2 && (typed[0] == 'i' || typed[0] == 'I') && (typed[1] == 's' || typed[1] == 'S')
    ensures InferDepartment(ToUpper(typed)) == DEPARTMENT
  {
    assert ToUpper(typed)[..2] == DEPT_PREFIX;
  }

  /** The empty roll number derives neither department nor batch, so the reset form is consistent. */
  lemma EmptyRollNoDerivesNothing()
    ensures InferDepartment("") == "" && InferBatch("") == ""
  {
  }

  datatype SubmitOutcome = RollNoTaken | EmailTaken | PhotoUploadFailed | InsertFailed | StudentAdded

  /** The row `handleSubmit` inserts: the roll number doubles as the student id. */
  function NewStudent(
    rollNo: string, name: string, department: string, batch: string, email: string,
    photoUrl: Option<string>): (s: Student)
    ensures s.rollNo == rollNo && s.studentId == rollNo && s.email == email
  {
    Student(rollNo, rollNo, name, department, batch, email, photoUrl)
  }

  /**
   * A student registered past both duplicate checks is found afterwards, by roll number (the
   * issue page's lookup) and by student id (the profile page's lookup).
   */
  lemma RegisteredStudentIsFound(students: seq<Student>, s: Student)
    requires UniqueStudents(students) && StudentIdsAreRollNos(students)
    requires MaybeSingle(Filter(HasRollNo(s.rollNo), students)).None?
    requires s.studentId == s.rollNo
    ensures StudentByRollNo(students + [s], s.rollNo) == Some(s)
    ensures StudentByStudentId(students + [s], s.rollNo) == Some(s)
  {
    RollNoTakenIffPresent(students, s.rollNo);
    FilterKeepsNone(HasRollNo(s.rollNo), students);
    FilterAppendOne(HasRollNo(s.rollNo), students, s);
    forall x | x in students
      ensures !HasStudentId(s.rollNo)(x)
    {
      var i :| 0 <= i < |students| && students[i] == x;
    }
    FilterKeepsNone(HasStudentId(s.rollNo), students);
    FilterAppendOne(HasStudentId(s.rollNo), students, s);
  }

  class AddStudentForm {
    var rollNo: string
    var name: string
    /** Read-only inputs, filled from the roll number. */
    var department: string
    var batch: string
    var email: string
    /** Whether a photo file is chosen. */
    var photoChosen: bool
    const store: Store

    /** The derived inputs agree with the roll number (the page's effect on `rollNo`). */
    ghost predicate Derived()
      reads this
    {
      department == InferDepartment(rollNo) && batch == InferBatch(rollNo)
    }

    constructor (store: Store)
      ensures this.store == store
      ensures rollNo == "" && name == "" && email == "" && !photoChosen
      ensures Derived()
    {
      this.store := store;
      rollNo, name, department, batch, email, photoChosen := "", "", "", "", "", false;
    }

    /** Typing a roll number: it is upper-cased, and the department and batch re-derived. */
    method SetRollNo(typed: string)
      modifies this
      ensures rollNo == ToUpper(typed)
      ensures Derived()
      ensures name == old(name) && email == old(email) && photoChosen == old(photoChosen)
    {
      rollNo := ToUpper(typed);
      department, batch := InferDepartment(rollNo), InferBatch(rollNo);
    }

    method SetName(typed: string)
      modifies this
      ensures name == typed
      ensures rollNo == old(rollNo) && department == old(department) && batch == old(batch)
      ensures email == old(email) && photoChosen == old(photoChosen)
    {
      name := typed;
    }

    method SetEmail(typed: string)
      modifies this
      ensures email == typed
      ensures rollNo == old(rollNo) && department == old(department) && batch == old(batch)
      ensures name == old(name) && photoChosen == old(photoChosen)
    {
      email := typed;
    }

    /** Choosing a file (`chosen`), or pressing the remove button (`!chosen`). */
    method SetPhoto(chosen: bool)
      modifies this
      ensures photoChosen == chosen
      ensures rollNo == old(rollNo) && department == old(department) && batch == old(batch)
      ensures name == old(name) && email == old(email)
    {
      photoChosen := chosen;
    }

    /**
     * `handleSubmit`: a roll number or an email already registered stops the submission; a chosen
     * photo is uploaded first and a failed upload stops it too; then the student row is inserted
     * and the form cleared. `upload` is what the storage answers, `insertAccepted` whether the
     * store accepts the insert.
     */
    method Submit(upload: UploadOutcome, insertAccepted: bool) returns (outcome: SubmitOutcome)
      modifies this, store
      ensures var byRollNo := MaybeSingle(Filter(HasRollNo(old(rollNo)), old(store.students)));
        var byEmail := MaybeSingle(Filter(HasEmail(old(email)), old(store.students)));
        && (byRollNo.Some? ==> outcome == RollNoTaken)
        && (byRollNo.None? && byEmail.Some? ==> outcome == EmailTaken)
        && (byRollNo.None? && byEmail.None? && old(photoChosen) && upload.UploadFailed? ==>
              outcome == PhotoUploadFailed)
        && (byRollNo.None? && byEmail.None? && !(old(photoChosen) && upload.UploadFailed?) ==>
              outcome == if insertAccepted then StudentAdded else InsertFailed)
      ensures outcome != StudentAdded ==> unchanged(this, store)
      ensures outcome == StudentAdded ==>
        && store.students == old(store.students) + [NewStudent(old(rollNo), old(name), old(department),
             old(batch), old(email), if old(photoChosen) then PhotoUrlOf(upload) else None)]
        && store.books == old(store.books) && store.loans == old(store.loans)
        && store.transactions == old(store.transactions)
        && rollNo == "" && name == "" && department == "" && batch == "" && email == "" && !photoChosen
      ensures old(Derived()) ==> Derived()
      ensures old(store.Valid()) ==> store.Valid()
    {
      if MaybeSingle(Filter(HasRollNo(rollNo), store.students)).Some? {
        return RollNoTaken;
      }
      if MaybeSingle(Filter(HasEmail(email), store.students)).Some? {
        return EmailTaken;
      }
      var photoUrl: Option<string> := None;
      if photoChosen {
        if upload.UploadFailed? {
          return PhotoUploadFailed;
        }
        photoUrl := PhotoUrlOf(upload);
      }
      if !insertAccepted {
        return InsertFailed;
      }
      RecordStudent(photoUrl);
      outcome := StudentAdded;
    }

    /** The insert of a student past both duplicate checks, then the cleared form. */
    method RecordStudent(photoUrl: Option<string>)
      requires MaybeSingle(Filter(HasRollNo(rollNo), store.students)).None?
      requires MaybeSingle(Filter(HasEmail(email), store.students)).None?
      modifies this, store
      ensures store.students == old(store.students) + [NewStudent(old(rollNo), old(name), old(department),
        old(batch), old(email), photoUrl)]
      ensures store.books == old(store.books) && store.loans == old(store.loans)
      ensures store.transactions == old(store.transactions)
      ensures rollNo == "" && name == "" && department == "" && batch == "" && email == "" && !photoChosen
      ensures Derived()
      ensures old(store.Valid()) ==> store.Valid()
    {
      store.InsertStudent(NewStudent(rollNo, name, department, batch, email, photoUrl));
      EmptyRollNoDerivesNothing();
      rollNo, name, department, batch, email, photoChosen := "", "", "", "", "", false;
    }
  }
}
