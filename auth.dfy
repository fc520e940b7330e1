/**
 * `POST /auth/signup` and `POST /auth/token`. Signup runs a fixed chain of
 * checks and inserts one student when all pass; login finds the student by
 * register number and checks the password. Hashing, password verification and
 * token signing are the parameters `hash`, `verify` and `createToken`.
 */
module Auth {
  import opened Outcomes
  import opened Text
  import opened Models

  /** The uploaded ID-card photo: its file name, declared content type and bytes. */
  datatype UploadFile = UploadFile(filename: string, contentType: Option<string>, content: seq<bv8>)

  /** The signup form fields. */
  datatype SignupForm = SignupForm(
    name: string,
    registerNumber: string,
    collegeId: int,
    courseId: int,
    password: string,
    idCard: UploadFile)

  /** The signup refusals, in the order the checks run; each is an HTTP 400. */
  datatype SignupError =
    | RegisterNumberTaken
    | CollegeNotFound
    | CourseNotFound
    | CourseNotInCollege
    | InvalidContentType
    | InvalidExtension
    | FileTooLarge
  {
    /** The position of the check in the chain. */
    function Order(): nat
    {
      match this
      case RegisterNumberTaken => 0
      case CollegeNotFound => 1
      case CourseNotFound => 2
      case CourseNotInCollege => 3
      case InvalidContentType => 4
      case InvalidExtension => 5
      case FileTooLarge => 6
    }

    function StatusCode(): int { 400 }

    function Detail(): string
    {
      match this
      case RegisterNumberTaken => "Register number already registered"
      case CollegeNotFound => "College not found"
      case CourseNotFound => "Course not found"
      case CourseNotInCollege => "Course does not belong to the specified college"
      case InvalidContentType => "Invalid file type. Only JPEG and PNG are allowed."
      case InvalidExtension => "Invalid file extension. Only .jpg, .jpeg and .png are allowed."
      case FileTooLarge => "File size exceeds the 5MB limit."
    }
  }

  const AllowedContentTypes: seq<string> := ["image/jpeg", "image/png", "image/jpg"]
  const AllowedExtensions: seq<string> := ["jpg", "jpeg", "png"]
  /** 5 MiB; a file of exactly this size is accepted. */
  const MaxIdCardBytes: nat := 5 * 1024 * 1024

  /**
   * `filename.split(".")[-1].lower()`: the lower-cased text after the last dot,
   * or the whole lower-cased name when it has no dot.
   */
  function Extension(filename: string): (ext: string)
    ensures '.' !in ext && |ext| <= |filename|
    ensures forall i :: 0 <= i < |ext| ==> ext[i] == LowerChar(filename[|filename| - |ext| + i])
    ensures '.' in filename ==> |ext| < |filename| && filename[|filename| - |ext| - 1] == '.'
    ensures '.' !in filename ==> |ext| == |filename|
  {
    var last := AfterLast(filename, '.');
    var ext := Lower(last);
    assert forall i :: 0 <= i < |ext| ==> ext[i] != '.' by {
      forall i | 0 <= i < |ext| ensures ext[i] != '.' {
        assert last[i] in last;
      }
    }
    ext
  }

  /** A file named `stem.e` (with no dot in `e`) has extension `e` lower-cased. */
  lemma ExtensionOfDotted(stem: string, e: string)
    requires '.' !in e
    ensures Extension(stem + "." + e) == Lower(e)
  {
    AfterLastOfDotted(stem, e);
  }

  lemma {:induction false} AfterLastOfDotted(stem: string, e: string)
    requires '.' !in e
    ensures AfterLast(stem + "." + e, '.') == e
  {
    var f := stem + "." + e;
    if e != [] {
      var init := e[..|e| - 1];
      assert e[|e| - 1] in e;
      assert init + [e[|e| - 1]] == e;
      assert f[..|f| - 1] == stem + "." + init;
      assert '.' !in init by {
        forall i | 0 <= i < |init| ensures init[i] != '.' {
          assert init[i] == e[i];
        }
      }
      AfterLastOfDotted(stem, init);
    }
  }

  /** Some student already holds this register number (the query on the unique `register_number` column). */
  predicate RegisterTaken(students: map<int, Student>, registerNumber: string)
  {
    exists id :: id in students && students[id].registerNumber == registerNumber
  }

  /** Whether check `e` of the chain, taken on its own, rejects `form`. */
  ghost predicate Fails(e: SignupError, students: map<int, Student>, colleges: map<int, College>,
                        courses: map<int, Course>, form: SignupForm)
  {
    match e
    case RegisterNumberTaken => RegisterTaken(students, form.registerNumber)
    case CollegeNotFound => form.collegeId !in colleges
    case CourseNotFound => form.courseId !in courses
    case CourseNotInCollege =>
      form.collegeId in colleges && form.courseId in courses &&
      courses[form.courseId].collegeId != colleges[form.collegeId].id
    case InvalidContentType =>
      form.idCard.contentType.None? || form.idCard.contentType.value !in AllowedContentTypes
    case InvalidExtension => Extension(form.idCard.filename) !in AllowedExtensions
    case FileTooLarge => |form.idCard.content| > MaxIdCardBytes
  }

  /**
   * The checks of `signup_student`, in source order; on success, the accepted
   * extension that goes into the stored file name.
   */
  function ValidateSignup(students: map<int, Student>, colleges: map<int, College>,
                          courses: map<int, Course>, form: SignupForm): (r: Result<string, SignupError>)
    ensures r.Ok? ==> r.value == Extension(form.idCard.filename) && r.value in AllowedExtensions
    ensures r.Ok? ==> form.collegeId in colleges && form.courseId in courses
  {
    if RegisterTaken(students, form.registerNumber) then
      Err(RegisterNumberTaken)
    else if form.collegeId !in colleges then Err(CollegeNotFound)
    else if form.courseId !in courses then Err(CourseNotFound)
    else if courses[form.courseId].collegeId != colleges[form.collegeId].id then Err(CourseNotInCollege)
    else if form.idCard.contentType.None? || form.idCard.contentType.value !in AllowedContentTypes then
      Err(InvalidContentType)
    else
      var ext := Extension(form.idCard.filename);
      if ext !in AllowedExtensions then Err(InvalidExtension)
      else if |form.idCard.content| > MaxIdCardBytes then Err(FileTooLarge)
      else Ok(ext)
  }

  /** Which check of the chain sits at position `k`. */
  function CheckAt(k: nat): (e: SignupError)
    requires k < 7
    ensures e.Order() == k
  {
    [RegisterNumberTaken, CollegeNotFound, CourseNotFound, CourseNotInCollege,
     InvalidContentType, InvalidExtension, FileTooLarge][k]
  }

  /** None of the first `k` checks rejects `form`. */
  ghost predicate PassesFirst(k: nat, students: map<int, Student>, colleges: map<int, College>,
                              courses: map<int, Course>, form: SignupForm)
  {
    forall j :: 0 <= j < k && j < 7 ==> !Fails(CheckAt(j), students, colleges, courses, form)
  }

  lemma PassesFirstAll(k: nat, students: map<int, Student>, colleges: map<int, College>,
                       courses: map<int, Course>, form: SignupForm)
    requires PassesFirst(k, students, colleges, courses, form)
    ensures forall e: SignupError :: e.Order() < k ==> !Fails(e, students, colleges, courses, form)
  {
    forall e: SignupError | e.Order() < k ensures !Fails(e, students, colleges, courses, form) {
      assert CheckAt(e.Order()) == e by {
        match e
        case RegisterNumberTaken =>
        case CollegeNotFound =>
        case CourseNotFound =>
        case CourseNotInCollege =>
        case InvalidContentType =>
        case InvalidExtension =>
        case FileTooLarge =>
      }
    }
  }

  /**
   * Signup is rejected exactly when some check fails, and then with the error
   * of the first failing check in source order.
   */
  lemma ValidateSignupReportsFirstFailure(students: map<int, Student>, colleges: map<int, College>,
                                          courses: map<int, Course>, form: SignupForm)
    ensures ValidateSignup(students, colleges, courses, form).Ok? <==>
            forall e :: !Fails(e, students, colleges, courses, form)
    ensures var r := ValidateSignup(students, colleges, courses, form);
            r.Err? ==> Fails(r.error, students, colleges, courses, form) &&
                       forall e: SignupError :: e.Order() < r.error.Order() ==> !Fails(e, students, colleges, courses, form)
  {
    var r := ValidateSignup(students, colleges, courses, form);
    var k: nat := if r.Ok? then 7 else r.error.Order();
    assert PassesFirst(k, students, colleges, courses, form);
    PassesFirstAll(k, students, colleges, courses, form);
    if r.Err? {
      assert Fails(r.error, students, colleges, courses, form);
    }
  }

  /** Once the earlier checks pass, a file of at most 5 MiB is accepted and a larger one refused. */
  lemma SizeLimitBoundary(students: map<int, Student>, colleges: map<int, College>,
                          courses: map<int, Course>, form: SignupForm)
    requires forall e: SignupError :: e.Order() < FileTooLarge.Order() ==> !Fails(e, students, colleges, courses, form)
    ensures ValidateSignup(students, colleges, courses, form) ==
            if |form.idCard.content| <= MaxIdCardBytes then Ok(Extension(form.idCard.filename)) else Err(FileTooLarge)
  {
    ValidateSignupReportsFirstFailure(students, colleges, courses, form);
    var r := ValidateSignup(students, colleges, courses, form);
    if r.Err? {
      assert r.error.Order() >= FileTooLarge.Order();
      assert r.error == FileTooLarge by {
        match r.error
        case FileTooLarge =>
        case _ =>
      }
    } else {
      assert !Fails(FileTooLarge, students, colleges, courses, form);
    }
  }

  /** `str(ID_CARDS_DIR / f"{register_number}_{uuid}.{ext}")`. */
  function IdCardPath(idCardsDir: string, registerNumber: string, uuidHex: string, ext: string): (p: string)
    ensures idCardsDir + "/" <= p
    ensures p[|idCardsDir| + 1..] == registerNumber + "_" + uuidHex + "." + ext
  {
    idCardsDir + "/" + registerNumber + "_" + uuidHex + "." + ext
  }

  /** The stored file keeps the accepted extension: reading it back off the path gives it again. */
  lemma IdCardPathKeepsExtension(idCardsDir: string, registerNumber: string, uuidHex: string, ext: string)
    requires '.' !in ext
    ensures Extension(IdCardPath(idCardsDir, registerNumber, uuidHex, ext)) == Lower(ext)
  {
    var stem := idCardsDir + "/" + registerNumber + "_" + uuidHex;
    ExtensionOfDotted(stem, ext);
    assert IdCardPath(idCardsDir, registerNumber, uuidHex, ext) == stem + "." + ext;
  }

  /** `db.query(Student).filter(register_number == r).first()`. */
  function FindByRegisterNumber(students: map<int, Student>, registerNumber: string): (r: Option<Student>)
    requires RegisterNumbersUnique(students)
    ensures r.Some? <==> RegisterTaken(students, registerNumber)
    ensures r.Some? ==> forall id :: id in students && students[id].registerNumber == registerNumber ==>
                                     r.value == students[id]
  {
    if RegisterTaken(students, registerNumber) then
      var id :| id in students && students[id].registerNumber == registerNumber;
      Some(students[id])
    else None
  }

  /** The body of a successful `POST /auth/token`. */
  datatype Token = Token(accessToken: string, tokenType: string)

  /** The one login refusal: HTTP 401, with a `WWW-Authenticate: Bearer` header. */
  datatype LoginError = IncorrectCredentials
  {
    function StatusCode(): int { 401 }
    function Detail(): string { "Incorrect register number or password" }
  }

  /**
   * `login_for_access_token`: the student with this register number must exist
   * and the password must verify against its stored hash; the token's subject
   * is `str(student.id)`.
   */
  function Login(students: map<int, Student>, username: string, password: string,
                 verify: (string, string) -> bool, createToken: string -> string): (r: Result<Token, LoginError>)
    requires RegisterNumbersUnique(students)
    ensures r.Ok? <==> exists id :: id in students && students[id].registerNumber == username &&
                                    verify(password, students[id].hashedPassword)
    ensures r.Ok? ==> exists id :: id in students && students[id].registerNumber == username &&
                                   r.value == Token(createToken(FormatInt(students[id].id)), "bearer")
  {
    var found := FindByRegisterNumber(students, username);
    if found.None? || !verify(password, found.value.hashedPassword) then Err(IncorrectCredentials)
    else Ok(Token(createToken(FormatInt(found.value.id)), "bearer"))
  }

  /** The colleges, courses and students tables. */
  class Registry {
    var colleges: map<int, College>
    var courses: map<int, Course>
    var students: map<int, Student>
    /** The id the database's autoincrement hands to the next student. */
    var nextStudentId: int

    ghost predicate Valid()
      reads this
    {
      && CollegesKeyed(colleges)
      && CoursesKeyed(courses)
      && StudentsKeyed(students)
      && RegisterNumbersUnique(students)
      && 1 <= nextStudentId
      && forall id :: id in students ==>
           && 1 <= id < nextStudentId
           && students[id].collegeId in colleges
           && students[id].courseId in courses
           && courses[students[id].courseId].collegeId == students[id].collegeId
    }

    constructor (colleges: map<int, College>, courses: map<int, Course>)
      requires CollegesKeyed(colleges) && CoursesKeyed(courses)
      ensures Valid()
      ensures this.colleges == colleges && this.courses == courses
      ensures students == map[] && nextStudentId == 1
    {
      this.colleges := colleges;
      this.courses := courses;
      students := map[];
      nextStudentId := 1;
    }

    /**
     * `signup_student`: run the checks; when all pass, insert one student whose
     * password is stored only as `hash(password)`. The upload is written to
     * `IdCardPath(idCardsDir, ...)`, with `uuidHex` the random part of its name.
     */
    method Signup(form: SignupForm, hash: string -> string, idCardsDir: string, uuidHex: string)
      returns (r: Result<Student, SignupError>)
      requires Valid()
      modifies this
      ensures Valid()
      ensures colleges == old(colleges) && courses == old(courses)
      ensures var v := ValidateSignup(old(students), colleges, courses, form);
              && (r.Ok? <==> v.Ok?)
              && (r.Err? ==> v.error == r.error && students == old(students) && nextStudentId == old(nextStudentId))
              && (r.Ok? ==>
                   && r.value == Student(old(nextStudentId), form.name, form.registerNumber, form.collegeId,
                                         form.courseId, Some(IdCardPath(idCardsDir, form.registerNumber, uuidHex, v.value)),
                                         hash(form.password))
                   && r.value.id !in old(students)
                   && students == old(students)[r.value.id := r.value]
                   && nextStudentId == old(nextStudentId) + 1)
    {
      var v := ValidateSignup(students, colleges, courses, form);
      if v.Err? {
        return Err(v.error);
      }
      var path := IdCardPath(idCardsDir, form.registerNumber, uuidHex, v.value);
      var student := Student(nextStudentId, form.name, form.registerNumber, form.collegeId, form.courseId,
                             Some(path), hash(form.password));
      students := students[nextStudentId := student];
      nextStudentId := nextStudentId + 1;
      r := Ok(student);
    }
  }
}
