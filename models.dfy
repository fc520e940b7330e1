/**
 * The four tables of the backend (colleges, courses, students, attendance) as
 * datatypes, and the constraints the schema puts on a table's rows.
 * Non-nullable columns are plain fields; nullable ones are `Option`s.
 */
module Models {
  import opened Outcomes

  datatype CollegeType = Engineering | Degree | Others

  datatype College = College(
    id: int,
    name: string,
    latitude: real,
    longitude: real,
    district: Option<string>,
    collegeType: CollegeType,
    departmentCount: Option<int>,
    remarks: Option<string>)

  /** A course belongs to exactly one college: `collegeId` is required. */
  datatype Course = Course(id: int, name: string, duration: int, collegeId: int)

  /** A student is enrolled in one college and one course; both ids are required. */
  datatype Student = Student(
    id: int,
    name: string,
    registerNumber: string,
    collegeId: int,
    courseId: int,
    idCardPath: Option<string>,
    hashedPassword: string)

  /** A calendar date, as a day number. */
  datatype Date = Date(ordinal: int)

  /** A point in time, as microseconds on the server's clock. */
  datatype Timestamp = Timestamp(micros: int)

  /** One attendance row: `studentId` and `date` are required, everything else may be null. */
  datatype Attendance = Attendance(
    id: int,
    studentId: int,
    date: Date,
    checkInTime: Option<Timestamp>,
    checkOutTime: Option<Timestamp>,
    checkInLat: Option<real>,
    checkInLon: Option<real>,
    checkOutLat: Option<real>,
    checkOutLon: Option<real>)

  /** The attendance table is keyed by its unique pair (student_id, date). */
  type AttendanceKey = (int, Date)

  /** Every row is stored under its own primary key. */
  ghost predicate CollegesKeyed(colleges: map<int, College>)
  {
    forall id :: id in colleges ==> colleges[id].id == id
  }

  ghost predicate CoursesKeyed(courses: map<int, Course>)
  {
    forall id :: id in courses ==> courses[id].id == id
  }

  ghost predicate StudentsKeyed(students: map<int, Student>)
  {
    forall id :: id in students ==> students[id].id == id
  }

  /** The unique index on `students.register_number`. */
  ghost predicate RegisterNumbersUnique(students: map<int, Student>)
  {
    forall a, b :: a in students && b in students && students[a].registerNumber == students[b].registerNumber ==> a == b
  }

  /** The unique constraint on (student_id, date): each row sits under the key it carries. */
  ghost predicate AttendanceKeyed(records: map<AttendanceKey, Attendance>)
  {
    forall k :: k in records ==> records[k].studentId == k.0 && records[k].date == k.1
  }

  /** The primary key `attendance.id` is unique. */
  ghost predicate AttendanceIdsUnique(records: map<AttendanceKey, Attendance>)
  {
    forall k1, k2 :: k1 in records && k2 in records && records[k1].id == records[k2].id ==> k1 == k2
  }

  /** The rows a query `student_id == s AND date == d` can return. */
  ghost predicate RowFor(records: map<AttendanceKey, Attendance>, k: AttendanceKey, studentId: int, day: Date)
  {
    k in records && records[k].studentId == studentId && records[k].date == day
  }

  /**
   * At most one attendance row per (student, date), and the query on those two
   * columns finds a row exactly when that pair is a key.
   */
  lemma OneRowPerStudentDay(records: map<AttendanceKey, Attendance>, studentId: int, day: Date)
    requires AttendanceKeyed(records)
    ensures forall k1, k2 :: RowFor(records, k1, studentId, day) && RowFor(records, k2, studentId, day) ==> k1 == k2
    ensures (exists k :: RowFor(records, k, studentId, day)) <==> (studentId, day) in records
  {
    if (studentId, day) in records {
      assert RowFor(records, (studentId, day), studentId, day);
    }
  }
}
