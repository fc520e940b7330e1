/**
 * The daily check-in / check-out endpoints over the attendance table.
 * For one student and one date a record moves from "no record" to
 * "checked in" to "checked out"; no location is taken or stored.
 */
module AttendanceRoutes {
  import opened Outcomes
  import opened Models

  /** The three refusals; each is an HTTP 400 with its own detail. */
  datatype AttendanceError = AlreadyCheckedIn | NotCheckedIn | AlreadyCheckedOut
  {
    function StatusCode(): int { 400 }

    function Detail(): string
    {
      match this
      case AlreadyCheckedIn => "Already checked in today"
      case NotCheckedIn => "You have not checked in today"
      case AlreadyCheckedOut => "Already checked out"
    }
  }

  /** Where one student's attendance for one date stands. */
  datatype DayStatus = NotStarted | CheckedIn | CheckedOut

  /**
   * The status the endpoints read off the row that the query on
   * (student_id, date) returns: no row, a row without a check-out time, or a
   * row with one.
   */
  function StatusOf(records: map<AttendanceKey, Attendance>, studentId: int, day: Date): (r: DayStatus)
    requires AttendanceKeyed(records)
    ensures r == NotStarted <==> !exists k :: RowFor(records, k, studentId, day)
    ensures r == CheckedOut <==>
              exists k :: RowFor(records, k, studentId, day) && records[k].checkOutTime.Some?
  {
    var key := (studentId, day);
    OneRowPerStudentDay(records, studentId, day);
    assert key in records ==> RowFor(records, key, studentId, day);
    if key !in records then NotStarted
    else if records[key].checkOutTime.Some? then CheckedOut
    else CheckedIn
  }

  /** A record as `check_in` creates it: only its key, id and check-in time are set. */
  ghost predicate FreshCheckIn(a: Attendance, id: int, studentId: int, day: Date, now: Timestamp)
  {
    a == Attendance(id, studentId, day, Some(now), None, None, None, None, None)
  }

  /** The coordinate columns are never written by these endpoints. */
  ghost predicate NoCoordinates(a: Attendance)
  {
    a.checkInLat.None? && a.checkInLon.None? && a.checkOutLat.None? && a.checkOutLon.None?
  }

  /** Every record ever written has its check-in time, so no check-out stands without one. */
  ghost predicate CheckOutAfterCheckIn(records: map<AttendanceKey, Attendance>)
  {
    forall k :: k in records && records[k].checkOutTime.Some? ==> records[k].checkInTime.Some?
  }

  class AttendanceTable {
    var records: map<AttendanceKey, Attendance>
    /** The id the database's autoincrement hands to the next row. */
    var nextId: int

    ghost predicate Valid()
      reads this
    {
      && AttendanceKeyed(records)
      && AttendanceIdsUnique(records)
      && 1 <= nextId
      && forall k :: k in records ==>
           && 1 <= records[k].id < nextId
           && records[k].checkInTime.Some?
           && NoCoordinates(records[k])
    }

    constructor ()
      ensures Valid() && records == map[] && nextId == 1
    {
      records := map[];
      nextId := 1;
    }

    /**
     * `POST /attendance/check-in` for `student` on the server's `today`, at time `now`.
     * Refused when any record exists for that student and date, checked out or not.
     */
    method CheckIn(student: Student, today: Date, now: Timestamp) returns (r: Result<Attendance, AttendanceError>)
      requires Valid()
      modifies this
      ensures Valid() && CheckOutAfterCheckIn(records)
      ensures r.Err? <==> old(StatusOf(records, student.id, today)) != NotStarted
      ensures r.Err? ==> r.error == AlreadyCheckedIn && records == old(records) && nextId == old(nextId)
      ensures r.Ok? ==>
        && FreshCheckIn(r.value, old(nextId), student.id, today, now)
        && records == old(records)[(student.id, today) := r.value]
        && nextId == old(nextId) + 1
        && StatusOf(records, student.id, today) == CheckedIn
    {
      var key := (student.id, today);
      if key in records {
        return Err(AlreadyCheckedIn);
      }
      var attendance := Attendance(nextId, student.id, today, Some(now), None, None, None, None, None);
      records := records[key := attendance];
      nextId := nextId + 1;
      r := Ok(attendance);
    }

    /**
     * `POST /attendance/check-out` for `student` on `today`, at time `now`.
     * Refused when there is no record for that date, or its check-out time is set.
     */
    method CheckOut(student: Student, today: Date, now: Timestamp) returns (r: Result<Attendance, AttendanceError>)
      requires Valid()
      modifies this
      ensures Valid() && CheckOutAfterCheckIn(records)
      ensures nextId == old(nextId)
      ensures old(StatusOf(records, student.id, today)) == NotStarted ==> r == Err(NotCheckedIn)
      ensures old(StatusOf(records, student.id, today)) == CheckedOut ==> r == Err(AlreadyCheckedOut)
      ensures r.Ok? <==> old(StatusOf(records, student.id, today)) == CheckedIn
      ensures r.Err? ==> records == old(records)
      ensures r.Ok? ==>
        && r.value == old(records)[(student.id, today)].(checkOutTime := Some(now))
        && records == old(records)[(student.id, today) := r.value]
        && StatusOf(records, student.id, today) == CheckedOut
    {
      var key := (student.id, today);
      if key !in records {
        return Err(NotCheckedIn);
      }
      var attendance := records[key];
      if attendance.checkOutTime.Some? {
        return Err(AlreadyCheckedOut);
      }
      attendance := attendance.(checkOutTime := Some(now));
      records := records[key := attendance];
      r := Ok(attendance);
    }
  }

  /**
   * One student's day on a fresh table: check-out before check-in is refused,
   * the first check-in succeeds, a second is refused, check-out succeeds and
   * keeps the check-in time, and after it both check-out and check-in are refused.
   */
  method OneDay(student: Student, day: Date, t0: Timestamp, t1: Timestamp, t2: Timestamp,
                t3: Timestamp, t4: Timestamp, t5: Timestamp)
    returns (early: Result<Attendance, AttendanceError>, first: Result<Attendance, AttendanceError>,
             second: Result<Attendance, AttendanceError>, out: Result<Attendance, AttendanceError>,
             outAgain: Result<Attendance, AttendanceError>, late: Result<Attendance, AttendanceError>)
    ensures early == Err(NotCheckedIn)
    ensures first.Ok? && first.value.checkInTime == Some(t1) && first.value.checkOutTime.None?
    ensures second == Err(AlreadyCheckedIn)
    ensures out.Ok? && out.value.checkInTime == Some(t1) && out.value.checkOutTime == Some(t3)
    ensures outAgain == Err(AlreadyCheckedOut)
    ensures late == Err(AlreadyCheckedIn)
  {
    var table := new AttendanceTable();
    early := table.CheckOut(student, day, t0);
    first := table.CheckIn(student, day, t1);
    second := table.CheckIn(student, day, t2);
    out := table.CheckOut(student, day, t3);
    outAgain := table.CheckOut(student, day, t4);
    late := table.CheckIn(student, day, t5);
  }
}
