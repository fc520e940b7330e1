/**
 * Whole requests against the tables, and the rules that span two tables: attendance rows belong to existing students,
 * and deleting a student deletes that student's attendance rows with it
 * (the `cascade="all, delete-orphan"` relationship). The attendance
 * endpoints as whole requests (`get_current_student`, then the endpoint)
 * keep that ownership.
 */
module Requests {
  import opened Outcomes
  import opened Models
  import AttendanceRoutes
  import opened Auth
  import Dependencies

  /** Every attendance row belongs to a student in the table. */
  ghost predicate AttendanceOwned(records: map<AttendanceKey, Attendance>, students: map<int, Student>)
  {
    forall k :: k in records ==> records[k].studentId in students
  }

  /** Delete student `id`; every attendance row of that student goes with it. */
  method DeleteStudent(registry: Registry, table: AttendanceRoutes.AttendanceTable, id: int)
    requires registry.Valid() && table.Valid()
    modifies registry, table
    ensures registry.Valid() && table.Valid()
    ensures registry.students == old(registry.students) - {id}
    ensures registry.colleges == old(registry.colleges) && registry.courses == old(registry.courses)
    ensures registry.nextStudentId == old(registry.nextStudentId) && table.nextId == old(table.nextId)
    ensures forall k :: k in table.records <==> k in old(table.records) && k.0 != id
    ensures forall k :: k in table.records ==> table.records[k] == old(table.records)[k]
    ensures forall k :: k in table.records ==> table.records[k].studentId != id
    ensures AttendanceOwned(old(table.records), old(registry.students)) ==>
              AttendanceOwned(table.records, registry.students)
  {
    registry.students := registry.students - {id};
    table.records := map k | k in table.records && k.0 != id :: table.records[k];
  }

  /** Both tables' invariants, and every attendance row owned by a student of the registry. */
  ghost predicate Consistent(registry: Registry, table: AttendanceRoutes.AttendanceTable)
    reads registry, table
  {
    registry.Valid() && table.Valid() && AttendanceOwned(table.records, registry.students)
  }

  /** Why an attendance request is refused: by the credential dependency (401) or by the endpoint (400). */
  datatype RequestError =
    | Unauthorized(credential: Dependencies.CredentialError)
    | Refused(attendance: AttendanceRoutes.AttendanceError)

  /**
   * `POST /attendance/check-in` as a whole request: `get_current_student`
   * resolves the caller from the request's token, then `check_in` runs for
   * that student.
   */
  method CheckInRequest(registry: Registry, table: AttendanceRoutes.AttendanceTable,
                        header: Option<string>, cookie: Option<string>,
                        decode: string -> Option<Dependencies.TokenData>, today: Date, now: Timestamp)
    returns (r: Result<Attendance, RequestError>)
    requires Consistent(registry, table)
    modifies table
    ensures Consistent(registry, table)
    ensures var who := Dependencies.GetCurrentStudent(header, cookie, decode, registry.students);
            && (who.Err? ==>
                 && r == Err(Unauthorized(who.error))
                 && table.records == old(table.records) && table.nextId == old(table.nextId))
            && (who.Ok? ==>
                 && (r.Err? <==> old(AttendanceRoutes.StatusOf(table.records, who.value.id, today)) != AttendanceRoutes.NotStarted)
                 && (r.Err? ==>
                      && r == Err(Refused(AttendanceRoutes.AlreadyCheckedIn))
                      && table.records == old(table.records) && table.nextId == old(table.nextId))
                 && (r.Ok? ==>
                      && AttendanceRoutes.FreshCheckIn(r.value, old(table.nextId), who.value.id, today, now)
                      && table.records == old(table.records)[(who.value.id, today) := r.value]
                      && table.nextId == old(table.nextId) + 1))
  {
    var who := Dependencies.GetCurrentStudent(header, cookie, decode, registry.students);
    if who.Err? {
      return Err(Unauthorized(who.error));
    }
    var student := who.value;
    assert student.id in registry.students;
    var out := table.CheckIn(student, today, now);
    if out.Err? {
      return Err(Refused(out.error));
    }
    r := Ok(out.value);
  }

  /**
   * `POST /attendance/check-out` as a whole request: `get_current_student`,
   * then `check_out` for that student.
   */
  method CheckOutRequest(registry: Registry, table: AttendanceRoutes.AttendanceTable,
                         header: Option<string>, cookie: Option<string>,
                         decode: string -> Option<Dependencies.TokenData>, today: Date, now: Timestamp)
    returns (r: Result<Attendance, RequestError>)
    requires Consistent(registry, table)
    modifies table
    ensures Consistent(registry, table)
    ensures table.nextId == old(table.nextId)
    ensures var who := Dependencies.GetCurrentStudent(header, cookie, decode, registry.students);
            && (who.Err? ==> r == Err(Unauthorized(who.error)) && table.records == old(table.records))
            && (who.Ok? ==>
                 && (r.Ok? <==> old(AttendanceRoutes.StatusOf(table.records, who.value.id, today)) == AttendanceRoutes.CheckedIn)
                 && (old(AttendanceRoutes.StatusOf(table.records, who.value.id, today)) == AttendanceRoutes.NotStarted ==>
                      r == Err(Refused(AttendanceRoutes.NotCheckedIn)))
                 && (old(AttendanceRoutes.StatusOf(table.records, who.value.id, today)) == AttendanceRoutes.CheckedOut ==>
                      r == Err(Refused(AttendanceRoutes.AlreadyCheckedOut)))
                 && (r.Err? ==> table.records == old(table.records))
                 && (r.Ok? ==>
                      && r.value == old(table.records)[(who.value.id, today)].(checkOutTime := Some(now))
                      && table.records == old(table.records)[(who.value.id, today) := r.value]))
  {
    var who := Dependencies.GetCurrentStudent(header, cookie, decode, registry.students);
    if who.Err? {
      return Err(Unauthorized(who.error));
    }
    var out := table.CheckOut(who.value, today, now);
    if out.Err? {
      return Err(Refused(out.error));
    }
    r := Ok(out.value);
  }
}
