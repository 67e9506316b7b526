/** The dashboard screen: roster management, the attendance sheet for today, and quick
    check-in by roll number. The two remote tables are fields of the object, next to the
    screen's own state; store outcomes that the screen cannot control (a write or a fetch
    failing) arrive as parameters. */
module Dashboard {
  import opened Seqs
  import opened Text
  import opened Roster
  import opened Ledger

  /** How JavaScript reads an optional numeric id in a condition: set and not zero. */
  predicate Truthy(id: Option<int>) {
    id.Some? && id.value != 0
  }

  class AttendanceManager {
    // The store: the students table, the attendance table, and the ids each hands out next.
    var studentsTable: seq<Student>
    var nextStudentId: int
    var attendanceTable: seq<AttendanceRecord>
    var nextRecordId: int

    // The screen's state.
    var students: seq<Student>
    var attendanceRecords: seq<AttendanceRecord>
    var editingId: Option<int>
    var form: StudentFields
    var searchTerm: string
    var rollInput: string

    /** The calendar date (YYYY-MM-DD) the screen marks attendance for. */
    const today: string

    /** The attendance table's ids are a primary key handed out in increasing order. */
    ghost predicate Valid()
      reads this`attendanceTable, this`nextRecordId
    {
      IdsUnique(attendanceTable) && IdsBelow(attendanceTable, nextRecordId)
    }

    /** Mounting the screen: empty state, then the two initial fetches. */
    constructor (today: string, studentsTable: seq<Student>, nextStudentId: int,
                 attendanceTable: seq<AttendanceRecord>, nextRecordId: int,
                 studentsOk: bool, attendanceOk: bool)
      requires IdsUnique(attendanceTable) && IdsBelow(attendanceTable, nextRecordId)
      ensures Valid()
      ensures this.today == today
      ensures this.studentsTable == studentsTable && this.nextStudentId == nextStudentId
      ensures this.attendanceTable == attendanceTable && this.nextRecordId == nextRecordId
      ensures students == (if studentsOk then studentsTable else [])
      ensures attendanceRecords == (if attendanceOk then DayRecords(attendanceTable, today) else [])
      ensures editingId == None && form == InitialForm && searchTerm == "" && rollInput == ""
    {
      this.today := today;
      this.studentsTable := studentsTable;
      this.nextStudentId := nextStudentId;
      this.attendanceTable := attendanceTable;
      this.nextRecordId := nextRecordId;
      students := if studentsOk then studentsTable else [];
      attendanceRecords := if attendanceOk then DayRecords(attendanceTable, today) else [];
      editingId := None;
      form := InitialForm;
      searchTerm := "";
      rollInput := "";
    }

    /** The status the sheet shows for a student. */
    function GetAttendanceStatus(studentId: int): string
      reads this`attendanceRecords
    {
      AttendanceStatus(attendanceRecords, studentId)
    }

    /** Reloading the roster; a failed fetch keeps what was shown. */
    method FetchStudents(ok: bool)
      modifies this`students
      ensures students == if ok then studentsTable else old(students)
    {
      if ok {
        students := studentsTable;
      }
    }

    /** Reloading one day of the attendance table; a failed fetch keeps what was shown. */
    method FetchAttendance(date: string, ok: bool)
      modifies this`attendanceRecords
      ensures attendanceRecords == if ok then DayRecords(attendanceTable, date) else old(attendanceRecords)
    {
      if ok {
        attendanceRecords := DayRecords(attendanceTable, date);
      }
    }

    /** Marking a student for today: look up the single row for (student, today); update
        its status if there is one, insert a new row otherwise; reload today's rows only
        when the write succeeded. Returns whether the write succeeded. */
    method MarkAttendance(studentId: int, status: string, writeOk: bool, fetchOk: bool) returns (success: bool)
      requires Valid()
      modifies this`attendanceTable, this`nextRecordId, this`attendanceRecords
      ensures Valid()
      ensures success == writeOk
      ensures attendanceTable == if writeOk then Written(old(attendanceTable), studentId, today, status, old(nextRecordId))
                                 else old(attendanceTable)
      ensures nextRecordId == if writeOk && Lookup(old(attendanceTable), studentId, today).None?
                              then old(nextRecordId) + 1 else old(nextRecordId)
      ensures attendanceRecords == if writeOk && fetchOk then DayRecords(attendanceTable, today)
                                   else old(attendanceRecords)
    {
      ghost var before := attendanceTable;
      MarkKeepsIds(before, studentId, today, status, nextRecordId);
      var existing := Lookup(attendanceTable, studentId, today);
      var error := !writeOk;
      if existing.Some? {
        if writeOk {
          attendanceTable := SetStatusWhere(attendanceTable, existing.value, status);
        }
      } else {
        if writeOk {
          attendanceTable := attendanceTable + [AttendanceRecord(nextRecordId, studentId, today, status)];
          nextRecordId := nextRecordId + 1;
        }
      }
      assert attendanceTable == if writeOk then Written(before, studentId, today, status, old(nextRecordId)) else before;
      if !error {
        FetchAttendance(today, fetchOk);
        success := true;
      } else {
        success := false;
      }
    }

    /** Quick check-in: ignore blank input; report an unknown roll number or an inactive
        student and write nothing; otherwise mark the first matching student present and
        clear the input if that write succeeded. The decision is `ResolveRoll`. */
    method HandleRollSubmit(writeOk: bool, fetchOk: bool) returns (ghost check: RollCheck)
      requires Valid()
      modifies this`attendanceTable, this`nextRecordId, this`attendanceRecords, this`rollInput
      ensures Valid()
      ensures check == ResolveRoll(students, old(rollInput))
      ensures check.Eligible? ==>
                attendanceTable == (if writeOk then Written(old(attendanceTable), check.student.id, today, "present", old(nextRecordId))
                                    else old(attendanceTable))
                && attendanceRecords == (if writeOk && fetchOk then DayRecords(attendanceTable, today)
                                         else old(attendanceRecords))
                && rollInput == (if writeOk then "" else old(rollInput))
      ensures !check.Eligible? ==>
                attendanceTable == old(attendanceTable) && nextRecordId == old(nextRecordId)
                && attendanceRecords == old(attendanceRecords) && rollInput == old(rollInput)
    {
      var decision := ResolveRoll(students, rollInput);
      check := decision;
      // blank input is ignored; an unknown or inactive roll number is reported and
      // nothing is written
      if decision.Eligible? {
        var success := MarkAttendance(decision.student.id, "present", writeOk, fetchOk);
        if success {
          rollInput := "";
        }
      }
    }

    /** Saving the student form: with a truthy `editingId` the rows with that id take the
        submitted fields, and `editingId` is cleared when that succeeds; otherwise a new
        student stamped with `now` is inserted. On success the form is reset and the roster
        reloaded; on failure both stay as they were. */
    method HandleSubmit(values: StudentFields, now: string, writeOk: bool, fetchOk: bool)
      modifies this`studentsTable, this`nextStudentId, this`editingId, this`form, this`students
      ensures Truthy(old(editingId)) ==>
                studentsTable == (if writeOk then ApplyEdit(old(studentsTable), old(editingId).value, values)
                                  else old(studentsTable))
                && nextStudentId == old(nextStudentId)
                && editingId == (if writeOk then None else old(editingId))
      ensures !Truthy(old(editingId)) ==>
                studentsTable == (if writeOk then old(studentsTable) + [NewStudent(old(nextStudentId), values, now)]
                                  else old(studentsTable))
                && nextStudentId == (if writeOk then old(nextStudentId) + 1 else old(nextStudentId))
                && editingId == old(editingId)
      ensures form == if writeOk then InitialForm else old(form)
      ensures students == if writeOk && fetchOk then studentsTable else old(students)
    {
      var error := !writeOk;
      if Truthy(editingId) {
        if writeOk {
          studentsTable := ApplyEdit(studentsTable, editingId.value, values);
          editingId := None;
        }
      } else {
        if writeOk {
          studentsTable := studentsTable + [NewStudent(nextStudentId, values, now)];
          nextStudentId := nextStudentId + 1;
        }
      }
      if !error {
        form := InitialForm;
        FetchStudents(fetchOk);
      }
    }

    /** The edit button of a roster row: remember its id and load its fields into the form. */
    method StartEdit(record: Student)
      modifies this`editingId, this`form
      ensures editingId == Some(record.id)
      ensures form == StudentFields(record.name, record.roll_num, record.status)
    {
      editingId := Some(record.id);
      form := StudentFields(record.name, record.roll_num, record.status);
    }

    /** The cancel button of the form. */
    method CancelEdit()
      modifies this`editingId, this`form
      ensures editingId == None && form == InitialForm
    {
      editingId := None;
      form := InitialForm;
    }
  }
}
