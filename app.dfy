/** The single-page variant of the attendance screen: the same roster and ledger, but
    marks go to a date the user picks, and changing that date reloads its rows. */
module AppScreen {
  import opened Seqs
  import opened Roster
  import opened Ledger
  import Dashboard

  class AttendanceApp {
    // The store: the students table, the attendance table, and the ids each hands out next.
    var studentsTable: seq<Student>
    var nextStudentId: int
    var attendanceTable: seq<AttendanceRecord>
    var nextRecordId: int

    // The screen's state.
    var students: seq<Student>
    var attendanceRecords: seq<AttendanceRecord>
    var editingId: Option<int>
    var form: StudentFields
    var searchTerm: string
    /** The calendar date (YYYY-MM-DD) shown by the sheet and used by every mark. */
    var selectedDate: string

    /** The attendance table's ids are a primary key handed out in increasing order. */
    ghost predicate Valid()
      reads this`attendanceTable, this`nextRecordId
    {
      IdsUnique(attendanceTable) && IdsBelow(attendanceTable, nextRecordId)
    }

    /** Mounting the screen: the date starts at today, then the roster and that day's
        rows are fetched. */
    constructor (today: string, studentsTable: seq<Student>, nextStudentId: int,
                 attendanceTable: seq<AttendanceRecord>, nextRecordId: int,
                 studentsOk: bool, attendanceOk: bool)
      requires IdsUnique(attendanceTable) && IdsBelow(attendanceTable, nextRecordId)
      ensures Valid()
      ensures selectedDate == today
      ensures this.studentsTable == studentsTable && this.nextStudentId == nextStudentId
      ensures this.attendanceTable == attendanceTable && this.nextRecordId == nextRecordId
      ensures students == (if studentsOk then studentsTable else [])
      ensures attendanceRecords == (if attendanceOk then DayRecords(attendanceTable, today) else [])
      ensures editingId == None && form == InitialForm && searchTerm == ""
    {
      selectedDate := today;
      this.studentsTable := studentsTable;
      this.nextStudentId := nextStudentId;
      this.attendanceTable := attendanceTable;
      this.nextRecordId := nextRecordId;
      students := if studentsOk then studentsTable else [];
      attendanceRecords := if attendanceOk then DayRecords(attendanceTable, today) else [];
      editingId := None;
      form := InitialForm;
      searchTerm := "";
    }

    /** The status the sheet shows for a student on the selected date. */
    function GetAttendanceStatus(studentId: int): string
      reads this`attendanceRecords
    {
      AttendanceStatus(attendanceRecords, studentId)
    }

    /** Reloading the roster; a failed fetch keeps what was shown. */
    method FetchStudents(ok: bool)
      modifies this`students
      ensures students == if ok then studentsTable else old(students)
    {
      if ok {
        students := studentsTable;
      }
    }

    /** Reloading one day of the attendance table; a failed fetch keeps what was shown. */
    method FetchAttendance(date: string, ok: bool)
      modifies this`attendanceRecords
      ensures attendanceRecords == if ok then DayRecords(attendanceTable, date) else old(attendanceRecords)
    {
      if ok {
        attendanceRecords := DayRecords(attendanceTable, date);
      }
    }

    /** The date picker: a cleared picker falls back to the current date `now`; when the
        selected date actually changes, that date's rows are fetched. */
    method SetSelectedDate(picked: Option<string>, now: string, fetchOk: bool)
      modifies this`selectedDate, this`attendanceRecords
      ensures selectedDate == (if picked.Some? then picked.value else now)
      ensures attendanceRecords == (if selectedDate != old(selectedDate) && fetchOk
                                    then DayRecords(attendanceTable, selectedDate)
                                    else old(attendanceRecords))
    {
      var previous := selectedDate;
      selectedDate := picked.GetOr(now);
      if selectedDate != previous {
        FetchAttendance(selectedDate, fetchOk);
      }
    }

    /** Marking a student on the selected date: look up the single row for (student,
        date); update its status if there is one, insert a new row otherwise; reload the
        date's rows only when the write succeeded. */
    method MarkAttendance(studentId: int, status: string, writeOk: bool, fetchOk: bool)
      requires Valid()
      modifies this`attendanceTable, this`nextRecordId, this`attendanceRecords
      ensures Valid()
      ensures attendanceTable == if writeOk then Written(old(attendanceTable), studentId, selectedDate, status, old(nextRecordId))
                                 else old(attendanceTable)
      ensures nextRecordId == if writeOk && Lookup(old(attendanceTable), studentId, selectedDate).None?
                              then old(nextRecordId) + 1 else old(nextRecordId)
      ensures attendanceRecords == if writeOk && fetchOk then DayRecords(attendanceTable, selectedDate)
                                   else old(attendanceRecords)
    {
      ghost var before := attendanceTable;
      MarkKeepsIds(before, studentId, selectedDate, status, nextRecordId);
      var existing := Lookup(attendanceTable, studentId, selectedDate);
      var error := !writeOk;
      if existing.Some? {
        if writeOk {
          attendanceTable := SetStatusWhere(attendanceTable, existing.value, status);
        }
      } else {
        if writeOk {
          attendanceTable := attendanceTable + [AttendanceRecord(nextRecordId, studentId, selectedDate, status)];
          nextRecordId := nextRecordId + 1;
        }
      }
      assert attendanceTable == if writeOk then Written(before, studentId, selectedDate, status, old(nextRecordId)) else before;
      if !error {
        FetchAttendance(selectedDate, fetchOk);
      }
    }

    /** Saving the student form: with a truthy `editingId` the rows with that id take the
        submitted fields, and `editingId` is cleared when that succeeds; otherwise a new
        student is inserted and the store stamps it with its own clock, `storeNow`. On
        success the form is reset and the roster reloaded; on failure both stay as they
        were. */
    method HandleSubmit(values: StudentFields, storeNow: string, writeOk: bool, fetchOk: bool)
      modifies this`studentsTable, this`nextStudentId, this`editingId, this`form, this`students
      ensures Dashboard.Truthy(old(editingId)) ==>
                studentsTable == (if writeOk then ApplyEdit(old(studentsTable), old(editingId).value, values)
                                  else old(studentsTable))
                && nextStudentId == old(nextStudentId)
                && editingId == (if writeOk then None else old(editingId))
      ensures !Dashboard.Truthy(old(editingId)) ==>
                studentsTable == (if writeOk then old(studentsTable) + [NewStudent(old(nextStudentId), values, storeNow)]
                                  else old(studentsTable))
                && nextStudentId == (if writeOk then old(nextStudentId) + 1 else old(nextStudentId))
                && editingId == old(editingId)
      ensures form == if writeOk then InitialForm else old(form)
      ensures students == if writeOk && fetchOk then studentsTable else old(students)
    {
      var error := !writeOk;
      if Dashboard.Truthy(editingId) {
        if writeOk {
          studentsTable := ApplyEdit(studentsTable, editingId.value, values);
          editingId := None;
        }
      } else {
        if writeOk {
          studentsTable := studentsTable + [NewStudent(nextStudentId, values, storeNow)];
          nextStudentId := nextStudentId + 1;
        }
      }
      if !error {
        form := InitialForm;
        FetchStudents(fetchOk);
      }
    }

    /** The edit button of a roster row: remember its id and load its fields into the form. */
    method StartEdit(record: Student)
      modifies this`editingId, this`form
      ensures editingId == Some(record.id)
      ensures form == StudentFields(record.name, record.roll_num, record.status)
    {
      editingId := Some(record.id);
      form := StudentFields(record.name, record.roll_num, record.status);
    }

    /** The cancel button of the form. */
    method CancelEdit()
      modifies this`editingId, this`form
      ensures editingId == None && form == InitialForm
    {
      editingId := None;
      form := InitialForm;
    }
  }
}
