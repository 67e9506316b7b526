/** The roster: student rows, the search box, the active-only attendance sheet, the
    roll-number resolution behind quick check-in, and the edits the student form makes. */
module Roster {
  import opened Seqs
  import opened Text

  /** A row of the students table. */
  datatype Student = Student(id: int, name: string, roll_num: string, status: string, created_at: string)

  /** The fields the student form submits. */
  datatype StudentFields = StudentFields(name: string, roll_num: string, status: string)

  /** What the form holds after a reset: blank name and roll number, status "active". */
  const InitialForm := StudentFields("", "", "active")

  predicate IsActive(s: Student) {
    s.status == "active"
  }

  /** The search term occurs, ignoring case, in the student's name or roll number. */
  predicate SearchHit(term: string, s: Student) {
    Contains(ToLower(s.name), ToLower(term)) || Contains(ToLower(s.roll_num), ToLower(term))
  }

  /** The students table under the search box. */
  function FilteredStudents(students: seq<Student>, term: string): (r: seq<Student>)
    ensures IsSubsequence(r, students)
    ensures forall s :: s in r <==> s in students && SearchHit(term, s)
    ensures forall s :: multiset(r)[s] == if SearchHit(term, s) then multiset(students)[s] else 0
    ensures term == "" ==> r == students
  {
    FilterMultiset(students, (s: Student) => SearchHit(term, s));
    Filter(students, (s: Student) => SearchHit(term, s))
  }

  /** The rows of the attendance sheet: the active students, in roster order. */
  function ActiveStudents(students: seq<Student>): (r: seq<Student>)
    ensures IsSubsequence(r, students)
    ensures forall s :: s in r <==> s in students && IsActive(s)
    ensures forall s :: multiset(r)[s] == if IsActive(s) then multiset(students)[s] else 0
  {
    FilterMultiset(students, IsActive);
    Filter(students, IsActive)
  }

  /** The student's roll number equals the trimmed input, ignoring case. */
  predicate RollMatches(input: string, s: Student) {
    ToLower(s.roll_num) == ToLower(Trim(input))
  }

  /** `students[i]` is the first student, in roster order, whose roll number matches. */
  predicate FirstRollMatchAt(students: seq<Student>, input: string, i: nat) {
    i < |students| && RollMatches(input, students[i])
    && forall j | 0 <= j < i :: !RollMatches(input, students[j])
  }

  /** The lookup behind quick check-in: the first roster entry whose roll number matches. */
  function FindByRoll(students: seq<Student>, input: string): (r: Option<Student>)
    ensures r.None? <==> forall i | 0 <= i < |students| :: !RollMatches(input, students[i])
    ensures r.Some? ==> exists i: nat :: FirstRollMatchAt(students, input, i) && students[i] == r.value
  {
    match FindIndex(students, (s: Student) => RollMatches(input, s))
    case None => None
    case Some(k) =>
      assert FirstRollMatchAt(students, input, k);
      Some(students[k])
  }

  /** How quick check-in treats a typed roll number. */
  datatype RollCheck = Blank | NotFound | Inactive(student: Student) | Eligible(student: Student)

  /** The decision made before any write: blank input is ignored, an unknown roll number
      is reported, the first matching student is refused when inactive and marked otherwise. */
  function ResolveRoll(students: seq<Student>, input: string): RollCheck {
    if Trim(input) == "" then Blank
    else
      match FindByRoll(students, input)
      case None => NotFound
      case Some(s) => if s.status != "active" then Inactive(s) else Eligible(s)
  }

  /** What `ResolveRoll` decides, case by case: blank exactly when the input is all white
      space; not found exactly when no roll number matches; otherwise the first match in
      roster order, refused if inactive and eligible if active. */
  lemma ResolveRollCases(students: seq<Student>, input: string)
    ensures var r := ResolveRoll(students, input);
            (r.Blank? <==> forall k | 0 <= k < |input| :: IsJsSpace(input[k]))
            && (r.NotFound? <==> Trim(input) != "" && forall i | 0 <= i < |students| :: !RollMatches(input, students[i]))
            && (r.Inactive? ==> !IsActive(r.student))
            && (r.Eligible? ==> IsActive(r.student))
            && (r.Inactive? || r.Eligible? ==>
                  exists i: nat :: FirstRollMatchAt(students, input, i) && students[i] == r.student)
            && ((Trim(input) != "" && exists i: nat :: FirstRollMatchAt(students, input, i) && IsActive(students[i]))
                  ==> r.Eligible?)
  {
    TrimSpec(input);
    if Trim(input) != "" && FindByRoll(students, input).Some? {
      var s := FindByRoll(students, input).value;
      var i: nat :| FirstRollMatchAt(students, input, i) && students[i] == s;
      forall j: nat | FirstRollMatchAt(students, input, j) ensures j == i {
        // each of the two matches rules out the other coming first
        assert RollMatches(input, students[j]) && RollMatches(input, students[i]);
      }
    }
  }

  /** Saving the form while editing: every row with that id takes the submitted fields,
      keeping its id and creation time; every other row is left as it was. */
  function ApplyEdit(table: seq<Student>, id: int, values: StudentFields): (r: seq<Student>)
    ensures |r| == |table|
    ensures forall i | 0 <= i < |r| :: r[i].id == table[i].id && r[i].created_at == table[i].created_at
    ensures forall i | 0 <= i < |r| && table[i].id == id ::
              r[i].name == values.name && r[i].roll_num == values.roll_num && r[i].status == values.status
    ensures forall i | 0 <= i < |r| && table[i].id != id :: r[i] == table[i]
  {
    if table == [] then []
    else
      var first := if table[0].id == id
                   then table[0].(name := values.name, roll_num := values.roll_num, status := values.status)
                   else table[0];
      var rest := ApplyEdit(table[1..], id, values);
      assert forall i | 1 <= i <= |rest| :: ([first] + rest)[i] == rest[i - 1] && table[i] == table[1..][i - 1];
      [first] + rest
  }

  /** Saving the same values twice is the same as saving them once. */
  lemma {:induction false} ApplyEditIdempotent(table: seq<Student>, id: int, values: StudentFields)
    ensures ApplyEdit(ApplyEdit(table, id, values), id, values) == ApplyEdit(table, id, values)
  {
    if table != [] {
      ApplyEditIdempotent(table[1..], id, values);
    }
  }

  /** A new row built from the submitted fields. */
  function NewStudent(id: int, values: StudentFields, createdAt: string): Student {
    Student(id, values.name, values.roll_num, values.status, createdAt)
  }
}
