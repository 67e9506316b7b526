/** The attendance ledger: the rows of the attendance table, the find-then-update-or-insert
    protocol both screens use to mark a student, the per-day view, and the status shown
    for a student. */
module Ledger {
  import opened Seqs

  /** A row of the attendance table. */
  datatype AttendanceRecord = AttendanceRecord(id: int, student_id: int, date: string, status: string)

  /** The status shown for a student that has no record for the day. */
  const Pending := "pending"

  predicate IsFor(studentId: int, date: string, r: AttendanceRecord) {
    r.student_id == studentId && r.date == date
  }

  /** The rows for one (student, date) pair, in table order. */
  function Matching(ledger: seq<AttendanceRecord>, studentId: int, date: string): seq<AttendanceRecord> {
    Filter(ledger, (r: AttendanceRecord) => IsFor(studentId, date, r))
  }

  function Count(ledger: seq<AttendanceRecord>, studentId: int, date: string): nat {
    |Matching(ledger, studentId, date)|
  }

  /** At most one row per (student, date) pair. */
  predicate OnePerKey(ledger: seq<AttendanceRecord>) {
    forall i, j | 0 <= i < j < |ledger| ::
      !(ledger[i].student_id == ledger[j].student_id && ledger[i].date == ledger[j].date)
  }

  /** Row ids are distinct (the table's primary key). */
  predicate IdsUnique(ledger: seq<AttendanceRecord>) {
    forall i, j | 0 <= i < j < |ledger| :: ledger[i].id != ledger[j].id
  }

  /** Every row id is below the next id the table will hand out. */
  predicate IdsBelow(ledger: seq<AttendanceRecord>, bound: int) {
    forall i | 0 <= i < |ledger| :: ledger[i].id < bound
  }

  /** Exactly one row matches the pair, and it is `ledger[i]`. */
  predicate OnlyMatchAt(ledger: seq<AttendanceRecord>, studentId: int, date: string, i: nat) {
    i < |ledger| && IsFor(studentId, date, ledger[i])
    && forall j | 0 <= j < |ledger| && j != i :: !IsFor(studentId, date, ledger[j])
  }

  /** Selecting the id of the row for (student, date) and asking for a single result:
      the store answers with data only when exactly one row matches, and with an error
      (which the screens drop) when none or several do. */
  function Lookup(ledger: seq<AttendanceRecord>, studentId: int, date: string): (r: Option<int>)
    ensures r.Some? <==> exists i: nat :: OnlyMatchAt(ledger, studentId, date, i)
    ensures forall i: nat :: OnlyMatchAt(ledger, studentId, date, i) ==> r == Some(ledger[i].id)
  {
    var m := Matching(ledger, studentId, date);
    forall i: nat | OnlyMatchAt(ledger, studentId, date, i)
      ensures m == [ledger[i]]
    {
      OnlyMatchIsMatching(ledger, studentId, date, i);
    }
    if |m| == 1 then
      assert m[0] in ledger;
      var k :| 0 <= k < |ledger| && ledger[k] == m[0];
      forall j | 0 <= j < |ledger| && j != k
        ensures !IsFor(studentId, date, ledger[j])
      {
        if IsFor(studentId, date, ledger[j]) {
          CountWithTwo(ledger, studentId, date, k, j);
        }
      }
      assert OnlyMatchAt(ledger, studentId, date, k);
      Some(m[0].id)
    else
      None
  }

  lemma MatchingConcat(a: seq<AttendanceRecord>, b: seq<AttendanceRecord>, studentId: int, date: string)
    ensures Matching(a + b, studentId, date) == Matching(a, studentId, date) + Matching(b, studentId, date)
  {
    FilterConcat(a, b, (r: AttendanceRecord) => IsFor(studentId, date, r));
  }

  lemma {:induction false} NoneMatching(ledger: seq<AttendanceRecord>, studentId: int, date: string)
    requires forall j | 0 <= j < |ledger| :: !IsFor(studentId, date, ledger[j])
    ensures Matching(ledger, studentId, date) == []
  {
    if ledger != [] {
      assert forall j | 0 <= j < |ledger[1..]| :: ledger[1..][j] == ledger[j + 1];
      NoneMatching(ledger[1..], studentId, date);
    }
  }

  lemma CountPositive(ledger: seq<AttendanceRecord>, studentId: int, date: string, i: nat)
    requires i < |ledger| && IsFor(studentId, date, ledger[i])
    ensures Count(ledger, studentId, date) >= 1
  {
    assert ledger[i] in Matching(ledger, studentId, date);
  }

  /** Two matching rows at different positions make the count at least two. */
  lemma CountWithTwo(ledger: seq<AttendanceRecord>, studentId: int, date: string, i: nat, j: nat)
    requires i < |ledger| && j < |ledger| && i != j
    requires IsFor(studentId, date, ledger[i]) && IsFor(studentId, date, ledger[j])
    ensures Count(ledger, studentId, date) >= 2
  {
    var lo, hi := if i < j then i else j, if i < j then j else i;
    var a, b := ledger[..hi], ledger[hi..];
    assert ledger == a + b;
    MatchingConcat(a, b, studentId, date);
    assert a[lo] == ledger[lo];
    CountPositive(a, studentId, date, lo);
    assert b[0] == ledger[hi];
    CountPositive(b, studentId, date, 0);
  }

  /** A row that is the only match is the whole of `Matching`. */
  lemma OnlyMatchIsMatching(ledger: seq<AttendanceRecord>, studentId: int, date: string, i: nat)
    requires OnlyMatchAt(ledger, studentId, date, i)
    ensures Matching(ledger, studentId, date) == [ledger[i]]
  {
    var a, x, b := ledger[..i], ledger[i], ledger[i + 1..];
    assert ledger == a + [x] + b;
    MatchingConcat(a + [x], b, studentId, date);
    MatchingConcat(a, [x], studentId, date);
    assert forall j | 0 <= j < |a| :: a[j] == ledger[j];
    NoneMatching(a, studentId, date);
    assert forall j | 0 <= j < |b| :: b[j] == ledger[i + 1 + j];
    NoneMatching(b, studentId, date);
    assert Matching([x], studentId, date) == [x];
  }

  /** Updating the status of every row whose id is `id`. */
  function SetStatusWhere(ledger: seq<AttendanceRecord>, id: int, status: string): (r: seq<AttendanceRecord>)
    ensures |r| == |ledger|
    ensures forall i | 0 <= i < |r| :: r[i] == if ledger[i].id == id then ledger[i].(status := status) else ledger[i]
  {
    if ledger == [] then []
    else [if ledger[0].id == id then ledger[0].(status := status) else ledger[0]] + SetStatusWhere(ledger[1..], id, status)
  }

  /** The table after a mark whose write succeeded: the single matching row, if there is
      one, takes the new status; otherwise a new row with id `newId` is appended. */
  function Written(ledger: seq<AttendanceRecord>, studentId: int, date: string, status: string, newId: int): seq<AttendanceRecord> {
    match Lookup(ledger, studentId, date)
    case Some(id) => SetStatusWhere(ledger, id, status)
    case None => ledger + [AttendanceRecord(newId, studentId, date, status)]
  }

  /** Fetching a day: the rows with that date, in table order. */
  function DayRecords(ledger: seq<AttendanceRecord>, date: string): (r: seq<AttendanceRecord>)
    ensures forall x :: x in r <==> x in ledger && x.date == date
    ensures forall x :: multiset(r)[x] == if x.date == date then multiset(ledger)[x] else 0
    ensures IsSubsequence(r, ledger)
  {
    FilterMultiset(ledger, (x: AttendanceRecord) => x.date == date);
    Filter(ledger, (x: AttendanceRecord) => x.date == date)
  }

  /** `view[i]` is the first row of the view that belongs to the student. */
  predicate FirstRecordAt(view: seq<AttendanceRecord>, studentId: int, i: nat) {
    i < |view| && view[i].student_id == studentId
    && forall j | 0 <= j < i :: view[j].student_id != studentId
  }

  /** The status shown for a student: that of the first row of the view that belongs to
      them, or "pending" when there is none. */
  function AttendanceStatus(view: seq<AttendanceRecord>, studentId: int): (r: string)
    ensures (forall i | 0 <= i < |view| :: view[i].student_id != studentId) ==> r == Pending
    ensures forall i: nat :: FirstRecordAt(view, studentId, i) ==> r == view[i].status
  {
    match FindIndex(view, (x: AttendanceRecord) => x.student_id == studentId)
    case None => Pending
    case Some(k) =>
      assert forall i: nat :: FirstRecordAt(view, studentId, i) ==> i == k;
      view[k].status
  }

  // ---------------------------------------------------------------------------------
  // Properties of a single mark

  /** With exactly one matching row, a mark changes that row's status and nothing else:
      same length, same ids, same students and dates, every other row untouched. */
  lemma MarkUpdatesOnlyStatus(ledger: seq<AttendanceRecord>, studentId: int, date: string, status: string, newId: int)
    requires IdsUnique(ledger)
    requires Count(ledger, studentId, date) == 1
    ensures var after := Written(ledger, studentId, date, status, newId);
            |after| == |ledger|
            && forall i | 0 <= i < |ledger| ::
                 after[i] == if IsFor(studentId, date, ledger[i]) then ledger[i].(status := status) else ledger[i]
  {
    var m := Matching(ledger, studentId, date);
    assert m[0] in ledger;
    var k :| 0 <= k < |ledger| && ledger[k] == m[0];
    forall j | 0 <= j < |ledger| && j != k
      ensures !IsFor(studentId, date, ledger[j])
    {
      if IsFor(studentId, date, ledger[j]) {
        CountWithTwo(ledger, studentId, date, k, j);
      }
    }
    assert OnlyMatchAt(ledger, studentId, date, k);
    assert Lookup(ledger, studentId, date) == Some(ledger[k].id);
  }

  /** With no matching row, or with several (the single-row lookup then fails), a mark
      appends one new row and leaves the existing rows as they were. */
  lemma MarkAppends(ledger: seq<AttendanceRecord>, studentId: int, date: string, status: string, newId: int)
    requires Count(ledger, studentId, date) != 1
    ensures Written(ledger, studentId, date, status, newId)
         == ledger + [AttendanceRecord(newId, studentId, date, status)]
  {
  }

  /** The count of a pair over a concatenation. */
  lemma CountConcat(a: seq<AttendanceRecord>, b: seq<AttendanceRecord>, studentId: int, date: string)
    ensures Count(a + b, studentId, date) == Count(a, studentId, date) + Count(b, studentId, date)
  {
    FilterConcat(a, b, (r: AttendanceRecord) => IsFor(studentId, date, r));
  }

  /** Changing statuses changes no pair's count. */
  lemma {:induction false} CountIgnoresStatus(ledger: seq<AttendanceRecord>, id: int, status: string, studentId: int, date: string)
    ensures Count(SetStatusWhere(ledger, id, status), studentId, date) == Count(ledger, studentId, date)
  {
    if ledger != [] {
      var after := SetStatusWhere(ledger, id, status);
      assert after[1..] == SetStatusWhere(ledger[1..], id, status);
      CountIgnoresStatus(ledger[1..], id, status, studentId, date);
    }
  }

  /** The update branch of `MarkLeavesOneRecord`. */
  lemma MarkOnOneRecord(ledger: seq<AttendanceRecord>, studentId: int, date: string, status: string, newId: int)
    requires IdsUnique(ledger)
    requires Count(ledger, studentId, date) == 1
    ensures var after := Written(ledger, studentId, date, status, newId);
            Count(after, studentId, date) == 1
            && Matching(after, studentId, date)[0].status == status
  {
    var after := Written(ledger, studentId, date, status, newId);
    MarkUpdatesOnlyStatus(ledger, studentId, date, status, newId);
    var id := Lookup(ledger, studentId, date).value;
    assert after == SetStatusWhere(ledger, id, status);
    CountIgnoresStatus(ledger, id, status, studentId, date);
    var m := Matching(after, studentId, date);
    assert m[0] in after;
    var i :| 0 <= i < |after| && after[i] == m[0];
    assert IsFor(studentId, date, ledger[i]);
  }

  /** The insert branch of `MarkLeavesOneRecord`. */
  lemma MarkOnNoRecord(ledger: seq<AttendanceRecord>, studentId: int, date: string, status: string, newId: int)
    requires Count(ledger, studentId, date) == 0
    ensures var after := Written(ledger, studentId, date, status, newId);
            Count(after, studentId, date) == 1
            && Matching(after, studentId, date)[0].status == status
  {
    var added := AttendanceRecord(newId, studentId, date, status);
    MarkAppends(ledger, studentId, date, status, newId);
    MatchingConcat(ledger, [added], studentId, date);
    assert Matching([added], studentId, date) == [added];
    assert Matching(ledger + [added], studentId, date) == [added];
  }

  /** The central claim: if the pair had at most one row before a successful mark, it has
      exactly one afterwards, with the requested status. */
  lemma MarkLeavesOneRecord(ledger: seq<AttendanceRecord>, studentId: int, date: string, status: string, newId: int)
    requires IdsUnique(ledger)
    requires Count(ledger, studentId, date) <= 1
    ensures var after := Written(ledger, studentId, date, status, newId);
            Count(after, studentId, date) == 1
            && Matching(after, studentId, date)[0].status == status
  {
    if Count(ledger, studentId, date) == 1 {
      MarkOnOneRecord(ledger, studentId, date, status, newId);
    } else {
      MarkOnNoRecord(ledger, studentId, date, status, newId);
    }
  }

  /** A mark of one pair leaves the row count of every other pair as it was. */
  lemma MarkLeavesOtherPairs(ledger: seq<AttendanceRecord>, studentId: int, date: string, status: string, newId: int)
    ensures var after := Written(ledger, studentId, date, status, newId);
            forall s, d | s != studentId || d != date :: Count(after, s, d) == Count(ledger, s, d)
  {
    var after := Written(ledger, studentId, date, status, newId);
    match Lookup(ledger, studentId, date)
    case Some(id) =>
      forall s, d ensures Count(after, s, d) == Count(ledger, s, d) {
        CountIgnoresStatus(ledger, id, status, s, d);
      }
    case None =>
      var added := AttendanceRecord(newId, studentId, date, status);
      forall s, d | s != studentId || d != date ensures Count(after, s, d) == Count(ledger, s, d) {
        CountConcat(ledger, [added], s, d);
      }
  }

  /** One row per pair is exactly "every pair counts at most one". */
  lemma {:induction false} OnePerKeyBoundsCount(ledger: seq<AttendanceRecord>, studentId: int, date: string)
    requires OnePerKey(ledger)
    ensures Count(ledger, studentId, date) <= 1
  {
    if ledger != [] {
      OnePerKeyBoundsCount(ledger[1..], studentId, date);
      if IsFor(studentId, date, ledger[0]) {
        assert forall j | 0 <= j < |ledger[1..]| :: ledger[1..][j] == ledger[j + 1];
        NoneMatching(ledger[1..], studentId, date);
      }
    }
  }

  /** Invariant I1 across one call: a table with one row per pair keeps that shape after
      a successful mark. */
  lemma MarkKeepsOnePerKey(ledger: seq<AttendanceRecord>, studentId: int, date: string, status: string, newId: int)
    requires IdsUnique(ledger)
    requires OnePerKey(ledger)
    ensures OnePerKey(Written(ledger, studentId, date, status, newId))
  {
    OnePerKeyBoundsCount(ledger, studentId, date);
    if Count(ledger, studentId, date) == 1 {
      MarkUpdatesOnlyStatus(ledger, studentId, date, status, newId);
    } else {
      MarkAppends(ledger, studentId, date, status, newId);
      forall i | 0 <= i < |ledger| ensures !IsFor(studentId, date, ledger[i]) {
        if IsFor(studentId, date, ledger[i]) {
          CountPositive(ledger, studentId, date, i);
        }
      }
    }
  }

  /** The invariant holds after a call only if it held before: a pair that already had
      several rows gets one more. */
  lemma MarkOnDuplicatesAddsAnother(ledger: seq<AttendanceRecord>, studentId: int, date: string, status: string, newId: int)
    requires Count(ledger, studentId, date) >= 2
    ensures Count(Written(ledger, studentId, date, status, newId), studentId, date)
         == Count(ledger, studentId, date) + 1
  {
    MarkAppends(ledger, studentId, date, status, newId);
    CountConcat(ledger, [AttendanceRecord(newId, studentId, date, status)], studentId, date);
  }

  /** A successful mark keeps row ids distinct and below the next id. */
  lemma MarkKeepsIds(ledger: seq<AttendanceRecord>, studentId: int, date: string, status: string, newId: int)
    requires IdsUnique(ledger) && IdsBelow(ledger, newId)
    ensures var after := Written(ledger, studentId, date, status, newId);
            IdsUnique(after)
            && IdsBelow(after, if Lookup(ledger, studentId, date).None? then newId + 1 else newId)
  {
  }

  /** Repeating the same mark changes nothing: the row keeps its id and no second row
      appears. */
  lemma MarkIdempotent(ledger: seq<AttendanceRecord>, studentId: int, date: string, status: string, newId: int, nextId: int)
    requires IdsUnique(ledger) && IdsBelow(ledger, newId)
    requires Count(ledger, studentId, date) <= 1
    ensures var once := Written(ledger, studentId, date, status, newId);
            Written(once, studentId, date, status, nextId) == once
  {
    var once := Written(ledger, studentId, date, status, newId);
    MarkLeavesOneRecord(ledger, studentId, date, status, newId);
    MarkKeepsIds(ledger, studentId, date, status, newId);
    MarkUpdatesOnlyStatus(once, studentId, date, status, nextId);
    var twice := Written(once, studentId, date, status, nextId);
    forall i | 0 <= i < |once| ensures twice[i] == once[i] {
      if IsFor(studentId, date, once[i]) {
        OnlyMatchIsMatching(once, studentId, date, i) by {
          forall j | 0 <= j < |once| && j != i ensures !IsFor(studentId, date, once[j]) {
            if IsFor(studentId, date, once[j]) {
              CountWithTwo(once, studentId, date, i, j);
            }
          }
        }
      }
    }
  }

  /** Everything a successful mark guarantees, in one statement, for the screens. */
  lemma MarkGuarantees(ledger: seq<AttendanceRecord>, studentId: int, date: string, status: string, newId: int)
    requires IdsUnique(ledger) && IdsBelow(ledger, newId)
    ensures var after := Written(ledger, studentId, date, status, newId);
            IdsUnique(after)
            && IdsBelow(after, if Lookup(ledger, studentId, date).None? then newId + 1 else newId)
            && (OnePerKey(ledger) ==> OnePerKey(after))
            && (Count(ledger, studentId, date) <= 1 ==>
                  Count(after, studentId, date) == 1
                  && Matching(after, studentId, date)[0].status == status
                  && AttendanceStatus(DayRecords(after, date), studentId) == status)
  {
    MarkKeepsIds(ledger, studentId, date, status, newId);
    if OnePerKey(ledger) {
      MarkKeepsOnePerKey(ledger, studentId, date, status, newId);
    }
    if Count(ledger, studentId, date) <= 1 {
      MarkLeavesOneRecord(ledger, studentId, date, status, newId);
      StatusAfterMark(ledger, studentId, date, status, newId);
    }
  }

  // ---------------------------------------------------------------------------------
  // Sequences of marks

  /** The table after successful marks of one pair with each status in turn; the store
      hands out `nextId`, `nextId + 1`, ... to the inserts. */
  function MarkAll(ledger: seq<AttendanceRecord>, studentId: int, date: string, statuses: seq<string>, nextId: int): seq<AttendanceRecord>
    decreases |statuses|
  {
    if statuses == [] then ledger
    else MarkAll(Written(ledger, studentId, date, statuses[0], nextId), studentId, date, statuses[1..], nextId + 1)
  }

  /** One step of a series of marks: from at most one row for the pair, a successful mark
      keeps the id invariant for the next id and leaves one row holding the new status. */
  lemma MarkStep(ledger: seq<AttendanceRecord>, studentId: int, date: string, status: string, nextId: int)
    requires IdsUnique(ledger) && IdsBelow(ledger, nextId)
    requires Count(ledger, studentId, date) <= 1
    ensures var once := Written(ledger, studentId, date, status, nextId);
            IdsUnique(once) && IdsBelow(once, nextId + 1)
            && Count(once, studentId, date) == 1
            && Matching(once, studentId, date)[0].status == status
  {
    MarkLeavesOneRecord(ledger, studentId, date, status, nextId);
    MarkKeepsIds(ledger, studentId, date, status, nextId);
  }

  /** Any number of successful marks of one pair leave exactly one row for it, holding the
      last status. */
  lemma {:induction false} MarkSequence(ledger: seq<AttendanceRecord>, studentId: int, date: string, statuses: seq<string>, nextId: int)
    requires IdsUnique(ledger) && IdsBelow(ledger, nextId)
    requires Count(ledger, studentId, date) <= 1
    requires statuses != []
    ensures var after := MarkAll(ledger, studentId, date, statuses, nextId);
            Count(after, studentId, date) == 1
            && Matching(after, studentId, date)[0].status == statuses[|statuses| - 1]
    decreases |statuses|
  {
    var once := Written(ledger, studentId, date, statuses[0], nextId);
    MarkStep(ledger, studentId, date, statuses[0], nextId);
    assert MarkAll(ledger, studentId, date, statuses, nextId) == MarkAll(once, studentId, date, statuses[1..], nextId + 1);
    if |statuses| > 1 {
      MarkSequence(once, studentId, date, statuses[1..], nextId + 1);
      assert statuses[1..][|statuses[1..]| - 1] == statuses[|statuses| - 1];
    } else {
      assert MarkAll(once, studentId, date, statuses[1..], nextId + 1) == once;
    }
  }

  // ---------------------------------------------------------------------------------
  // The day view

  lemma StatusSkipsOtherStudent(x: AttendanceRecord, view: seq<AttendanceRecord>, studentId: int)
    requires x.student_id != studentId
    ensures AttendanceStatus([x] + view, studentId) == AttendanceStatus(view, studentId)
  {
    var v := [x] + view;
    match FindIndex(view, (y: AttendanceRecord) => y.student_id == studentId)
    case None =>
      assert forall i | 1 <= i < |v| :: v[i] == view[i - 1];
    case Some(k) =>
      assert FirstRecordAt(view, studentId, k);
      assert FirstRecordAt(v, studentId, k + 1);
  }

  /** The status shown from a fetched day is the status of the ledger's first row for the
      pair, or "pending" when the pair has no row. */
  lemma {:induction false} DayStatusAgrees(ledger: seq<AttendanceRecord>, date: string, studentId: int)
    ensures AttendanceStatus(DayRecords(ledger, date), studentId)
         == if Count(ledger, studentId, date) == 0 then Pending else Matching(ledger, studentId, date)[0].status
  {
    if ledger != [] {
      var x := ledger[0];
      DayStatusAgrees(ledger[1..], date, studentId);
      if x.date == date {
        assert DayRecords(ledger, date) == [x] + DayRecords(ledger[1..], date);
        if x.student_id == studentId {
          assert FirstRecordAt(DayRecords(ledger, date), studentId, 0);
        } else {
          StatusSkipsOtherStudent(x, DayRecords(ledger[1..], date), studentId);
        }
      }
    }
  }

  /** After a successful mark from a state with at most one row for the pair, the fetched
      day shows the requested status. */
  lemma StatusAfterMark(ledger: seq<AttendanceRecord>, studentId: int, date: string, status: string, newId: int)
    requires IdsUnique(ledger)
    requires Count(ledger, studentId, date) <= 1
    ensures AttendanceStatus(DayRecords(Written(ledger, studentId, date, status, newId), date), studentId) == status
  {
    MarkLeavesOneRecord(ledger, studentId, date, status, newId);
    DayStatusAgrees(Written(ledger, studentId, date, status, newId), date, studentId);
  }
}
