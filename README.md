# Attendance ledger

This project models the attendance-ledger core of a small React and Supabase school
attendance app. The app has two screens built on the same data:

- the dashboard (`src/pages/Dashboard.tsx`) marks attendance for today and also offers
  quick check-in by roll number;
- the single-page variant (`src/App.tsx`) marks attendance for a date chosen in a date
  picker.

Both keep a roster of students (the `studentsTable` table) and a ledger of attendance rows
(the `Attendence` table, one row per student, date and status). Marking a student selects
the row for that (student, date) pair and asks the store for a single result. When exactly
one row comes back, that row's status is updated. Otherwise a new row is inserted. After a
successful write the screen reloads the rows of the day.

The model is written as follows.

- `Seqs` holds an `Option` type plus `Filter` and `FindIndex`, the sequence forms of
  `Array.prototype.filter` and `findIndex`.
- `Text` holds the string operations the screens use: ASCII `toLowerCase`/`toUpperCase`,
  `trim` over the ECMAScript white-space set, `includes`, `split(' ')`/`join(' ')`, and the
  avatar initials.
- `Roster` holds student rows, the search filter, the active-only attendance sheet, the
  roll-number decision behind quick check-in, and the edit applied by the student form.
- `Ledger` holds attendance rows, the single-row lookup, the table after a successful mark
  (`Written`), the day view, the status shown for a student, and the proofs about marks.
- `Dashboard.AttendanceManager` and `AppScreen.AttendanceApp` are classes. Their fields are
  the two tables (with the ids the store hands out next) and the React state of each
  screen. Their methods are the handlers. A store write or fetch that may fail arrives as
  a boolean parameter, as do the clock readings the handlers use.

`GetAttendanceStatus` in both classes applies `Ledger.AttendanceStatus` to the loaded day
view. Its properties are stated on `Ledger.AttendanceStatus` and `Ledger.DayStatusAgrees`.

The single-row lookup succeeds only when exactly one row matches. If a pair already has
several rows (for example after two marks raced each other), every later mark of that pair
inserts yet another row, and `Ledger.MarkOnDuplicatesAddsAnother` states this. The
invariant "one row per (student, date)" is therefore preserved by marks
(`Ledger.MarkKeepsOnePerKey`), but a mark never restores it once it is broken.

## Model

| member | source | states |
|---|---|---|
| Text.ToLower | src/pages/Dashboard.tsx:183 | same length; every ASCII capital is lowered and every other character kept |
| Text.ToUpper | src/pages/Dashboard.tsx:207 | same length; every ASCII small letter is raised and every other character kept |
| Text.TrimSpec | src/pages/Dashboard.tsx:181 | the result is a contiguous part of the input with only white space around it; it neither starts nor ends with white space; it is empty exactly when the input is all white space |
| Text.Contains | src/pages/Dashboard.tsx:210-211 | true exactly when the needle occurs at some position of the text; the empty needle always occurs |
| Text.Split | src/pages/Dashboard.tsx:207 | at least one piece; no piece holds a space; joining the pieces with single spaces gives back the input |
| Text.HeadsOfSplit | src/pages/Dashboard.tsx:207 | taking the first character of every piece of the split, skipping empty pieces, gives exactly the characters that start a word (a non-space at the start or after a space) |
| Text.GetInitials | src/pages/Dashboard.tsx:207 | at most two characters; they are the first two word-start characters, upper-cased; no ASCII small letter remains; the empty name gives the empty string |
| Roster.FilteredStudents | src/pages/Dashboard.tsx:209-212 | an order-preserving subsequence of the roster; a student is kept exactly when the lower-cased search term occurs in their lower-cased name or roll number; kept students keep their multiplicity; the empty term keeps the whole roster |
| Roster.ActiveStudents | src/pages/Dashboard.tsx:433 | the attendance sheet is the order-preserving subsequence of exactly the students whose status is "active", with their multiplicities |
| Roster.FindByRoll | src/pages/Dashboard.tsx:183 | nothing exactly when no roll number matches the trimmed input ignoring case; otherwise the first matching student in roster order |
| Roster.ResolveRollCases | src/pages/Dashboard.tsx:181-189 | quick check-in ignores input that is all white space, reports not-found exactly when no roll number matches, refuses the first match when it is inactive, and marks it when it is active |
| Roster.ApplyEdit | src/pages/Dashboard.tsx:120 | the rows with the edited id take the submitted name, roll number and status and keep their id and creation time; every other row is unchanged; the length is kept |
| Roster.ApplyEditIdempotent | src/pages/Dashboard.tsx:120 | saving the same values twice gives the same table as saving them once |
| Ledger.Lookup | src/pages/Dashboard.tsx:155-160 | the lookup yields an id exactly when one row matches the pair, and then it is that row's id |
| Ledger.DayRecords | src/pages/Dashboard.tsx:86-96 | the fetched day is exactly the rows with that date, in table order, each as often as it is in the table |
| Ledger.AttendanceStatus | src/pages/Dashboard.tsx:202-205 | "pending" when no row of the view belongs to the student; otherwise the status of the first row that does |
| Ledger.DayStatusAgrees | src/pages/Dashboard.tsx:202-205 | the status shown from a fetched day is "pending" when the ledger has no row for the pair, and otherwise the status of its first row for the pair |
| Ledger.MarkUpdatesOnlyStatus | src/pages/Dashboard.tsx:163-165 | with exactly one matching row, a successful mark keeps the length and every row except the matching one, whose status alone becomes the requested one |
| Ledger.MarkAppends | src/pages/Dashboard.tsx:155-168 | with no matching row, or with several (the single-row lookup then fails), a successful mark appends one new row for the pair with the requested status and keeps the existing rows |
| Ledger.MarkLeavesOneRecord | src/pages/Dashboard.tsx:154-169 | from at most one row for the pair, a successful mark leaves exactly one row for it, holding the requested status |
| Ledger.MarkStep | src/pages/Dashboard.tsx:154-169 | from at most one row for the pair, one successful mark keeps ids distinct and below the advanced next id and leaves one row for the pair with the new status |
| Ledger.MarkLeavesOtherPairs | src/pages/Dashboard.tsx:154-169 | a mark leaves the number of rows of every other (student, date) pair unchanged |
| Ledger.OnePerKeyBoundsCount | src/pages/Dashboard.tsx:154-169 | in a ledger with one row per pair, every pair has at most one row |
| Ledger.MarkKeepsOnePerKey | src/pages/Dashboard.tsx:154-169 | a ledger with one row per pair still has one row per pair after a successful mark |
| Ledger.MarkOnDuplicatesAddsAnother | src/pages/Dashboard.tsx:155-168 | a pair that already has two or more rows gets one more row from every mark |
| Ledger.MarkKeepsIds | src/pages/Dashboard.tsx:163-168 | a successful mark keeps row ids distinct; they stay below the next id, which advances only when a row is inserted |
| Ledger.MarkIdempotent | src/pages/Dashboard.tsx:155-165 | from at most one row for the pair, repeating the same mark leaves the table exactly as the first mark left it |
| Ledger.MarkGuarantees | src/pages/Dashboard.tsx:154-172 | a successful mark keeps ids distinct and below the next id and keeps one row per pair; from at most one row for the pair it leaves exactly one, and the reloaded day then shows the requested status |
| Ledger.MarkSequence | src/pages/Dashboard.tsx:154-169 | any non-empty series of successful marks of one pair, starting from at most one row, leaves exactly one row for it holding the last status |
| Ledger.StatusAfterMark | src/pages/Dashboard.tsx:171-172 | after a successful mark from at most one row for the pair, the reloaded day shows the requested status for the student |
| Dashboard.AttendanceManager.constructor | src/pages/Dashboard.tsx:106-112 | mounting starts with empty state and loads the roster and today's rows, keeping empty lists for fetches that fail |
| Dashboard.AttendanceManager.FetchStudents | src/pages/Dashboard.tsx:74-84 | a successful fetch shows the students table; a failed one keeps the roster shown |
| Dashboard.AttendanceManager.FetchAttendance | src/pages/Dashboard.tsx:86-96 | a successful fetch shows exactly the rows of the date; a failed one keeps the view |
| Dashboard.AttendanceManager.MarkAttendance | src/pages/Dashboard.tsx:154-178 | returns whether the write succeeded; on success the table is `Written` for (student, today) and today's rows are reloaded; on failure table and view are unchanged; the id invariant is kept |
| Dashboard.AttendanceManager.HandleRollSubmit | src/pages/Dashboard.tsx:180-199 | follows `ResolveRoll`: blank, unknown and inactive roll numbers write nothing and keep the input; an eligible student is marked "present", and the input is cleared exactly when that write succeeded |
| Dashboard.AttendanceManager.HandleSubmit | src/pages/Dashboard.tsx:115-140 | a truthy `editingId` (set and non-zero) edits the rows with that id and is cleared only on success; otherwise a student stamped with the current time is inserted; form reset and roster reload happen only on success |
| Dashboard.AttendanceManager.StartEdit | src/pages/Dashboard.tsx:263-264 | the edit button remembers the row's id and loads its fields into the form |
| Dashboard.AttendanceManager.CancelEdit | src/pages/Dashboard.tsx:541 | cancel clears the edited id and resets the form |
| AppScreen.AttendanceApp.constructor | src/App.tsx:97-103 | mounting selects today and loads the roster and that day's rows |
| AppScreen.AttendanceApp.FetchStudents | src/App.tsx:72-82 | a successful fetch shows the students table; a failed one keeps the roster shown |
| AppScreen.AttendanceApp.FetchAttendance | src/App.tsx:84-94 | a successful fetch shows exactly the rows of the date; a failed one keeps the view |
| AppScreen.AttendanceApp.SetSelectedDate | src/App.tsx:472 | a cleared picker falls back to the current date; the effect on the date (lines 101-103) reloads the day exactly when the selected date changed |
| AppScreen.AttendanceApp.MarkAttendance | src/App.tsx:145-169 | on success the table is `Written` for (student, selected date) and that date's rows are reloaded; on failure table and view are unchanged; the id invariant is kept |
| AppScreen.AttendanceApp.HandleSubmit | src/App.tsx:106-131 | as on the dashboard, but an inserted student gets the store's own creation time |
| AppScreen.AttendanceApp.StartEdit | src/App.tsx:228-229 | the edit button remembers the row's id and loads its fields into the form |
| AppScreen.AttendanceApp.CancelEdit | src/App.tsx:412 | cancel clears the edited id and resets the form |

`src/App.tsx` repeats the dashboard's `getAttendanceStatus` (lines 172-175), `getInitials`
(line 177) and `filteredStudents` (lines 179-182) character for character. The same
members model both copies.

## Left out

- Login, logout and navigation are not modelled; they hold no ledger logic.
- The Supabase client and its transport are not modelled. Every write or fetch outcome is a
  boolean parameter, and a successful fetch returns the table as it stands.
- Toast messages and the `loading` flag are not modelled; they change no modelled state.
- Fetches are modelled as finishing before the handler returns. The source does not await
  them.
- Two marks in flight at once (the check-then-act race that can create duplicate rows) are
  not modelled; calls run one after another.
- The clock is not modelled. The dashboard's `today` is fixed when the object is built,
  so a session that crosses midnight is out of scope. Dates are opaque `YYYY-MM-DD` strings.
- The store orders the roster by `created_at` on the server. The model takes the order of
  the students table as given.
- New attendance rows get the next id; the store's own id allocation is not modelled.
- `handleDelete` is not modelled; it leaves orphan rows in the attendance table.
- The dropped lookup error is not modelled. A failed lookup falls through to an insert just
  as a missing row does; the model cannot tell the two apart.
- The statistics cards, columns, colours and pagination are JSX only and are not modelled.
- Text.ToLower: folds ASCII letters only, because full Unicode case mapping is out of
  scope. Non-ASCII letters are kept as they are.
- Text.ToUpper: raises ASCII letters only, for the same reason.
- Text.Split: works on Dafny characters. JavaScript strings are UTF-16 code units, so `n[0]`
  of a word that starts with a character outside the Basic Multilingual Plane differs.
- Dashboard.AttendanceManager.MarkAttendance: its contract ties the new table to
  `Ledger.Written`. The invariants of a mark are proved on `Written` by the `Ledger` lemmas
  and are not repeated in the method's `ensures`.
