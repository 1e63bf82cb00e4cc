# EduCenter screens in Dafny

This project models the computational core of EduCenter, a management app for a
private education centre in Vietnam. The app keeps students with a running balance
(negative means the student owes money), invoices and ledger transactions, classes
with schedules, teachers, announcements and attendance records. The model covers:

- **Tuition-fee notice.** It finds the invoice's student and reverses the invoice's
  debit to get the balance before the invoice. From that balance it derives the
  outstanding debt, the opening credit and the total due, clamped at zero. It
  builds the bank-transfer reference `<name>HP<MM><YY>`. It builds the VietQR image
  request, which is gated on the bank settings, the student and a positive total.
  The two name normalisers strip diacritics: one compacts the name, the other
  upper-cases it.
- **Dashboards.**
  - Monthly revenue: tuition receipts plus other income in the month, shown only to
    financial roles.
  - Total receivables.
  - The five students with the largest debts.
  - The five students with the most absences in the last 30 days, counted in a loop
    into a map.
  - Today's sessions, collected in nested loops and sorted by start time.
  - Teacher names.
  - A teacher's classes and the announcements relevant to them.
- **Debt report.**
  - The unpaid list, narrowed step by step by class, by search text and by debt.
  - The sort toggle and the in-place sort of a copy of the list.
  - The total debt, the rows chosen for printing and the CSV rows.
- **Attendance screen.**
  - Last-name ordering of a class's active students.
  - The "existing data" flag and the attended-session counts.
  - The status map: filled from saved records, changed one student at a time or
    all at once.
  - The records a save sends to the store.
- **Settings.** The order of the password-change checks, the toggle of collections
  to clear, the viewer-account flag as loaded and saved, and the restore-file
  shape check.

Files and modules:

| file | modules |
|---|---|
| `foundation.dfy` | `Optional`; `Seqs` (`filter`, `reduce`, `find`, `slice`, flat-map); `Sorting` (a stable sort as a function, an in-place sort on an array); `JsMap` (a JavaScript `Map` as an insertion-ordered entry list) |
| `unicode.dfy` | NFD decomposition, whitespace, and case mapping over the modelled alphabet |
| `text.dfy` | string comparison, `includes`, `split`/`join`, `trim`, `padStart`, decimal strings |
| `domain.dfy` | the store's records |
| `tuition_fee_notice.dfy` | `TuitionFeeNotice` |
| `dashboard.dfy` | `Dashboard` |
| `unpaid_students_report.dfy` | `UnpaidStudentsReport` |
| `attendance.dfy` | `Attendance` |
| `settings.dfy` | `Settings` |

How the model maps the source:

- Loops in the source that fill a `Map` or push into an array are methods with
  loop invariants. Each is proved equal to a specification function, and the
  properties are proved as lemmas about that function.
- In the debt report, `studentsToFilter` is reassigned step by step, and the sort
  runs in place on an `array`.
- A JavaScript `Map` is a sequence of entries in insertion order. `set` keeps the
  place of an existing key and appends a new one; `get` returns an `Option`.
- "Today", the 30-day cutoff date, the month key, `Date.now()` and the signed-in
  teacher's id are parameters.

## Model

| member | source | states |
|---|---|---|
| TuitionFeeNotice.StripDiacriticsIsPlain | components/finance/TuitionFeeNotice.tsx:14-17 | after NFD, mark removal and đ/Đ replacement, no character is a combining mark U+0300–U+036F or đ/Đ |
| TuitionFeeNotice.NormalizeInfoNameIsClean | components/finance/TuitionFeeNotice.tsx:12-19 | the compact name has no whitespace, no combining mark and no đ/Đ |
| TuitionFeeNotice.NormalizeAccountNameIsClean | components/finance/TuitionFeeNotice.tsx:22-29 | the account-holder name has no combining mark and no đ/Đ, and every character is upper case |
| TuitionFeeNotice.AccountNameKeepsWhitespace | components/finance/TuitionFeeNotice.tsx:12-29 | the two normalisers differ only in whitespace and case: with whitespace removed, the account form is the upper-cased compact form |
| TuitionFeeNotice.UpperCommutesWithRemoveWhitespace | components/finance/TuitionFeeNotice.tsx:18-28 | on plain text, upper-casing and whitespace removal commute |
| TuitionFeeNotice.StripDiacriticsOfPlain | components/finance/TuitionFeeNotice.tsx:14-17 | text that is already plain passes through diacritic stripping unchanged |
| TuitionFeeNotice.NfdOfDecomposed | components/finance/TuitionFeeNotice.tsx:14 | NFD leaves decomposed text unchanged |
| TuitionFeeNotice.NfdChars | components/finance/TuitionFeeNotice.tsx:14 | every character after NFD is a combining mark or has no further decomposition |
| TuitionFeeNotice.NormalizeInfoNameIdempotent | components/finance/TuitionFeeNotice.tsx:12-19 | applying the compact normaliser twice equals applying it once |
| TuitionFeeNotice.NormalizeAccountNameIdempotent | components/finance/TuitionFeeNotice.tsx:22-29 | applying the account normaliser twice equals applying it once |
| TuitionFeeNotice.NormalizeInfoNameConcat | components/finance/TuitionFeeNotice.tsx:12-19 | the compact normaliser distributes over concatenation |
| TuitionFeeNotice.NormalizeAccountNameConcat | components/finance/TuitionFeeNotice.tsx:22-29 | the account normaliser distributes over concatenation |
| TuitionFeeNotice.StripMarksOfDecomposition | components/finance/TuitionFeeNotice.tsx:15 | removing marks from one character's decomposition leaves its base character, or nothing when that is a mark |
| TuitionFeeNotice.InfoNameOfDecomposition | components/finance/TuitionFeeNotice.tsx:15-18 | the compact pipeline turns one decomposition into its base letter with đ/Đ read as d/D, or into nothing |
| TuitionFeeNotice.AccountNameOfDecomposition | components/finance/TuitionFeeNotice.tsx:25-28 | the account pipeline turns one decomposition into its upper-cased base letter, or into nothing |
| TuitionFeeNotice.NormalizeInfoNameOfChar | components/finance/TuitionFeeNotice.tsx:12-19 | the compact normaliser of one character is its per-character image |
| TuitionFeeNotice.NormalizeAccountNameOfChar | components/finance/TuitionFeeNotice.tsx:22-29 | the account normaliser of one character is its per-character image |
| TuitionFeeNotice.NormalizeInfoNameByChar | components/finance/TuitionFeeNotice.tsx:12-19 | the compact normaliser is the character-by-character map of its per-character image |
| TuitionFeeNotice.NormalizeAccountNameByChar | components/finance/TuitionFeeNotice.tsx:22-29 | the account normaliser is the character-by-character map of its per-character image |
| TuitionFeeNotice.BalanceBeforeInvoice | components/finance/TuitionFeeNotice.tsx:48-56 | the pre-invoice balance is the current balance minus the amount of the first INVOICE transaction linked to the invoice, or the current balance plus the invoice amount when no such transaction exists |
| TuitionFeeNotice.Figures | components/finance/TuitionFeeNotice.tsx:58-67 | debt and credit are both ≥ 0, at most one is nonzero, and debt − credit = −balanceBefore; the total due is max(0, debt + amount − credit) = max(0, amount − balanceBefore) |
| TuitionFeeNotice.TotalDueMonotone | components/finance/TuitionFeeNotice.tsx:58-67 | the total due grows with the invoice amount and shrinks as the prior balance rises |
| TuitionFeeNotice.FinancialData | components/finance/TuitionFeeNotice.tsx:35-69 | all zero when no student has the invoice's student id; otherwise, for the first student with that id, the debt, credit and total due are the figures of that student's pre-invoice balance and the invoice amount |
| TuitionFeeNotice.TotalDueIsCurrentDebt | components/finance/TuitionFeeNotice.tsx:52-67 | when the invoice's debit equals its amount, the total due is the student's current debt |
| TuitionFeeNotice.TransferReferenceOfMonthKey | components/finance/TuitionFeeNotice.tsx:77-78 | for a month `YYYY-MM` the reference is the compact name, then `HP`, the month and the last two characters of the year |
| TuitionFeeNotice.TransferReferenceExample | components/finance/TuitionFeeNotice.tsx:171 | the March 2024 invoice carries the reference `<name>HP0324` |
| TuitionFeeNotice.QrCode | components/finance/TuitionFeeNotice.tsx:71-91 | no request exactly when the account number or BIN is empty, the student is missing or the total ≤ 0; otherwise the VietQR path from BIN and account, the amount as a decimal string of the total, the reference as `addInfo`, and `accountName` only when a holder is set |
| TuitionFeeNotice.RenderNotice | components/finance/TuitionFeeNotice.tsx:94-174 | the placeholder exactly when the student is missing; otherwise the notice shows the figures, the transfer reference of the found student's name and the invoice month, and the QR request built for that student and total, whose description is the displayed reference |
| TuitionFeeNotice.NoStudentNoQr | components/finance/TuitionFeeNotice.tsx:71-74 | without a matching student there is no QR request |
| Dashboard.MonthKeyParts | screens/DashboardScreen.tsx:170-172 | the month key splits at '-' into the year and a two-digit month whose value is the month |
| Dashboard.MonthlyRevenue | screens/DashboardScreen.tsx:166-167 | 0 for roles other than admin, manager and accountant |
| Dashboard.TuitionCollectedNonNegative | screens/DashboardScreen.tsx:174-181 | the tuition part of revenue is never negative |
| Dashboard.RevenueWithTransaction | screens/DashboardScreen.tsx:174-181 | adding a transaction raises revenue by its amount exactly when it is a payment or credit adjustment in the month, not a cancellation, with amount > 0 |
| Dashboard.RevenueWithIncome | screens/DashboardScreen.tsx:183-187 | adding an income entry raises revenue by its amount exactly when it is dated in the month |
| Dashboard.CancelledInvoiceNotRevenue | screens/DashboardScreen.tsx:178 | a transaction whose lower-cased description contains "hủy hóa đơn" never changes revenue |
| Dashboard.TotalReceivables | screens/DashboardScreen.tsx:190-195 | receivables are ≤ 0, and 0 for non-financial roles |
| Dashboard.ReceivablesNegativeIffDebtor | screens/DashboardScreen.tsx:190-195 | for a financial role, receivables are negative exactly when some student has a negative balance |
| Dashboard.HighDebtProperties | screens/DashboardScreen.tsx:80-85 | at most 5 students, all debtors from the store, most negative balance first; all debtors when there are at most 5; any debtor left out owes no more than every listed one |
| Dashboard.ActiveIds | screens/DashboardScreen.tsx:116 | exactly the ids of ACTIVE students |
| Dashboard.AbsenceCountPositive | screens/DashboardScreen.tsx:118-121 | a student's absence count is positive exactly when some ABSENT record of that active student is dated on or after the cutoff |
| Dashboard.CountAbsences | screens/DashboardScreen.tsx:114-122 | the loop builds the map that counts, per student, the qualifying absence records, in order of first occurrence |
| Dashboard.NameById | screens/DashboardScreen.tsx:124 | the name of the last store entry with the id, or none when no student has it |
| Dashboard.AbsenceRows | screens/DashboardScreen.tsx:126-127 | one row per map entry, with the count and the looked-up name |
| Dashboard.HighAbsenceListProperties | screens/DashboardScreen.tsx:126-130 | at most 5 rows, sorted by count descending, each named with count > 0 and taken from the map; any shown row left out has no larger count than every listed one |
| Dashboard.HighAbsence | screens/DashboardScreen.tsx:114-130 | at most 5 entries, counts descending, each entry named, its count the student's absence count and > 0 |
| Dashboard.SessionsOnMembers | screens/DashboardScreen.tsx:35-42 | a session is collected exactly when its class is listed and its slot is in that class's schedule with today's day |
| Dashboard.SlotsOnLength | screens/DashboardScreen.tsx:37-41 | a class contributes one session per slot on today's day |
| Dashboard.StartsNoLaterIsTotalPreorder | screens/DashboardScreen.tsx:43 | the start-time comparator is a total preorder |
| Dashboard.SessionsToday | screens/DashboardScreen.tsx:34-44 | the nested loops produce a permutation of the day's sessions, sorted by start time |
| Dashboard.TeacherName | screens/DashboardScreen.tsx:48 | a teacher's name, or "N/A" for an unknown id |
| Dashboard.TeacherNameIsFirstMatch | screens/DashboardScreen.tsx:48 | the name shown for an id is that of the first teacher with the id, or "N/A" when that name is empty |
| Dashboard.TeacherNames | screens/DashboardScreen.tsx:46-49 | "N/A" for an empty list |
| Dashboard.TeacherNamesAppend | screens/DashboardScreen.tsx:48 | one more id appends ", " and that teacher's name |
| Dashboard.AssignedClasses | screens/DashboardScreen.tsx:246-251 | none without a teacher id; otherwise exactly the classes that list the teacher |
| Dashboard.AssignedClassesSorted | screens/DashboardScreen.tsx:250 | the teacher's classes are ordered by name |
| Dashboard.RelevantAnnouncements | screens/DashboardScreen.tsx:253-267 | the stable newest-first sort of the relevant announcements in store order, relevant meaning general, or of a class the signed-in teacher teaches: a permutation of that filter, each announcement kept exactly when relevant, newest first, and announcements with equal times in store order |
| UnpaidStudentsReport.UnpaidStudents | components/finance/UnpaidStudentsReport.tsx:36-61 | the step-by-step reassignment yields the unpaid list |
| UnpaidStudentsReport.UnpaidListMembers | components/finance/UnpaidStudentsReport.tsx:39-60 | the list is, in store order, the debtors that pass the class and search filters, each with the names of their classes |
| UnpaidStudentsReport.UnknownClassIsAll | components/finance/UnpaidStudentsReport.tsx:39-45 | a class id that matches no class gives the same list as "all" |
| UnpaidStudentsReport.TotalDebtProperties | components/finance/UnpaidStudentsReport.tsx:77-79 | the total debt is ≤ 0; without class or search filters it equals the dashboard's receivables |
| UnpaidStudentsReport.HandleSortProperties | components/finance/UnpaidStudentsReport.tsx:28-34 | the clicked key is set; descending exactly when that key was ascending; a second click flips the direction |
| UnpaidStudentsReport.RowBeforeIsTotalPreorder | components/finance/UnpaidStudentsReport.tsx:66-72 | the comparator for each key and direction is a total preorder |
| UnpaidStudentsReport.SortedUnpaidStudents | components/finance/UnpaidStudentsReport.tsx:63-75 | no sort order leaves the copy as it was; otherwise the copy is the stable sort of the list by the key in the chosen direction: sorted, and rows whose keys tie keep their list order; in both cases it is a permutation of the list |
| UnpaidStudentsReport.SelectedForPrintProperties | components/finance/UnpaidStudentsReport.tsx:115-117 | exactly the sorted rows whose id is selected, each selected row as often as in the table, and still sorted when the table is |
| UnpaidStudentsReport.SelectedForPrintInOrder | components/finance/UnpaidStudentsReport.tsx:115-117 | the selection follows the table's order: empty for no rows, the selection of a concatenation is the two selections in turn, and one more row is appended exactly when its id is selected |
| UnpaidStudentsReport.CsvRows | components/finance/UnpaidStudentsReport.tsx:106-111 | one row per table row, with name and classes, and the balance as a non-negative absolute value |
| UnpaidStudentsReport.CsvAmountsOwed | components/finance/UnpaidStudentsReport.tsx:110 | on the debtor list, each exported amount is the positive sum owed |
| Sorting.SortInPlace | components/finance/UnpaidStudentsReport.tsx:66-72 | the array ends as `SortBy` of its old contents: sorted by the comparator, a permutation of them, and the elements of each tie class in the order they had |
| Sorting.SortByProperties | components/finance/UnpaidStudentsReport.tsx:66-72 | for a total preorder, `SortBy` sorts, and keeps the elements tied with any one element in their input order (the stability `Array.prototype.sort` guarantees) |
| Attendance.LastNameProperties | screens/AttendanceScreen.tsx:32-36 | "" for an empty name; otherwise a whitespace-free suffix of the trimmed name that is all of it or follows whitespace, non-empty when the trimmed name is |
| Attendance.LastNameOfWords | screens/AttendanceScreen.tsx:32-36 | for "first last" the last name is "last" |
| Attendance.StudentOrderIsTotalPreorder | screens/AttendanceScreen.tsx:39-50 | by last name, then full name, is a total preorder |
| Attendance.ClassStudentsProperties | screens/AttendanceScreen.tsx:27-51 | none without the class; otherwise exactly the ACTIVE students the class lists, as a permutation of the filter, sorted by last name then full name |
| Attendance.HasExistingDataIff | screens/AttendanceScreen.tsx:53-55 | holds exactly when some record has this class and date |
| Attendance.SessionRecord | screens/AttendanceScreen.tsx:79-105 | the first record of the student in the class on the date, or none when there is none |
| Attendance.AttendanceCounts | screens/AttendanceScreen.tsx:57-73 | the loop builds the count map |
| Attendance.AttendanceCountsProperties | screens/AttendanceScreen.tsx:57-73 | empty without class or date; otherwise each class student's count is the number of their PRESENT or LATE records in the class dated on or before the date; no other key |
| Attendance.InitialData | screens/AttendanceScreen.tsx:76-83 | the loop builds the initial status map |
| Attendance.InitialDataProperties | screens/AttendanceScreen.tsx:76-83 | exactly the class students as keys, in class order, without repeats; each holds the status of the first saved record for the day, or PRESENT |
| Attendance.HandleStatusChangeProperties | screens/AttendanceScreen.tsx:85-88 | a viewer changes nothing; otherwise only the given student's entry changes, keys and their order are kept when present, and keys stay distinct |
| Attendance.HandleBulkChange | screens/AttendanceScreen.tsx:90-97 | a viewer changes nothing; otherwise the loop builds a fresh map over the class students |
| Attendance.BulkChangeProperties | screens/AttendanceScreen.tsx:92-95 | after a bulk change exactly the class students have entries, all with the chosen status, in class order |
| Attendance.RecordId | screens/AttendanceScreen.tsx:105-107 | the id of the first saved record of the session when it is non-empty, otherwise `A-<now>-<studentId>` |
| Attendance.HandleSubmit | screens/AttendanceScreen.tsx:99-114 | a viewer submits nothing; otherwise the loop over map entries builds the submitted records |
| Attendance.SubmittedRecordsProperties | screens/AttendanceScreen.tsx:103-113 | one record per entry not UNMARKED, in map order, each built from its entry |
| Attendance.SubmittedRecordsCover | screens/AttendanceScreen.tsx:103-113 | every record has this class, date and an entry's student and status (never UNMARKED) with the reused or fresh id; every marked entry is submitted |
| JsMap.GetSet | screens/AttendanceScreen.tsx:87 | `get` after `set` sees the new value under that key and the old one under every other key |
| JsMap.SetKeys | screens/AttendanceScreen.tsx:87 | `set` keeps the key order and appends a new key |
| JsMap.CountKeysGet | screens/DashboardScreen.tsx:120 | the counting map holds each key's number of occurrences, and nothing under a key that does not occur |
| JsMap.CountKeysOrder | screens/DashboardScreen.tsx:126 | the counting map lists keys in order of first occurrence |
| JsMap.FromKeysGet | screens/AttendanceScreen.tsx:63-70 | a map filled key by key holds f(k) under each key, and nothing under others |
| JsMap.FromKeysOrder | screens/AttendanceScreen.tsx:78-81 | such a map lists its keys in the order they were first set |
| Settings.ActualCurrentPassword | screens/SettingsScreen.tsx:35 | the stored password when it is non-empty, otherwise "123456" |
| Settings.PasswordSubmitProperties | screens/SettingsScreen.tsx:26-43 | a mismatch is rejected first, then a new password under 6 characters, then a wrong current password; the settings change exactly when all checks pass, and only in `adminPassword` |
| Settings.DefaultPasswordAccepted | screens/SettingsScreen.tsx:35-43 | with no stored password, "123456" is accepted as the current one |
| Settings.ChangedPasswordIsCurrent | screens/SettingsScreen.tsx:35-43 | after a change, only the new password passes the next change's current-password check |
| Settings.ToggleCollectionProperties | screens/SettingsScreen.tsx:225-231 | a toggle flips membership of the clicked collection only, appends it when absent, and keeps the list free of repeats |
| Settings.ToggleTwice | screens/SettingsScreen.tsx:225-231 | toggling twice restores membership, and restores the list itself when the collection was absent |
| Settings.LoadForm | screens/SettingsScreen.tsx:121-127 | the form's viewer flag is the stored one, or true when undefined; nothing else changes |
| Settings.SettingsToSave | screens/SettingsScreen.tsx:144-147 | the saved flag is a strict boolean, true only for a true flag; nothing else changes |
| Settings.LoadSaveRoundTrip | screens/SettingsScreen.tsx:122-146 | load then save stores false only for a stored false; a defined flag round-trips unchanged; a second round changes nothing |
| Settings.Member | screens/SettingsScreen.tsx:188 | a property read on parsed JSON gives the last member under that key, or nothing when absent or when the value is not an object |
| Settings.RestoreShape | screens/SettingsScreen.tsx:188 | only an object with a `students` member and a `settings` or `centerInfo` member is accepted |
| Settings.BackupIsRestorable | screens/SettingsScreen.tsx:188 | a file with a students array and a settings object is accepted, whatever other members it holds |

## Left out

- Unicode: NFD and the case mappings are written out only for the modelled alphabet (ASCII and the precomposed Vietnamese letters). Other characters count as having no decomposition and no case partner.
- String length and order: strings are sequences of code points, while JavaScript measures and compares UTF-16 code units. The two agree on the modelled alphabet, which lies in the Basic Multilingual Plane.
- Collation: `localeCompare(..., 'vi')` and `localeCompare` are modelled as code-point order, with ties only between equal strings. The two orders differ. Code-point order puts each of the plain upper-case letters A–Z before each of the plain lower-case letters a–z, so "Zoe" comes before "an". It also puts names that start with a precomposed letter such as Á, Đ or Ơ after names starting with Z, where Vietnamese collation places them next to A, D and O. This affects the orders of `Attendance.ClassStudents` and `Dashboard.AssignedClasses`. `Dashboard.SessionsToday` compares start times, on which the two orders agree as long as they are written `HH:MM` with digits.
- No concrete normaliser examples: the normalisers' properties are proved for all input strings, with no worked examples of particular names.
- `Math.round` and floating point: money is a whole number of đồng, so `Math.round(totalDue)` is the identity and `toString` is the decimal string.
- Encoding and formatting: the `URLSearchParams` percent-encoding of the QR query is not modelled; the query is an ordered list of pairs. `toLocaleString` amount formatting is left out.
- The clock: `new Date()`, `Date.now()`, `toISOString` and `getDay` become parameters (today's weekday, the 30-day cutoff date, the month, a fresh-id instant).
- Attendance.HandleSubmit: the model reads `Date.now()` once per save; the source reads it once per record, so ids in one save could differ by a millisecond there.
- Route parameters: `classId` and `date` of the attendance screen are strings, and an empty string stands for a missing parameter.
- UI and effects: rendering, React state setters, toasts, navigation and modals are left out; the screens' logic is modelled as functions of explicit inputs.
- Store calls: the async data-context calls (`updateSettings`, `updateAttendance`, `deleteAttendanceForDate`, `restoreData`, `clearCollections`, `resetToMockData`, `deleteAttendanceByMonth`) are outside the model.
- Backup and restore I/O: file reading, JSON parsing and serialisation and the download link are left out. The restore check works on an already-parsed `Json` value whose numbers are integers.
- Settings form edits: `handleChange`'s generic field update is left out; the viewer flag is modelled as the `Option<bool>` it loads and saves.
- Display-only dashboard values: `totalStudents`, `activeClasses`, `getActiveStudentCount` and `hasSessionToday` are left out.
- Missing class rosters: an absent `studentIds` is read as the empty list everywhere. `UnpaidStudentsReport.tsx` does the same (lines 42 and 59). `AttendanceScreen.tsx:38` calls `cls.studentIds.includes` without a default, so there a class without `studentIds` throws a `TypeError`; the model gives an empty class instead.
- Announcement times: `createdAt` is the whole number of milliseconds `new Date(createdAt).getTime()` yields (`DashboardScreen.tsx:257` and `:266`). An unparsable date gives `NaN` there, and a comparator returning `NaN` is not consistent, so the browser's order is then unspecified. The model has no such value.
- Teacher identity: `(user as Teacher)?.id` is modelled as a string, with "" for a user without an id.
- UnpaidStudentsReport.SortedUnpaidStudents: sort keys are limited to the two sortable columns, name and balance.
- Other files: `sw.js` (cache and fetch handling), `Card.tsx`, `ListItemCard.tsx` and `TuitionFeeNoticeModal.tsx` are presentation or browser I/O, with no logic to model.

## Definitions

Each source function is one Dafny definition; the lemmas in the table above state what it does.

| definition | source | stated by |
|---|---|---|
| TuitionFeeNotice.NormalizeInfoName | components/finance/TuitionFeeNotice.tsx:12-19 | NormalizeInfoNameIsClean, NormalizeInfoNameIdempotent, NormalizeInfoNameConcat, NormalizeInfoNameByChar |
| TuitionFeeNotice.NormalizeAccountName | components/finance/TuitionFeeNotice.tsx:22-29 | NormalizeAccountNameIsClean, NormalizeAccountNameIdempotent, NormalizeAccountNameConcat, NormalizeAccountNameByChar, AccountNameKeepsWhitespace |
| TuitionFeeNotice.TransferReference | components/finance/TuitionFeeNotice.tsx:77-78 | TransferReferenceOfMonthKey, TransferReferenceExample |
| Dashboard.MonthKey | screens/DashboardScreen.tsx:170-172 | MonthKeyParts |
| Dashboard.HighDebt | screens/DashboardScreen.tsx:80-85 | HighDebtProperties |
| UnpaidStudentsReport.UnpaidList | components/finance/UnpaidStudentsReport.tsx:39-60 | UnpaidStudents, UnpaidListMembers, UnknownClassIsAll |
| UnpaidStudentsReport.HandleSort | components/finance/UnpaidStudentsReport.tsx:28-34 | HandleSortProperties |
| UnpaidStudentsReport.SelectedForPrint | components/finance/UnpaidStudentsReport.tsx:115-117 | SelectedForPrintProperties, SelectedForPrintInOrder |
| Attendance.LastName | screens/AttendanceScreen.tsx:32-36 | LastNameProperties, LastNameOfWords |
| Attendance.ClassStudents | screens/AttendanceScreen.tsx:27-51 | ClassStudentsProperties |
| Attendance.HasExistingData | screens/AttendanceScreen.tsx:53-55 | HasExistingDataIff |
| Attendance.HandleStatusChange | screens/AttendanceScreen.tsx:85-88 | HandleStatusChangeProperties |
| Attendance.SubmittedRecords | screens/AttendanceScreen.tsx:103-113 | HandleSubmit, SubmittedRecordsProperties, SubmittedRecordsCover |
| Settings.HandlePasswordSubmit | screens/SettingsScreen.tsx:26-43 | PasswordSubmitProperties, DefaultPasswordAccepted, ChangedPasswordIsCurrent |
| Settings.ToggleCollection | screens/SettingsScreen.tsx:225-231 | ToggleCollectionProperties, ToggleTwice |
| Settings.IsRestorable | screens/SettingsScreen.tsx:188 | RestoreShape, BackupIsRestorable |
