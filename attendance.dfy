/** The attendance screen of one class on one date: the active students of the
    class in last-name order, the number of sessions each has attended so far, the
    status map the teacher edits (filled from the saved records, Present by
    default) and the records a save sends to the store. The route parameters
    `classId` and `date` are strings; an empty one stands for a missing one. */
module Attendance {
  import opened Optional
  import opened Seqs
  import opened Sorting
  import opened JsMap
  import opened Unicode
  import opened Text
  import opened Domain

  // ---------------------------------------------------------------------------
  // The students of the class
  // ---------------------------------------------------------------------------

  /** `getLastName`: the last whitespace-separated word of the trimmed name. */
  function LastName(fullName: string): string {
    if fullName == "" then "" else TrailingWord(Trim(fullName))
  }

  /** The last name is a suffix of the trimmed name that holds no whitespace and is
      either all of it or preceded by whitespace; it is empty only for a name that
      is empty or all whitespace. */
  lemma LastNameProperties(fullName: string)
    ensures fullName == "" ==> LastName(fullName) == ""
    ensures var t, r := Trim(fullName), LastName(fullName);
      && |r| <= |t| && r == t[|t| - |r|..]
      && (forall i :: 0 <= i < |r| ==> !IsWhitespace(r[i]))
      && (|r| < |t| ==> IsWhitespace(t[|t| - |r| - 1]))
      && (t != "" ==> r != "")
  {
    var t := Trim(fullName);
    if fullName != "" && t != "" {
      var r := TrailingWord(t);
      assert !IsWhitespace(t[|t| - 1]);
    }
  }

  /** A name of space-separated words ends in its last word. */
  lemma LastNameOfWords(first: string, last: string)
    requires forall i :: 0 <= i < |first| ==> !IsWhitespace(first[i])
    requires forall i :: 0 <= i < |last| ==> !IsWhitespace(last[i])
    requires first != "" && last != ""
    ensures LastName(first + " " + last) == last
  {
    var name := (first + " ") + last;
    assert name[0] == first[0];
    assert TrimStart(name) == name;
    assert name[|name| - 1] == last[|last| - 1];
    assert TrimEnd(name) == name;
    TrailingWordAfterSpace(first + " ", last);
  }

  /** The order of `classStudents`: by last name, then by full name. */
  predicate StudentOrder(a: Student, b: Student) {
    var lastA := LastName(a.name);
    var lastB := LastName(b.name);
    Less(lastA, lastB) || (lastA == lastB && LessOrEqual(a.name, b.name))
  }

  lemma StudentOrderIsTotalPreorder()
    ensures IsTotalPreorder(StudentOrder)
  {
    forall a, b ensures StudentOrder(a, b) || StudentOrder(b, a) {
      LessTrichotomous(LastName(a.name), LastName(b.name));
      LessOrEqualTotal(a.name, b.name);
    }
    forall a, b, c | StudentOrder(a, b) && StudentOrder(b, c) ensures StudentOrder(a, c) {
      var la, lb, lc := LastName(a.name), LastName(b.name), LastName(c.name);
      if Less(la, lb) && Less(lb, lc) {
        LessTransitive(la, lb, lc);
      } else if la == lb && lb == lc {
        LessOrEqualTransitive(a.name, b.name, c.name);
      }
    }
  }

  predicate IsClassStudent(s: Student, cls: Class) {
    s.id in cls.studentIds && s.status == Active
  }

  /** `classStudents`: nobody when no class has the route's id. */
  function ClassStudents(classes: seq<Class>, students: seq<Student>, classId: string): seq<Student> {
    match ClassById(classes, classId)
    case None => []
    case Some(cls) => SortBy(Filter(students, (s: Student) => IsClassStudent(s, cls)), StudentOrder)
  }

  /** The class students are the active students the class lists, each as often as
      in the store, ordered by last name and then by full name. */
  lemma ClassStudentsProperties(classes: seq<Class>, students: seq<Student>, classId: string)
    ensures ClassById(classes, classId).None? ==> ClassStudents(classes, students, classId) == []
    ensures ClassById(classes, classId).Some? ==>
      multiset(ClassStudents(classes, students, classId)) ==
      multiset(Filter(students, (s: Student) => IsClassStudent(s, ClassById(classes, classId).value)))
    ensures forall s :: s in ClassStudents(classes, students, classId) <==>
      ClassById(classes, classId).Some? && s in students && s.status == Active &&
      s.id in ClassById(classes, classId).value.studentIds
    ensures SortedBy(ClassStudents(classes, students, classId), StudentOrder)
  {
    var r := ClassStudents(classes, students, classId);
    match ClassById(classes, classId)
    case None =>
    case Some(cls) =>
      var mine := Filter(students, (s: Student) => IsClassStudent(s, cls));
      StudentOrderIsTotalPreorder();
      SortBySorted(mine, StudentOrder);
      assert forall s :: s in r <==> s in multiset(mine);
  }

  // ---------------------------------------------------------------------------
  // Saved records
  // ---------------------------------------------------------------------------

  /** `hasExistingData`. */
  predicate HasExistingData(attendance: seq<AttendanceRecord>, classId: string, date: string) {
    Find(attendance, (a: AttendanceRecord) => a.classId == classId && a.date == date).Some?
  }

  lemma HasExistingDataIff(attendance: seq<AttendanceRecord>, classId: string, date: string)
    ensures HasExistingData(attendance, classId, date) <==>
      exists i :: 0 <= i < |attendance| && attendance[i].classId == classId && attendance[i].date == date
  {
  }

  /** A record of this student in this class on this date. */
  predicate IsSessionRecord(a: AttendanceRecord, classId: string, studentId: string, date: string) {
    a.classId == classId && a.studentId == studentId && a.date == date
  }

  /** `attendance.find(a => a.classId === classId && a.studentId === studentId && a.date === date)`. */
  function SessionRecord(attendance: seq<AttendanceRecord>, classId: string, studentId: string, date: string): (r: Option<AttendanceRecord>)
    ensures r.None? <==> forall i :: 0 <= i < |attendance| ==> !IsSessionRecord(attendance[i], classId, studentId, date)
    ensures r.Some? ==> exists i :: (0 <= i < |attendance| && attendance[i] == r.value &&
      IsSessionRecord(attendance[i], classId, studentId, date) &&
      forall j :: 0 <= j < i ==> !IsSessionRecord(attendance[j], classId, studentId, date))
  {
    Find(attendance, (a: AttendanceRecord) => IsSessionRecord(a, classId, studentId, date))
  }

  function Ids(students: seq<Student>): (ids: seq<string>)
    ensures |ids| == |students|
    ensures forall i :: 0 <= i < |students| ==> ids[i] == students[i].id
  {
    seq(|students|, i requires 0 <= i < |students| => students[i].id)
  }

  lemma IdsPrefix(students: seq<Student>, i: nat)
    requires i < |students|
    ensures Ids(students[..i + 1]) == Ids(students[..i]) + [students[i].id]
  {
  }

  // ---------------------------------------------------------------------------
  // Attended sessions
  // ---------------------------------------------------------------------------

  /** A record that counts as attended: this student, on or before `date`,
      Present or Late. */
  predicate Attended(a: AttendanceRecord, studentId: string, date: string) {
    a.studentId == studentId && LessOrEqual(a.date, date) && (a.status == Present || a.status == Late)
  }

  function InClass(classId: string): AttendanceRecord -> bool {
    (a: AttendanceRecord) => a.classId == classId
  }

  function AttendedBy(studentId: string, date: string): AttendanceRecord -> bool {
    (a: AttendanceRecord) => Attended(a, studentId, date)
  }

  /** `studentPastAttendance.length` for each student id. */
  function PastCount(classAttendanceRecords: seq<AttendanceRecord>, date: string): string -> nat {
    (studentId: string) => |Filter(classAttendanceRecords, AttendedBy(studentId, date))|
  }

  /** The map `attendanceCounts` builds. */
  function AttendanceCountsOf(attendance: seq<AttendanceRecord>, classStudents: seq<Student>, classId: string, date: string)
    : Entries<string, nat>
  {
    if classId == "" || date == "" then []
    else FromKeys(Ids(classStudents), PastCount(Filter(attendance, InClass(classId)), date))
  }

  /** `attendanceCounts`: one entry per class student, set in a loop. */
  method AttendanceCounts(attendance: seq<AttendanceRecord>, classStudents: seq<Student>, classId: string, date: string)
    returns (counts: Entries<string, nat>)
    ensures counts == AttendanceCountsOf(attendance, classStudents, classId, date)
  {
    if classId == "" || date == "" {
      return [];
    }
    counts := [];
    var classAttendanceRecords := Filter(attendance, InClass(classId));
    for i := 0 to |classStudents|
      invariant counts == FromKeys(Ids(classStudents[..i]), PastCount(classAttendanceRecords, date))
    {
      var student := classStudents[i];
      var studentPastAttendance := Filter(classAttendanceRecords, AttendedBy(student.id, date));
      var count: nat := |studentPastAttendance|;
      counts := Set(counts, student.id, count);
      IdsPrefix(classStudents, i);
    }
    assert classStudents[..|classStudents|] == classStudents;
  }

  function CountedIn(classId: string, studentId: string, date: string): AttendanceRecord -> bool {
    (a: AttendanceRecord) => a.classId == classId && Attended(a, studentId, date)
  }

  /** Each class student's count is the number of their Present or Late records of
      this class dated on or before the selected date; no other id has a count, and
      there are none without a class or a date. */
  lemma AttendanceCountsProperties(attendance: seq<AttendanceRecord>, classStudents: seq<Student>, classId: string, date: string, studentId: string)
    ensures Get(AttendanceCountsOf(attendance, classStudents, classId, date), studentId) ==
      if classId == "" || date == "" || studentId !in Ids(classStudents) then None
      else Some(|Filter(attendance, CountedIn(classId, studentId, date))|)
    ensures DistinctKeys(AttendanceCountsOf(attendance, classStudents, classId, date))
  {
    if classId != "" && date != "" {
      var records := Filter(attendance, InClass(classId));
      FromKeysGet(Ids(classStudents), PastCount(records, date), studentId);
      FromKeysDistinct(Ids(classStudents), PastCount(records, date));
      FilterFilter(attendance, InClass(classId), AttendedBy(studentId, date), CountedIn(classId, studentId, date));
    }
  }

  // ---------------------------------------------------------------------------
  // The status map
  // ---------------------------------------------------------------------------

  /** `record ? record.status : AttendanceStatus.PRESENT`, for each student id. */
  function StatusOn(attendance: seq<AttendanceRecord>, classId: string, date: string): string -> AttendanceStatus {
    (studentId: string) =>
      match SessionRecord(attendance, classId, studentId, date)
      case Some(record) => record.status
      case None => Present
  }

  /** The map the initial-data effect builds. */
  function InitialDataOf(attendance: seq<AttendanceRecord>, classStudents: seq<Student>, classId: string, date: string)
    : Entries<string, AttendanceStatus>
  {
    FromKeys(Ids(classStudents), StatusOn(attendance, classId, date))
  }

  /** The initial-data effect: one entry per class student, set in a loop. */
  method InitialData(attendance: seq<AttendanceRecord>, classStudents: seq<Student>, classId: string, date: string)
    returns (initialData: Entries<string, AttendanceStatus>)
    ensures initialData == InitialDataOf(attendance, classStudents, classId, date)
  {
    initialData := [];
    for i := 0 to |classStudents|
      invariant initialData == FromKeys(Ids(classStudents[..i]), StatusOn(attendance, classId, date))
    {
      var student := classStudents[i];
      var record := SessionRecord(attendance, classId, student.id, date);
      initialData := Set(initialData, student.id, if record.Some? then record.value.status else Present);
      IdsPrefix(classStudents, i);
    }
    assert classStudents[..|classStudents|] == classStudents;
  }

  /** The initial map has exactly the class students as keys, in class order; each
      holds the status of the first saved record of that student in this class on
      this date, or Present when there is none. */
  lemma InitialDataProperties(attendance: seq<AttendanceRecord>, classStudents: seq<Student>, classId: string, date: string, studentId: string)
    ensures Keys(InitialDataOf(attendance, classStudents, classId, date)) == FirstOccurrences(Ids(classStudents))
    ensures DistinctKeys(InitialDataOf(attendance, classStudents, classId, date))
    ensures Get(InitialDataOf(attendance, classStudents, classId, date), studentId).Some? <==> studentId in Ids(classStudents)
    ensures
      (studentId in Ids(classStudents) &&
       forall i :: 0 <= i < |attendance| ==> !IsSessionRecord(attendance[i], classId, studentId, date))
      ==> Get(InitialDataOf(attendance, classStudents, classId, date), studentId) == Some(Present)
    ensures forall i ::
      (0 <= i < |attendance| && studentId in Ids(classStudents) &&
       IsSessionRecord(attendance[i], classId, studentId, date) &&
       forall j :: 0 <= j < i ==> !IsSessionRecord(attendance[j], classId, studentId, date))
      ==> Get(InitialDataOf(attendance, classStudents, classId, date), studentId) == Some(attendance[i].status)
  {
    var f := StatusOn(attendance, classId, date);
    FromKeysOrder(Ids(classStudents), f);
    FromKeysDistinct(Ids(classStudents), f);
    FromKeysGet(Ids(classStudents), f, studentId);
    forall i | 0 <= i < |attendance| && studentId in Ids(classStudents) &&
      IsSessionRecord(attendance[i], classId, studentId, date) &&
      (forall j :: 0 <= j < i ==> !IsSessionRecord(attendance[j], classId, studentId, date))
      ensures f(studentId) == attendance[i].status
    {
      var r := SessionRecord(attendance, classId, studentId, date);
      var k :| 0 <= k < |attendance| && attendance[k] == r.value &&
        IsSessionRecord(attendance[k], classId, studentId, date) &&
        forall j :: 0 <= j < k ==> !IsSessionRecord(attendance[j], classId, studentId, date);
      assert k == i;
    }
  }

  /** `handleStatusChange`: a viewer changes nothing. */
  function HandleStatusChange(role: UserRole, data: Entries<string, AttendanceStatus>, studentId: string, status: AttendanceStatus)
    : Entries<string, AttendanceStatus>
  {
    if role == Viewer then data else Set(data, studentId, status)
  }

  /** A status change sets the chosen student's status and leaves every other
      entry, and the set of keys when the student is listed, as it was. */
  lemma HandleStatusChangeProperties(role: UserRole, data: Entries<string, AttendanceStatus>, studentId: string,
                                     status: AttendanceStatus, other: string)
    ensures role == Viewer ==> HandleStatusChange(role, data, studentId, status) == data
    ensures role != Viewer ==> Get(HandleStatusChange(role, data, studentId, status), studentId) == Some(status)
    ensures other != studentId ==> Get(HandleStatusChange(role, data, studentId, status), other) == Get(data, other)
    ensures HasKey(data, studentId) ==> Keys(HandleStatusChange(role, data, studentId, status)) == Keys(data)
    ensures DistinctKeys(data) ==> DistinctKeys(HandleStatusChange(role, data, studentId, status))
  {
    if role != Viewer {
      GetSet(data, studentId, status, studentId);
      GetSet(data, studentId, status, other);
      SetKeys(data, studentId, status);
      if DistinctKeys(data) {
        SetPreservesDistinct(data, studentId, status);
      }
    }
  }

  function Constant(status: AttendanceStatus): string -> AttendanceStatus {
    (studentId: string) => status
  }

  /** `handleBulkChange`: a fresh map giving every class student the same status. */
  method HandleBulkChange(role: UserRole, data: Entries<string, AttendanceStatus>, classStudents: seq<Student>, status: AttendanceStatus)
    returns (newMap: Entries<string, AttendanceStatus>)
    ensures role == Viewer ==> newMap == data
    ensures role != Viewer ==> newMap == FromKeys(Ids(classStudents), Constant(status))
  {
    if role == Viewer {
      return data;
    }
    newMap := [];
    for i := 0 to |classStudents|
      invariant newMap == FromKeys(Ids(classStudents[..i]), Constant(status))
    {
      newMap := Set(newMap, classStudents[i].id, status);
      IdsPrefix(classStudents, i);
    }
    assert classStudents[..|classStudents|] == classStudents;
  }

  /** After a bulk change exactly the class students have an entry, all with the
      chosen status. */
  lemma BulkChangeProperties(classStudents: seq<Student>, status: AttendanceStatus, studentId: string)
    ensures Get(FromKeys(Ids(classStudents), Constant(status)), studentId) ==
      if studentId in Ids(classStudents) then Some(status) else None
    ensures Keys(FromKeys(Ids(classStudents), Constant(status))) == FirstOccurrences(Ids(classStudents))
  {
    FromKeysGet(Ids(classStudents), Constant(status), studentId);
    FromKeysOrder(Ids(classStudents), Constant(status));
  }

  // ---------------------------------------------------------------------------
  // Saving
  // ---------------------------------------------------------------------------

  /** `` `A-${Date.now()}-${studentId}` ``, for the instant `now` in milliseconds. */
  function FreshId(now: nat, studentId: string): string {
    "A-" + DecimalString(now) + "-" + studentId
  }

  /** `existingRecord?.id || fresh id`. */
  function RecordId(attendance: seq<AttendanceRecord>, classId: string, studentId: string, date: string, now: nat): (id: string)
    ensures (forall i :: 0 <= i < |attendance| ==> !IsSessionRecord(attendance[i], classId, studentId, date)) ==>
      id == FreshId(now, studentId)
    ensures forall i ::
      (0 <= i < |attendance| && IsSessionRecord(attendance[i], classId, studentId, date) &&
       forall j :: 0 <= j < i ==> !IsSessionRecord(attendance[j], classId, studentId, date))
      ==> id == if attendance[i].id != "" then attendance[i].id else FreshId(now, studentId)
  {
    var existingRecord := SessionRecord(attendance, classId, studentId, date);
    if existingRecord.Some? && existingRecord.value.id != "" then existingRecord.value.id
    else FreshId(now, studentId)
  }

  /** The record `handleSubmit` pushes for one map entry. */
  function RecordFor(attendance: seq<AttendanceRecord>, classId: string, date: string, now: nat,
                     entry: (string, AttendanceStatus)): AttendanceRecord
  {
    AttendanceRecord(RecordId(attendance, classId, entry.0, date, now), classId, entry.0, date, entry.1)
  }

  function RecordForEntry(attendance: seq<AttendanceRecord>, classId: string, date: string, now: nat)
    : ((string, AttendanceStatus)) -> AttendanceRecord
  {
    entry => RecordFor(attendance, classId, date, now, entry)
  }

  /** The records `handleSubmit` builds from the entries of the map, in map order. */
  function SubmittedRecords(entries: Entries<string, AttendanceStatus>, attendance: seq<AttendanceRecord>,
                            classId: string, date: string, now: nat): seq<AttendanceRecord>
  {
    FilterMap(entries, IsMarked, RecordForEntry(attendance, classId, date, now))
  }

  /** `handleSubmit` up to the store call: `None` for a viewer, who saves nothing;
      otherwise the records pushed in the loop over the map's entries. */
  method HandleSubmit(role: UserRole, attendanceData: Entries<string, AttendanceStatus>, attendance: seq<AttendanceRecord>,
                      classId: string, date: string, now: nat)
    returns (submitted: Option<seq<AttendanceRecord>>)
    ensures role == Viewer <==> submitted.None?
    ensures submitted.Some? ==> submitted.value == SubmittedRecords(attendanceData, attendance, classId, date, now)
  {
    if role == Viewer {
      return None;
    }
    var newRecords: seq<AttendanceRecord> := [];
    for i := 0 to |attendanceData|
      invariant newRecords == SubmittedRecords(attendanceData[..i], attendance, classId, date, now)
    {
      var (studentId, status) := attendanceData[i];
      if status != Unmarked {
        var existingRecord := SessionRecord(attendance, classId, studentId, date);
        var id := if existingRecord.Some? && existingRecord.value.id != "" then existingRecord.value.id
                  else FreshId(now, studentId);
        newRecords := newRecords + [AttendanceRecord(id, classId, studentId, date, status)];
      }
      assert attendanceData[..i + 1][..i] == attendanceData[..i];
    }
    assert attendanceData[..|attendanceData|] == attendanceData;
    submitted := Some(newRecords);
  }

  predicate IsMarked(entry: (string, AttendanceStatus)) {
    entry.1 != Unmarked
  }

  /** The saved records are, in map order, one per entry whose status is not
      Unmarked: for this class and date, with that student and status, and with the
      id of the student's saved record of the session when it has one. */
  lemma SubmittedRecordsProperties(entries: Entries<string, AttendanceStatus>, attendance: seq<AttendanceRecord>,
                                    classId: string, date: string, now: nat)
    ensures |SubmittedRecords(entries, attendance, classId, date, now)| == |Filter(entries, IsMarked)|
    ensures forall i :: 0 <= i < |Filter(entries, IsMarked)| ==>
      SubmittedRecords(entries, attendance, classId, date, now)[i] ==
      RecordFor(attendance, classId, date, now, Filter(entries, IsMarked)[i])
  {
    FilterMapSpec(entries, IsMarked, RecordForEntry(attendance, classId, date, now));
  }

  /** Every saved record belongs to this class and date and carries a marked entry
      of the map; every marked entry is saved. */
  lemma SubmittedRecordsCover(entries: Entries<string, AttendanceStatus>, attendance: seq<AttendanceRecord>,
                              classId: string, date: string, now: nat)
    ensures forall r :: r in SubmittedRecords(entries, attendance, classId, date, now) ==>
      r.classId == classId && r.date == date && r.status != Unmarked && (r.studentId, r.status) in entries &&
      r.id == RecordId(attendance, classId, r.studentId, date, now)
    ensures forall e :: e in entries && e.1 != Unmarked ==>
      RecordFor(attendance, classId, date, now, e) in SubmittedRecords(entries, attendance, classId, date, now)
  {
    var marked := Filter(entries, IsMarked);
    var records := SubmittedRecords(entries, attendance, classId, date, now);
    SubmittedRecordsProperties(entries, attendance, classId, date, now);
    forall r | r in records
      ensures r.classId == classId && r.date == date && r.status != Unmarked && (r.studentId, r.status) in entries &&
        r.id == RecordId(attendance, classId, r.studentId, date, now)
    {
      var i :| 0 <= i < |records| && records[i] == r;
      assert marked[i] in marked;
      assert (r.studentId, r.status) == marked[i];
    }
    forall e | e in entries && e.1 != Unmarked
      ensures RecordFor(attendance, classId, date, now, e) in records
    {
      assert e in marked;
      var i :| 0 <= i < |marked| && marked[i] == e;
      assert records[i] == RecordFor(attendance, classId, date, now, e);
    }
  }
}
