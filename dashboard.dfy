/** The dashboards: the financial cards (revenue of the month, receivables), the
    warning lists of the most indebted and the most absent students, today's
    sessions, and the teacher's classes and announcements. "Today", the month, the
    30-day cutoff date and the signed-in teacher's id are inputs. */
module Dashboard {
  import opened Optional
  import opened Seqs
  import opened Sorting
  import opened JsMap
  import opened Unicode
  import opened Text
  import opened Domain

  // ---------------------------------------------------------------------------
  // Monthly revenue
  // ---------------------------------------------------------------------------

  /** `${year}-${String(month).padStart(2, '0')}`. */
  function MonthKey(year: nat, month: nat): string {
    DecimalString(year) + "-" + PadStart2(DecimalString(month))
  }

  /** For a calendar month the key is the year, a dash and exactly two digits that
      denote the month; splitting it on the dash gives the two parts back. */
  lemma MonthKeyParts(year: nat, month: nat)
    requires 1 <= month <= 12
    ensures Split(MonthKey(year, month), '-') == [DecimalString(year), PadStart2(DecimalString(month))]
    ensures |PadStart2(DecimalString(month))| == 2
    ensures DecimalValue(PadStart2(DecimalString(month))) == month
  {
    var y, m := DecimalString(year), PadStart2(DecimalString(month));
    assert '-' !in y by {
      assert forall i :: 0 <= i < |y| ==> IsDigit(y[i]);
    }
    assert '-' !in m by {
      assert forall i :: 0 <= i < |m| ==> IsDigit(m[i]);
    }
    assert Join([y, m], "-") == MonthKey(year, month);
    SplitJoin([y, m], '-');
    DecimalRoundTrip(month);
    if month < 10 {
      assert m == ['0', DigitChar(month)];
      assert m[..1] == ['0'];
    }
  }

  /** The lower-cased marker of the entry that reverses a cancelled invoice. */
  const CancelledInvoiceMarker: string := "hủy hóa đơn"

  /** A transaction counted as tuition collected in the month of `key`. */
  predicate IsTuitionReceipt(t: Transaction, key: string) {
    && (t.kind == Payment || t.kind == AdjustmentCredit)
    && StartsWith(t.date, key)
    && !Contains(ToLower(t.description), CancelledInvoiceMarker)
    && t.amount > 0
  }

  function TuitionCollected(transactions: seq<Transaction>, key: string): int {
    SumOf(Filter(transactions, t => IsTuitionReceipt(t, key)), (t: Transaction) => t.amount)
  }

  function OtherIncome(income: seq<Income>, key: string): int {
    SumOf(Filter(income, (i: Income) => StartsWith(i.date, key)), (i: Income) => i.amount)
  }

  /** `monthlyRevenue`: zero for a role that may not see the financial cards. */
  function MonthlyRevenue(role: UserRole, transactions: seq<Transaction>, income: seq<Income>, key: string): (r: int)
    ensures !CanViewFinancials(role) ==> r == 0
  {
    if !CanViewFinancials(role) then 0 else TuitionCollected(transactions, key) + OtherIncome(income, key)
  }

  /** Tuition collected is a sum of positive amounts. */
  lemma TuitionCollectedNonNegative(transactions: seq<Transaction>, key: string)
    ensures TuitionCollected(transactions, key) >= 0
  {
    var kept := Filter(transactions, t => IsTuitionReceipt(t, key));
    SumOfNonNegative(kept, (t: Transaction) => t.amount);
  }

  lemma {:induction false} FilterSumAppend<T(!new)>(s: seq<T>, x: T, p: T -> bool, f: T -> int)
    ensures SumOf(Filter(s + [x], p), f) == SumOf(Filter(s, p), f) + (if p(x) then f(x) else 0)
  {
    FilterConcat(s, [x], p);
    FilterSingleton(x, p);
    SumOfConcat(Filter(s, p), Filter([x], p), f);
    if p(x) {
      assert SumOf([x], f) == SumOf([], f) + f(x);
    }
  }

  /** One more transaction adds its amount to the revenue exactly when a financial
      role is looking and it is a tuition receipt of the month. */
  lemma RevenueWithTransaction(role: UserRole, transactions: seq<Transaction>, t: Transaction, income: seq<Income>, key: string)
    ensures MonthlyRevenue(role, transactions + [t], income, key) ==
      MonthlyRevenue(role, transactions, income, key) +
      (if CanViewFinancials(role) && IsTuitionReceipt(t, key) then t.amount else 0)
  {
    FilterSumAppend(transactions, t, t => IsTuitionReceipt(t, key), (t: Transaction) => t.amount);
  }

  /** One more income entry adds its amount, whatever its sign, exactly when a
      financial role is looking and it is dated in the month. */
  lemma RevenueWithIncome(role: UserRole, transactions: seq<Transaction>, income: seq<Income>, i: Income, key: string)
    ensures MonthlyRevenue(role, transactions, income + [i], key) ==
      MonthlyRevenue(role, transactions, income, key) +
      (if CanViewFinancials(role) && StartsWith(i.date, key) then i.amount else 0)
  {
    FilterSumAppend(income, i, (i: Income) => StartsWith(i.date, key), (i: Income) => i.amount);
  }

  /** A payment whose description mentions a cancelled invoice adds nothing. */
  lemma CancelledInvoiceNotRevenue(role: UserRole, transactions: seq<Transaction>, t: Transaction, income: seq<Income>, key: string)
    requires Contains(ToLower(t.description), CancelledInvoiceMarker)
    ensures MonthlyRevenue(role, transactions + [t], income, key) == MonthlyRevenue(role, transactions, income, key)
  {
    RevenueWithTransaction(role, transactions, t, income, key);
  }

  // ---------------------------------------------------------------------------
  // Receivables and the high-debt list
  // ---------------------------------------------------------------------------

  predicate IsDebtor(s: Student) {
    s.balance < 0
  }

  /** `totalReceivables`: the sum of the negative balances. */
  function TotalReceivables(role: UserRole, students: seq<Student>): (r: int)
    ensures r <= 0
    ensures !CanViewFinancials(role) ==> r == 0
  {
    if !CanViewFinancials(role) then 0
    else
      var debtors := Filter(students, IsDebtor);
      SumOfNonPositive(debtors, Balance);
      SumOf(debtors, Balance)
  }

  /** The balance a debtor adds to the receivables. */
  function Balance(s: Student): int {
    s.balance
  }

  /** The sum of the negative balances is negative exactly when some student owes
      money. */
  lemma {:induction false} DebtSumNegativeIffDebtor(students: seq<Student>)
    ensures SumOf(Filter(students, IsDebtor), Balance) < 0 <==> exists i :: 0 <= i < |students| && IsDebtor(students[i])
    decreases |students|
  {
    if students != [] {
      var init := students[..|students| - 1];
      var last := students[|students| - 1];
      DebtSumNegativeIffDebtor(init);
      assert students == init + [last];
      FilterSumAppend(init, last, IsDebtor, Balance);
      SumOfNonPositive(Filter(init, IsDebtor), Balance);
      DebtorOfLast(students, init);
    }
  }

  /** Some student is a debtor exactly when one of all but the last is, or the
      last is. */
  lemma DebtorOfLast(students: seq<Student>, init: seq<Student>)
    requires students != [] && init == students[..|students| - 1]
    ensures (exists i :: 0 <= i < |students| && IsDebtor(students[i])) <==>
      (exists i :: 0 <= i < |init| && IsDebtor(init[i])) || IsDebtor(students[|students| - 1])
  {
    if exists i :: 0 <= i < |students| && IsDebtor(students[i]) {
      var i :| 0 <= i < |students| && IsDebtor(students[i]);
      if i < |init| {
        assert init[i] == students[i];
      }
    }
    if exists i :: 0 <= i < |init| && IsDebtor(init[i]) {
      var i :| 0 <= i < |init| && IsDebtor(init[i]);
      assert students[i] == init[i];
    }
  }

  /** For a financial role the receivables are negative exactly when some student
      owes money. */
  lemma ReceivablesNegativeIffDebtor(role: UserRole, students: seq<Student>)
    requires CanViewFinancials(role)
    ensures TotalReceivables(role, students) < 0 <==> exists i :: 0 <= i < |students| && IsDebtor(students[i])
  {
    DebtSumNegativeIffDebtor(students);
  }

  predicate OwesAtLeast(a: Student, b: Student) {
    a.balance <= b.balance
  }

  /** The `HighDebtWidget` list. */
  function HighDebt(students: seq<Student>): seq<Student> {
    Take(SortBy(Filter(students, IsDebtor), OwesAtLeast), 5)
  }

  /** At most five debtors, the most negative balance first; when fewer than five
      students owe, all of them are listed; a debtor left out owes no more than any
      listed one. */
  lemma HighDebtProperties(students: seq<Student>)
    ensures |HighDebt(students)| <= 5
    ensures forall s :: s in HighDebt(students) ==> s in students && IsDebtor(s)
    ensures SortedBy(HighDebt(students), OwesAtLeast)
    ensures |Filter(students, IsDebtor)| <= 5 ==> multiset(HighDebt(students)) == multiset(Filter(students, IsDebtor))
    ensures forall s :: s in students && IsDebtor(s) && s !in HighDebt(students) ==>
      |HighDebt(students)| == 5 && forall i :: 0 <= i < 5 ==> HighDebt(students)[i].balance <= s.balance
  {
    assert IsTotalPreorder(OwesAtLeast);
    SortedTake(Filter(students, IsDebtor), OwesAtLeast, 5);
  }

  // ---------------------------------------------------------------------------
  // The high-absence list
  // ---------------------------------------------------------------------------

  /** The ids of the active students (`activeStudentIds`). */
  function ActiveIds(students: seq<Student>): (ids: set<string>)
    ensures forall id :: id in ids <==> exists i :: 0 <= i < |students| && students[i].id == id && students[i].status == Active
  {
    set i | 0 <= i < |students| && students[i].status == Active :: students[i].id
  }

  /** An absence that the widget counts: of an active student, on or after the
      cutoff date. */
  predicate IsRecentAbsence(r: AttendanceRecord, activeIds: set<string>, cutoff: string) {
    r.studentId in activeIds && r.status == Absent && LessOrEqual(cutoff, r.date)
  }

  /** The student ids of the counted absences, in record order. */
  function AbsentIds(records: seq<AttendanceRecord>, activeIds: set<string>, cutoff: string): (ids: seq<string>)
    decreases |records|
  {
    if records == [] then []
    else
      var r := records[|records| - 1];
      AbsentIds(records[..|records| - 1], activeIds, cutoff) +
        (if IsRecentAbsence(r, activeIds, cutoff) then [r.studentId] else [])
  }

  /** The number of counted absences of one student. */
  function AbsenceCount(records: seq<AttendanceRecord>, activeIds: set<string>, cutoff: string, id: string): nat {
    multiset(AbsentIds(records, activeIds, cutoff))[id]
  }

  /** A student has a counted absence exactly when one of their records is a recent
      absence of an active student. */
  lemma {:induction false} AbsenceCountPositive(records: seq<AttendanceRecord>, activeIds: set<string>, cutoff: string, id: string)
    ensures AbsenceCount(records, activeIds, cutoff, id) > 0 <==>
      exists i :: 0 <= i < |records| && records[i].studentId == id && IsRecentAbsence(records[i], activeIds, cutoff)
    decreases |records|
  {
    if records != [] {
      var init := records[..|records| - 1];
      var r := records[|records| - 1];
      AbsenceCountPositive(init, activeIds, cutoff, id);
      assert AbsentIds(records, activeIds, cutoff) ==
        AbsentIds(init, activeIds, cutoff) + (if IsRecentAbsence(r, activeIds, cutoff) then [r.studentId] else []);
      assert AbsenceCount(records, activeIds, cutoff, id) ==
        AbsenceCount(init, activeIds, cutoff, id) + (if IsRecentAbsence(r, activeIds, cutoff) && r.studentId == id then 1 else 0);
      RecentAbsenceOfLast(records, init, activeIds, cutoff, id);
    }
  }

  /** A recent absence of `id` is in the records exactly when it is among all
      but the last or is the last. */
  lemma RecentAbsenceOfLast(records: seq<AttendanceRecord>, init: seq<AttendanceRecord>, activeIds: set<string>, cutoff: string, id: string)
    requires records != [] && init == records[..|records| - 1]
    ensures (exists i :: 0 <= i < |records| && records[i].studentId == id && IsRecentAbsence(records[i], activeIds, cutoff)) <==>
      || (exists i :: 0 <= i < |init| && init[i].studentId == id && IsRecentAbsence(init[i], activeIds, cutoff))
      || (records[|records| - 1].studentId == id && IsRecentAbsence(records[|records| - 1], activeIds, cutoff))
  {
    if exists i :: 0 <= i < |init| && init[i].studentId == id && IsRecentAbsence(init[i], activeIds, cutoff) {
      var i :| 0 <= i < |init| && init[i].studentId == id && IsRecentAbsence(init[i], activeIds, cutoff);
      assert records[i] == init[i];
    }
    if exists i :: 0 <= i < |records| && records[i].studentId == id && IsRecentAbsence(records[i], activeIds, cutoff) {
      var i :| 0 <= i < |records| && records[i].studentId == id && IsRecentAbsence(records[i], activeIds, cutoff);
      if i < |init| {
        assert init[i] == records[i];
      }
    }
  }

  /** `absenceCounts` filled by the `forEach` over the attendance records: the
      counting map of the counted absences' student ids. */
  method CountAbsences(students: seq<Student>, attendance: seq<AttendanceRecord>, cutoff: string)
    returns (counts: Entries<string, nat>)
    ensures counts == CountKeys(AbsentIds(attendance, ActiveIds(students), cutoff))
  {
    var activeIds := set s | s in students && s.status == Active :: s.id;
    assert activeIds == ActiveIds(students) by {
      forall id | id in ActiveIds(students) ensures id in activeIds {
        var i :| 0 <= i < |students| && students[i].id == id && students[i].status == Active;
        assert students[i] in students;
      }
    }
    counts := [];
    var i := 0;
    while i < |attendance|
      invariant 0 <= i <= |attendance|
      invariant counts == CountKeys(AbsentIds(attendance[..i], activeIds, cutoff))
    {
      var record := attendance[i];
      ghost var ids := AbsentIds(attendance[..i], activeIds, cutoff);
      assert attendance[..i + 1][..i] == attendance[..i];
      if record.studentId in activeIds && record.status == Absent && LessOrEqual(cutoff, record.date) {
        counts := Set(counts, record.studentId, Get(counts, record.studentId).GetOr(0) + 1);
        assert (ids + [record.studentId])[..|ids|] == ids;
      } else {
        assert ids + [] == ids;
      }
      i := i + 1;
    }
    assert attendance[..i] == attendance;
  }

  /** `studentMap.get(id)` for `new Map(students.map(s => [s.id, s.name]))`: the
      name of the last student with that id. */
  function NameById(students: seq<Student>, id: string): (r: Option<string>)
    ensures r.None? <==> forall i :: 0 <= i < |students| ==> students[i].id != id
    ensures r.Some? ==> exists i :: (0 <= i < |students| && students[i].id == id && students[i].name == r.value &&
      forall j :: i < j < |students| ==> students[j].id != id)
    decreases |students|
  {
    if students == [] then None
    else if students[|students| - 1].id == id then Some(students[|students| - 1].name)
    else
      var init := students[..|students| - 1];
      var r := NameById(init, id);
      assert forall i :: 0 <= i < |init| ==> init[i] == students[i];
      r
  }

  datatype AbsenceEntry = AbsenceEntry(studentId: string, studentName: Option<string>, count: nat)

  function AbsenceRows(counts: Entries<string, nat>, students: seq<Student>): (rows: seq<AbsenceEntry>)
    ensures |rows| == |counts|
    ensures forall i :: 0 <= i < |counts| ==>
      rows[i] == AbsenceEntry(counts[i].0, NameById(students, counts[i].0), counts[i].1)
  {
    seq(|counts|, i requires 0 <= i < |counts| => AbsenceEntry(counts[i].0, NameById(students, counts[i].0), counts[i].1))
  }

  /** `.filter(item => item.studentName && item.count > 0)`. */
  predicate IsShown(e: AbsenceEntry) {
    e.studentName.Some? && e.studentName.value != "" && e.count > 0
  }

  /** `(a, b) => b.count - a.count`, most absences first. */
  predicate AbsentAtLeast(a: AbsenceEntry, b: AbsenceEntry) {
    a.count >= b.count
  }

  function HighAbsenceList(counts: Entries<string, nat>, students: seq<Student>): seq<AbsenceEntry> {
    Take(SortBy(Filter(AbsenceRows(counts, students), IsShown), AbsentAtLeast), 5)
  }

  /** The list shows at most five entries of the map, each with a name and a
      positive count, most absences first; a shown-worthy entry left out has no more
      absences than any listed one. */
  lemma HighAbsenceListProperties(counts: Entries<string, nat>, students: seq<Student>)
    ensures |HighAbsenceList(counts, students)| <= 5
    ensures SortedBy(HighAbsenceList(counts, students), AbsentAtLeast)
    ensures forall e :: e in HighAbsenceList(counts, students) ==>
      && IsShown(e) && e.studentName == NameById(students, e.studentId)
      && exists i :: 0 <= i < |counts| && counts[i] == (e.studentId, e.count)
    ensures forall e :: e in AbsenceRows(counts, students) && IsShown(e) && e !in HighAbsenceList(counts, students) ==>
      |HighAbsenceList(counts, students)| == 5 &&
      forall i :: 0 <= i < 5 ==> HighAbsenceList(counts, students)[i].count >= e.count
  {
    var rows := AbsenceRows(counts, students);
    var shown := Filter(rows, IsShown);
    assert IsTotalPreorder(AbsentAtLeast);
    SortedTake(shown, AbsentAtLeast, 5);
    forall e | e in HighAbsenceList(counts, students)
      ensures e.studentName == NameById(students, e.studentId)
      ensures exists i :: 0 <= i < |counts| && counts[i] == (e.studentId, e.count)
    {
      assert e in shown;
      AbsenceRowOfCount(counts, students, e);
    }
  }

  /** Each row comes from an entry of the map and carries that id's name. */
  lemma AbsenceRowOfCount(counts: Entries<string, nat>, students: seq<Student>, e: AbsenceEntry)
    requires e in AbsenceRows(counts, students)
    ensures e.studentName == NameById(students, e.studentId)
    ensures exists i :: 0 <= i < |counts| && counts[i] == (e.studentId, e.count)
  {
    var rows := AbsenceRows(counts, students);
    var i :| 0 <= i < |rows| && rows[i] == e;
    assert counts[i] == (e.studentId, e.count);
  }

  /** `HighAbsenceWidget`'s list: at most five named students with absences since
      the cutoff, most absences first, each with the number of their counted
      absences. */
  method HighAbsence(students: seq<Student>, attendance: seq<AttendanceRecord>, cutoff: string)
    returns (list: seq<AbsenceEntry>)
    ensures list == HighAbsenceList(CountKeys(AbsentIds(attendance, ActiveIds(students), cutoff)), students)
    ensures |list| <= 5
    ensures SortedBy(list, AbsentAtLeast)
    ensures forall e :: e in list ==>
      && IsShown(e) && e.studentName == NameById(students, e.studentId)
      && e.count == AbsenceCount(attendance, ActiveIds(students), cutoff, e.studentId)
  {
    var counts := CountAbsences(students, attendance, cutoff);
    list := HighAbsenceList(counts, students);
    HighAbsenceListProperties(counts, students);
    forall e | e in list
      ensures e.count == AbsenceCount(attendance, ActiveIds(students), cutoff, e.studentId)
    {
      var i :| 0 <= i < |counts| && counts[i] == (e.studentId, e.count);
      CountKeysDistinct(AbsentIds(attendance, ActiveIds(students), cutoff));
      CountKeysGet(AbsentIds(attendance, ActiveIds(students), cutoff), e.studentId);
      GetSpec(counts, e.studentId);
    }
  }

  // ---------------------------------------------------------------------------
  // Today's sessions
  // ---------------------------------------------------------------------------

  /** `{ ...cls, singleSchedule: s }`. */
  datatype Session = Session(cls: Class, slot: ScheduleSlot)

  function SlotsOn(c: Class, day: string): seq<Session> {
    FlatMap(c.schedule, (s: ScheduleSlot) => if s.dayOfWeek == day then [Session(c, s)] else [])
  }

  /** The sessions in the order the nested `forEach` pushes them. */
  function SessionsOn(classes: seq<Class>, day: string): seq<Session> {
    FlatMap(classes, (c: Class) => SlotsOn(c, day))
  }

  /** `(a, b) => a.singleSchedule.startTime.localeCompare(b.singleSchedule.startTime)`. */
  predicate StartsNoLater(a: Session, b: Session) {
    LessOrEqual(a.slot.startTime, b.slot.startTime)
  }

  lemma StartsNoLaterIsTotalPreorder()
    ensures IsTotalPreorder(StartsNoLater)
  {
    forall a, b ensures StartsNoLater(a, b) || StartsNoLater(b, a) {
      LessOrEqualTotal(a.slot.startTime, b.slot.startTime);
    }
    forall a, b, c | StartsNoLater(a, b) && StartsNoLater(b, c) ensures StartsNoLater(a, c) {
      LessOrEqualTransitive(a.slot.startTime, b.slot.startTime, c.slot.startTime);
    }
  }

  /** The sessions of a day are exactly the pairs of a class and one of its slots
      on that day, one per slot. */
  lemma SessionsOnMembers(classes: seq<Class>, day: string, x: Session)
    ensures x in SessionsOn(classes, day) <==>
      exists i :: 0 <= i < |classes| && x.cls == classes[i] && x.slot in classes[i].schedule && x.slot.dayOfWeek == day
  {
    FlatMapMember(classes, (c: Class) => SlotsOn(c, day), x);
    forall i | 0 <= i < |classes|
      ensures x in SlotsOn(classes[i], day) <==> x.cls == classes[i] && x.slot in classes[i].schedule && x.slot.dayOfWeek == day
    {
      var c := classes[i];
      FlatMapMember(c.schedule, (s: ScheduleSlot) => if s.dayOfWeek == day then [Session(c, s)] else [], x);
    }
  }

  lemma {:induction false} SlotsOnLength(c: Class, day: string, schedule: seq<ScheduleSlot>)
    ensures |FlatMap(schedule, (s: ScheduleSlot) => if s.dayOfWeek == day then [Session(c, s)] else [])| ==
      |Filter(schedule, (s: ScheduleSlot) => s.dayOfWeek == day)|
    decreases |schedule|
  {
    if schedule != [] {
      SlotsOnLength(c, day, schedule[..|schedule| - 1]);
    }
  }

  /** `sessionsToday`: the nested loops collect the sessions, which are then sorted
      by start time. */
  method SessionsToday(classes: seq<Class>, day: string) returns (sessions: seq<Session>)
    ensures sessions == SortBy(SessionsOn(classes, day), StartsNoLater)
    ensures SortedBy(sessions, StartsNoLater)
    ensures multiset(sessions) == multiset(SessionsOn(classes, day))
  {
    var collected: seq<Session> := [];
    var i := 0;
    while i < |classes|
      invariant 0 <= i <= |classes|
      invariant collected == SessionsOn(classes[..i], day)
    {
      var cls := classes[i];
      var j := 0;
      while j < |cls.schedule|
        invariant 0 <= j <= |cls.schedule|
        invariant collected == SessionsOn(classes[..i], day) + FlatMap(cls.schedule[..j], (s: ScheduleSlot) => if s.dayOfWeek == day then [Session(cls, s)] else [])
      {
        var s := cls.schedule[j];
        if s.dayOfWeek == day {
          collected := collected + [Session(cls, s)];
        }
        j := j + 1;
        assert cls.schedule[..j][..j - 1] == cls.schedule[..j - 1];
      }
      assert cls.schedule[..j] == cls.schedule;
      i := i + 1;
      assert classes[..i][..i - 1] == classes[..i - 1];
    }
    assert classes[..i] == classes;
    sessions := SortBy(collected, StartsNoLater);
    StartsNoLaterIsTotalPreorder();
    SortBySorted(collected, StartsNoLater);
  }

  /** `teachers.find(t => t.id === id)?.name || 'N/A'`. */
  function TeacherName(teachers: seq<TeacherRecord>, id: string): (r: string)
    ensures r == "N/A" || exists i :: 0 <= i < |teachers| && teachers[i].id == id && teachers[i].name == r
    ensures (forall i :: 0 <= i < |teachers| ==> teachers[i].id != id) ==> r == "N/A"
  {
    match Find(teachers, (t: TeacherRecord) => t.id == id)
    case Some(t) => if t.name == "" then "N/A" else t.name
    case None => "N/A"
  }

  /** The name shown for an id is that of the first teacher with the id, or
      `N/A` when that name is empty. */
  lemma TeacherNameIsFirstMatch(teachers: seq<TeacherRecord>, id: string, i: int)
    requires 0 <= i < |teachers| && teachers[i].id == id
    requires forall j :: 0 <= j < i ==> teachers[j].id != id
    ensures TeacherName(teachers, id) == if teachers[i].name == "" then "N/A" else teachers[i].name
  {
    FindFirst(teachers, (t: TeacherRecord) => t.id == id, i);
  }

  /** `getTeacherNames`. */
  function TeacherNames(teachers: seq<TeacherRecord>, teacherIds: seq<string>): (r: string)
    ensures teacherIds == [] ==> r == "N/A"
  {
    if |teacherIds| == 0 then "N/A"
    else Join(seq(|teacherIds|, i requires 0 <= i < |teacherIds| => TeacherName(teachers, teacherIds[i])), ", ")
  }

  lemma {:induction false} JoinAppend(parts: seq<string>, p: string, sep: string)
    requires |parts| >= 1
    ensures Join(parts + [p], sep) == Join(parts, sep) + sep + p
    decreases |parts|
  {
    if |parts| == 1 {
      assert (parts + [p])[1..] == [p];
    } else {
      assert (parts + [p])[1..] == parts[1..] + [p];
      JoinAppend(parts[1..], p, sep);
    }
  }

  /** Each further id adds `, ` and that teacher's name, or `N/A`. */
  lemma TeacherNamesAppend(teachers: seq<TeacherRecord>, teacherIds: seq<string>, id: string)
    ensures TeacherNames(teachers, teacherIds + [id]) ==
      if teacherIds == [] then TeacherName(teachers, id)
      else TeacherNames(teachers, teacherIds) + ", " + TeacherName(teachers, id)
  {
    var ids := teacherIds + [id];
    var names := seq(|ids|, i requires 0 <= i < |ids| => TeacherName(teachers, ids[i]));
    var names0 := seq(|teacherIds|, i requires 0 <= i < |teacherIds| => TeacherName(teachers, teacherIds[i]));
    assert names == names0 + [TeacherName(teachers, id)];
    if teacherIds != [] {
      JoinAppend(names0, TeacherName(teachers, id), ", ");
    }
  }

  // ---------------------------------------------------------------------------
  // The teacher's dashboard
  // ---------------------------------------------------------------------------

  predicate Teaches(c: Class, teacherId: string) {
    teacherId in c.teacherIds
  }

  /** `(a, b) => a.name.localeCompare(b.name)`. */
  predicate NameNoLater(a: Class, b: Class) {
    LessOrEqual(a.name, b.name)
  }

  lemma NameNoLaterIsTotalPreorder()
    ensures IsTotalPreorder(NameNoLater)
  {
    forall a, b ensures NameNoLater(a, b) || NameNoLater(b, a) {
      LessOrEqualTotal(a.name, b.name);
    }
    forall a, b, c | NameNoLater(a, b) && NameNoLater(b, c) ensures NameNoLater(a, c) {
      LessOrEqualTransitive(a.name, b.name, c.name);
    }
  }

  /** `assignedClasses`; an empty `teacherId` is a signed-in user without an id. */
  function AssignedClasses(classes: seq<Class>, teacherId: string): (r: seq<Class>)
    ensures teacherId == "" ==> r == []
    ensures teacherId != "" ==> multiset(r) == multiset(Filter(classes, (c: Class) => Teaches(c, teacherId)))
    ensures forall c :: c in r <==> teacherId != "" && c in classes && Teaches(c, teacherId)
  {
    if teacherId == "" then []
    else
      var mine := Filter(classes, (c: Class) => Teaches(c, teacherId));
      var r := SortBy(mine, NameNoLater);
      assert forall c :: c in r <==> c in multiset(mine);
      r
  }

  lemma AssignedClassesSorted(classes: seq<Class>, teacherId: string)
    ensures SortedBy(AssignedClasses(classes, teacherId), NameNoLater)
  {
    if teacherId != "" {
      NameNoLaterIsTotalPreorder();
      SortBySorted(Filter(classes, (c: Class) => Teaches(c, teacherId)), NameNoLater);
    }
  }

  /** `!ann.classId`: no class or an empty one. */
  predicate IsGeneral(a: Announcement) {
    a.classId.None? || a.classId.value == ""
  }

  /** `(a, b) => new Date(b.createdAt).getTime() - new Date(a.createdAt).getTime()`,
      newest first. */
  predicate NoOlder(a: Announcement, b: Announcement) {
    a.createdAt >= b.createdAt
  }

  /** The announcements a teacher sees: the general ones and those of a class the
      teacher teaches (only the general ones for a user without an id). */
  predicate IsRelevant(a: Announcement, classes: seq<Class>, teacherId: string) {
    IsGeneral(a) ||
    (teacherId != "" && exists i :: 0 <= i < |classes| && Teaches(classes[i], teacherId) && a.classId == Some(classes[i].id))
  }

  function Relevant(classes: seq<Class>, teacherId: string): Announcement -> bool {
    a => IsRelevant(a, classes, teacherId)
  }

  /** `relevantAnnouncements`: the relevant announcements, newest first, those
      with the same time in their input order. */
  function RelevantAnnouncements(announcements: seq<Announcement>, classes: seq<Class>, teacherId: string): (r: seq<Announcement>)
    ensures r == SortBy(Filter(announcements, Relevant(classes, teacherId)), NoOlder)
    ensures forall a :: a in r <==> a in announcements && IsRelevant(a, classes, teacherId)
    ensures SortedBy(r, NoOlder)
    ensures multiset(r) == multiset(Filter(announcements, Relevant(classes, teacherId)))
    ensures multiset(r) <= multiset(announcements)
    ensures forall e ::
              Filter(r, TiedWith(NoOlder, e)) == Filter(Filter(announcements, Relevant(classes, teacherId)), TiedWith(NoOlder, e))
  {
    var teacherClassIds := set i | 0 <= i < |classes| && teacherId != "" && Teaches(classes[i], teacherId) :: classes[i].id;
    var isTeacherClass := (a: Announcement) =>
      IsGeneral(a) || (teacherId != "" && a.classId.value in teacherClassIds);
    TeacherClassIsRelevant(classes, teacherId, teacherClassIds, isTeacherClass);
    FilterSame(announcements, isTeacherClass, Relevant(classes, teacherId));
    NewestFirst(Filter(announcements, Relevant(classes, teacherId)), announcements, classes, teacherId);
    SortBy(Filter(announcements, isTeacherClass), NoOlder)
  }

  /** Sorting the relevant announcements newest first keeps exactly them and
      keeps those with the same time in order. */
  lemma NewestFirst(kept: seq<Announcement>, announcements: seq<Announcement>, classes: seq<Class>, teacherId: string)
    requires kept == Filter(announcements, Relevant(classes, teacherId))
    ensures forall a :: a in SortBy(kept, NoOlder) <==> a in announcements && IsRelevant(a, classes, teacherId)
    ensures SortedBy(SortBy(kept, NoOlder), NoOlder)
    ensures multiset(SortBy(kept, NoOlder)) <= multiset(announcements)
    ensures forall e :: Filter(SortBy(kept, NoOlder), TiedWith(NoOlder, e)) == Filter(kept, TiedWith(NoOlder, e))
  {
    assert IsTotalPreorder(NoOlder);
    SortByProperties(kept, NoOlder);
    FilterSubMultiset(announcements, Relevant(classes, teacherId));
    assert forall a :: a in SortBy(kept, NoOlder) <==> a in multiset(kept);
  }

  /** The body's filter, through the set of the teacher's class ids, is `IsRelevant`. */
  lemma TeacherClassIsRelevant(classes: seq<Class>, teacherId: string, ids: set<string>, p: Announcement -> bool)
    requires ids == set i | 0 <= i < |classes| && teacherId != "" && Teaches(classes[i], teacherId) :: classes[i].id
    requires forall a :: p(a) == (IsGeneral(a) || (teacherId != "" && a.classId.value in ids))
    ensures forall a :: p(a) == Relevant(classes, teacherId)(a)
  {
  }
}
