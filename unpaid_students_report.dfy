/** The debt report: the students who owe money, narrowed by a class and a search
    text, with the classes each one attends; the sort toggle of the table, the total
    debt, the rows chosen for printing and the rows of the CSV export. */
module UnpaidStudentsReport {
  import opened Optional
  import opened Seqs
  import opened Sorting
  import opened Unicode
  import opened Text
  import opened Domain
  import Dashboard

  // ---------------------------------------------------------------------------
  // The unpaid list
  // ---------------------------------------------------------------------------

  /** A student with the names of the classes that list them. */
  datatype UnpaidRow = UnpaidRow(student: Student, classNames: string)

  /** `classFilter === 'all'`, or no class has that id, or the class lists the student. */
  predicate InClassScope(s: Student, classes: seq<Class>, classFilter: string) {
    classFilter == "all" ||
    match ClassById(classes, classFilter)
    case None => true
    case Some(c) => s.id in c.studentIds
  }

  /** An empty search matches everyone; otherwise the lower-cased name or id must
      contain the lower-cased search text. */
  predicate MatchesSearch(s: Student, searchQuery: string) {
    searchQuery == "" || MatchesLowered(s, ToLower(searchQuery))
  }

  predicate MatchesLowered(s: Student, lowerQuery: string) {
    Contains(ToLower(s.name), lowerQuery) || Contains(ToLower(s.id), lowerQuery)
  }

  predicate IsListed(s: Student, classes: seq<Class>, classFilter: string, searchQuery: string) {
    InClassScope(s, classes, classFilter) && MatchesSearch(s, searchQuery) && s.balance < 0
  }

  /** `classes.filter(c => c.studentIds.includes(id)).map(c => c.name).join(', ')`. */
  function ClassNames(classes: seq<Class>, id: string): string {
    var attended := Filter(classes, (c: Class) => id in c.studentIds);
    Join(seq(|attended|, i requires 0 <= i < |attended| => attended[i].name), ", ")
  }

  function RowsOf(students: seq<Student>, classes: seq<Class>): (rows: seq<UnpaidRow>)
    ensures |rows| == |students|
    ensures forall i :: 0 <= i < |students| ==> rows[i] == UnpaidRow(students[i], ClassNames(classes, students[i].id))
  {
    seq(|students|, i requires 0 <= i < |students| => UnpaidRow(students[i], ClassNames(classes, students[i].id)))
  }

  function Listed(classes: seq<Class>, classFilter: string, searchQuery: string): Student -> bool {
    (s: Student) => IsListed(s, classes, classFilter, searchQuery)
  }

  /** The unpaid list: the listed students in store order, each with their classes. */
  function UnpaidList(students: seq<Student>, classes: seq<Class>, classFilter: string, searchQuery: string): seq<UnpaidRow> {
    RowsOf(Filter(students, Listed(classes, classFilter, searchQuery)), classes)
  }

  /** The filters the list is narrowed by, each named once. */
  function InScope(classes: seq<Class>, classFilter: string): Student -> bool {
    (s: Student) => InClassScope(s, classes, classFilter)
  }

  function Matching(searchQuery: string): Student -> bool {
    (s: Student) => MatchesSearch(s, searchQuery)
  }

  function InScopeAndMatching(classes: seq<Class>, classFilter: string, searchQuery: string): Student -> bool {
    (s: Student) => InClassScope(s, classes, classFilter) && MatchesSearch(s, searchQuery)
  }

  /** `s => studentIdsInClass.has(s.id)`. */
  function IdIn(ids: set<string>): Student -> bool {
    (s: Student) => s.id in ids
  }

  /** `s => s.name.toLowerCase().includes(lowerQuery) || s.id.toLowerCase().includes(lowerQuery)`. */
  function MatchesLowerQuery(lowerQuery: string): Student -> bool {
    (s: Student) => MatchesLowered(s, lowerQuery)
  }

  function Owes(): Student -> bool {
    (s: Student) => s.balance < 0
  }

  lemma ClassStep(students: seq<Student>, classes: seq<Class>, classFilter: string, ids: set<string>)
    requires classFilter != "all" && ClassById(classes, classFilter).Some?
    requires ids == set id | id in ClassById(classes, classFilter).value.studentIds
    ensures Filter(students, IdIn(ids)) == Filter(students, InScope(classes, classFilter))
  {
    FilterSame(students, IdIn(ids), InScope(classes, classFilter));
  }

  lemma NoClassStep(students: seq<Student>, classes: seq<Class>, classFilter: string)
    requires classFilter == "all" || ClassById(classes, classFilter).None?
    ensures students == Filter(students, InScope(classes, classFilter))
  {
    FilterKeepsAll(students, InScope(classes, classFilter));
  }

  lemma SearchStep(scoped: seq<Student>, searchQuery: string)
    requires searchQuery != ""
    ensures Filter(scoped, MatchesLowerQuery(ToLower(searchQuery))) == Filter(scoped, Matching(searchQuery))
  {
    FilterSame(scoped, MatchesLowerQuery(ToLower(searchQuery)), Matching(searchQuery));
  }

  lemma NoSearchStep(scoped: seq<Student>, searchQuery: string)
    requires searchQuery == ""
    ensures scoped == Filter(scoped, Matching(searchQuery))
  {
    FilterKeepsAll(scoped, Matching(searchQuery));
  }

  lemma CombineSteps(students: seq<Student>, classes: seq<Class>, classFilter: string, searchQuery: string)
    ensures Filter(Filter(Filter(students, InScope(classes, classFilter)), Matching(searchQuery)), Owes()) ==
      Filter(students, Listed(classes, classFilter, searchQuery))
  {
    FilterFilter(students, InScope(classes, classFilter), Matching(searchQuery),
      InScopeAndMatching(classes, classFilter, searchQuery));
    FilterFilter(students, InScopeAndMatching(classes, classFilter, searchQuery), Owes(),
      Listed(classes, classFilter, searchQuery));
  }

  /** `unpaidStudents`: `studentsToFilter` narrowed step by step, first by class,
      then by the search text, then to the students with a negative balance. */
  method UnpaidStudents(students: seq<Student>, classes: seq<Class>, classFilter: string, searchQuery: string)
    returns (rows: seq<UnpaidRow>)
    ensures rows == UnpaidList(students, classes, classFilter, searchQuery)
  {
    var studentsToFilter := students;
    if classFilter != "all" {
      var selectedClass := ClassById(classes, classFilter);
      if selectedClass.Some? {
        var studentIdsInClass := set id | id in selectedClass.value.studentIds;
        studentsToFilter := Filter(studentsToFilter, IdIn(studentIdsInClass));
        ClassStep(students, classes, classFilter, studentIdsInClass);
      } else {
        NoClassStep(students, classes, classFilter);
      }
    } else {
      NoClassStep(students, classes, classFilter);
    }
    ghost var scoped := studentsToFilter;
    assert scoped == Filter(students, InScope(classes, classFilter));
    if searchQuery != "" {
      var lowerQuery := ToLower(searchQuery);
      studentsToFilter := Filter(studentsToFilter, MatchesLowerQuery(lowerQuery));
      SearchStep(scoped, searchQuery);
    } else {
      NoSearchStep(scoped, searchQuery);
    }
    assert studentsToFilter == Filter(scoped, Matching(searchQuery));
    CombineSteps(students, classes, classFilter, searchQuery);
    rows := RowsOf(Filter(studentsToFilter, Owes()), classes);
  }

  function StudentsOf(rows: seq<UnpaidRow>): (ss: seq<Student>)
    ensures |ss| == |rows|
    ensures forall i :: 0 <= i < |rows| ==> ss[i] == rows[i].student
  {
    seq(|rows|, i requires 0 <= i < |rows| => rows[i].student)
  }

  /** The unpaid list holds, in store order, exactly the students who owe money, are
      in the class chosen and match the search, each with their class names. */
  lemma UnpaidListMembers(students: seq<Student>, classes: seq<Class>, classFilter: string, searchQuery: string)
    ensures StudentsOf(UnpaidList(students, classes, classFilter, searchQuery)) ==
      Filter(students, Listed(classes, classFilter, searchQuery))
    ensures forall r :: r in UnpaidList(students, classes, classFilter, searchQuery) ==>
      r.student in students && r.student.balance < 0 && r.classNames == ClassNames(classes, r.student.id)
    ensures forall s :: s in students && IsListed(s, classes, classFilter, searchQuery) ==>
      UnpaidRow(s, ClassNames(classes, s.id)) in UnpaidList(students, classes, classFilter, searchQuery)
  {
    var listed := Filter(students, Listed(classes, classFilter, searchQuery));
    var rows := UnpaidList(students, classes, classFilter, searchQuery);
    assert StudentsOf(rows) == listed;
    forall r | r in rows
      ensures r.student in students && r.student.balance < 0 && r.classNames == ClassNames(classes, r.student.id)
    {
      var i :| 0 <= i < |rows| && rows[i] == r;
      assert r.student == listed[i];
      assert listed[i] in listed;
    }
    forall s | s in students && IsListed(s, classes, classFilter, searchQuery)
      ensures UnpaidRow(s, ClassNames(classes, s.id)) in rows
    {
      var i :| 0 <= i < |listed| && listed[i] == s;
      assert rows[i] == UnpaidRow(s, ClassNames(classes, s.id));
    }
  }

  /** A class id that matches no class narrows nothing, as `'all'` does. */
  lemma UnknownClassIsAll(students: seq<Student>, classes: seq<Class>, classFilter: string, searchQuery: string)
    requires forall i :: 0 <= i < |classes| ==> classes[i].id != classFilter
    ensures UnpaidList(students, classes, classFilter, searchQuery) == UnpaidList(students, classes, "all", searchQuery)
  {
    FilterSame(students, Listed(classes, classFilter, searchQuery),
      Listed(classes, "all", searchQuery));
  }

  // ---------------------------------------------------------------------------
  // Total debt
  // ---------------------------------------------------------------------------

  /** `totalDebt`. */
  function TotalDebt(rows: seq<UnpaidRow>): int {
    SumOf(rows, (r: UnpaidRow) => r.student.balance)
  }

  lemma {:induction false} SumOfRows(rows: seq<UnpaidRow>)
    ensures TotalDebt(rows) == SumOf(StudentsOf(rows), Dashboard.Balance)
    decreases |rows|
  {
    if rows != [] {
      SumOfRows(rows[..|rows| - 1]);
      assert StudentsOf(rows)[..|rows| - 1] == StudentsOf(rows[..|rows| - 1]);
    }
  }

  /** The total debt is a sum of negative balances, and without a class or a search
      it is the receivables total of the dashboard. */
  lemma TotalDebtProperties(students: seq<Student>, classes: seq<Class>, classFilter: string, searchQuery: string)
    ensures TotalDebt(UnpaidList(students, classes, classFilter, searchQuery)) <= 0
    ensures classFilter == "all" && searchQuery == "" ==>
      TotalDebt(UnpaidList(students, classes, classFilter, searchQuery)) == Dashboard.TotalReceivables(Admin, students)
  {
    var rows := UnpaidList(students, classes, classFilter, searchQuery);
    UnpaidListMembers(students, classes, classFilter, searchQuery);
    forall i | 0 <= i < |rows| ensures rows[i].student.balance <= 0 {
      assert rows[i] in rows;
    }
    SumOfNonPositive(rows, (r: UnpaidRow) => r.student.balance);
    if classFilter == "all" && searchQuery == "" {
      SumOfRows(rows);
      FilterSame(students, Listed(classes, classFilter, searchQuery), Dashboard.IsDebtor);
    }
  }

  // ---------------------------------------------------------------------------
  // Sorting
  // ---------------------------------------------------------------------------

  /** The sortable columns: `name` and `balance`. */
  datatype SortKey = Name | Balance
  datatype Direction = Ascending | Descending
  datatype SortConfig = SortConfig(key: SortKey, direction: Direction)

  /** `handleSort`. */
  function HandleSort(config: Option<SortConfig>, key: SortKey): SortConfig {
    if config.Some? && config.value.key == key && config.value.direction == Ascending
    then SortConfig(key, Descending)
    else SortConfig(key, Ascending)
  }

  /** The new order sorts by the clicked key, descending exactly when that key was
      sorted ascending; clicking the same key again flips the direction. */
  lemma HandleSortProperties(config: Option<SortConfig>, key: SortKey)
    ensures HandleSort(config, key).key == key
    ensures HandleSort(config, key).direction == Descending <==> config == Some(SortConfig(key, Ascending))
    ensures HandleSort(Some(HandleSort(config, key)), key).direction != HandleSort(config, key).direction
  {
  }

  /** The comparator of `sortedUnpaidStudents` as the order it sorts by: `a` may stay
      before `b` unless its key compares after `b`'s in the chosen direction. */
  predicate RowBefore(config: SortConfig, a: UnpaidRow, b: UnpaidRow) {
    match (config.key, config.direction)
    case (Name, Ascending) => LessOrEqual(a.student.name, b.student.name)
    case (Name, Descending) => LessOrEqual(b.student.name, a.student.name)
    case (Balance, Ascending) => a.student.balance <= b.student.balance
    case (Balance, Descending) => a.student.balance >= b.student.balance
  }

  function RowOrder(config: SortConfig): (UnpaidRow, UnpaidRow) -> bool {
    (a, b) => RowBefore(config, a, b)
  }

  lemma RowBeforeIsTotalPreorder(config: SortConfig)
    ensures IsTotalPreorder(RowOrder(config))
  {
    var le := RowOrder(config);
    forall a, b ensures le(a, b) || le(b, a) {
      LessOrEqualTotal(a.student.name, b.student.name);
    }
    forall a, b, c | le(a, b) && le(b, c) ensures le(a, c) {
      if config == SortConfig(Name, Ascending) {
        LessOrEqualTransitive(a.student.name, b.student.name, c.student.name);
      } else if config == SortConfig(Name, Descending) {
        LessOrEqualTransitive(c.student.name, b.student.name, a.student.name);
      }
    }
  }

  /** `sortedUnpaidStudents`: a copy of the list, sorted in place when a sort order
      is set. */
  method SortedUnpaidStudents(rows: seq<UnpaidRow>, config: Option<SortConfig>) returns (sorted: seq<UnpaidRow>)
    ensures config.None? ==> sorted == rows
    ensures config.Some? ==> sorted == SortBy(rows, RowOrder(config.value))
    ensures config.Some? ==> SortedBy(sorted, RowOrder(config.value))
    ensures multiset(sorted) == multiset(rows)
    ensures config.Some? ==> forall e ::
      Filter(sorted, TiedWith(RowOrder(config.value), e)) ==
      Filter(rows, TiedWith(RowOrder(config.value), e))
  {
    var sortableItems := new UnpaidRow[|rows|](i requires 0 <= i < |rows| => rows[i]);
    assert sortableItems[..] == rows;
    if config.Some? {
      RowBeforeIsTotalPreorder(config.value);
      SortInPlace(sortableItems, RowOrder(config.value));
    }
    sorted := sortableItems[..];
  }

  /** `selectedStudentsForPrint`. */
  function SelectedForPrint(sorted: seq<UnpaidRow>, selectedIds: seq<string>): seq<UnpaidRow> {
    Filter(sorted, IsSelected(selectedIds))
  }

  function IsSelected(selectedIds: seq<string>): UnpaidRow -> bool {
    (r: UnpaidRow) => r.student.id in selectedIds
  }

  /** The print selection is exactly the selected rows, in the table's order. */
  lemma SelectedForPrintProperties(sorted: seq<UnpaidRow>, selectedIds: seq<string>, config: SortConfig)
    ensures forall r :: r in SelectedForPrint(sorted, selectedIds) <==> r in sorted && r.student.id in selectedIds
    ensures multiset(SelectedForPrint(sorted, selectedIds)) <= multiset(sorted)
    ensures forall r: UnpaidRow :: r.student.id in selectedIds ==>
      multiset(SelectedForPrint(sorted, selectedIds))[r] == multiset(sorted)[r]
    ensures SortedBy(sorted, RowOrder(config)) ==>
      SortedBy(SelectedForPrint(sorted, selectedIds), RowOrder(config))
  {
    FilterSubMultiset(sorted, IsSelected(selectedIds));
    forall r: UnpaidRow | r.student.id in selectedIds
      ensures multiset(SelectedForPrint(sorted, selectedIds))[r] == multiset(sorted)[r]
    {
      FilterMultiplicity(sorted, IsSelected(selectedIds), r);
    }
    if SortedBy(sorted, RowOrder(config)) {
      FilterSorted(sorted, IsSelected(selectedIds), RowOrder(config));
    }
  }

  /** The print selection walks the table in order: no rows select nothing, the
      selection of two parts is the two selections one after the other, and one
      more row is appended exactly when its id is selected. */
  lemma SelectedForPrintInOrder(a: seq<UnpaidRow>, b: seq<UnpaidRow>, r: UnpaidRow, selectedIds: seq<string>)
    ensures SelectedForPrint([], selectedIds) == []
    ensures SelectedForPrint(a + b, selectedIds) == SelectedForPrint(a, selectedIds) + SelectedForPrint(b, selectedIds)
    ensures SelectedForPrint(a + [r], selectedIds) ==
      SelectedForPrint(a, selectedIds) + (if r.student.id in selectedIds then [r] else [])
  {
    FilterConcat(a, b, IsSelected(selectedIds));
    FilterConcat(a, [r], IsSelected(selectedIds));
    FilterSingleton(r, IsSelected(selectedIds));
  }

  // ---------------------------------------------------------------------------
  // CSV export
  // ---------------------------------------------------------------------------

  datatype CsvRow = CsvRow(name: string, classNames: string, balance: int)

  function Abs(x: int): int {
    if x < 0 then -x else x
  }

  /** The rows of `handleExport`: the amount is `Math.abs(balance)`. */
  function CsvRows(sorted: seq<UnpaidRow>): (out: seq<CsvRow>)
    ensures |out| == |sorted|
    ensures forall i :: 0 <= i < |sorted| ==>
      && out[i].name == sorted[i].student.name && out[i].classNames == sorted[i].classNames
      && out[i].balance >= 0
      && (out[i].balance == sorted[i].student.balance || out[i].balance == -sorted[i].student.balance)
  {
    seq(|sorted|, i requires 0 <= i < |sorted| =>
      CsvRow(sorted[i].student.name, sorted[i].classNames, Abs(sorted[i].student.balance)))
  }

  /** Every exported amount of a debtor is the amount owed, a positive number. */
  lemma CsvAmountsOwed(sorted: seq<UnpaidRow>)
    requires forall i :: 0 <= i < |sorted| ==> sorted[i].student.balance < 0
    ensures forall i :: 0 <= i < |sorted| ==> CsvRows(sorted)[i].balance == -sorted[i].student.balance > 0
  {
  }
}
