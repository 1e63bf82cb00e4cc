/** The records of the education centre's data store that the screens read. Amounts
    of money are whole đồng; a negative student balance is a debt, a positive one a
    credit. Dates are ISO `YYYY-MM-DD` strings, compared as strings as the screens
    compare them. Optional arrays of the store (`schedule`, `teacherIds`,
    `studentIds`) are the empty sequence when absent. */
module Domain {
  import opened Optional
  import opened Seqs

  datatype UserRole = Admin | Manager | Accountant | Teacher | Viewer

  /** `ACTIVE` and every other status of a person. */
  datatype PersonStatus = Active | Inactive(code: string)

  datatype TransactionType = InvoiceDebit | Payment | AdjustmentCredit | AdjustmentDebit

  datatype AttendanceStatus = Present | Absent | Late | Unmarked

  datatype Student = Student(
    id: string,
    name: string,
    parentName: Option<string>,
    balance: int,
    status: PersonStatus)

  datatype Transaction = Transaction(
    id: string,
    kind: TransactionType,
    amount: int,
    date: string,
    relatedInvoiceId: Option<string>,
    description: string)

  datatype Invoice = Invoice(
    id: string,
    studentId: string,
    month: string,
    amount: int,
    details: string,
    generatedDate: string)

  /** An entry of other income. */
  datatype Income = Income(id: string, date: string, amount: int)

  datatype ScheduleSlot = ScheduleSlot(dayOfWeek: string, startTime: string, endTime: string)

  datatype Class = Class(
    id: string,
    name: string,
    studentIds: seq<string>,
    teacherIds: seq<string>,
    schedule: seq<ScheduleSlot>)

  datatype TeacherRecord = TeacherRecord(id: string, name: string)

  /** `createdAt` is the instant `new Date(createdAt).getTime()` yields. */
  datatype Announcement = Announcement(id: string, classId: Option<string>, createdAt: int)

  datatype AttendanceRecord = AttendanceRecord(
    id: string,
    classId: string,
    studentId: string,
    date: string,
    status: AttendanceStatus)

  /** The centre's settings; an empty string is an unset text field. */
  datatype CenterSettings = CenterSettings(
    name: string,
    bankName: string,
    bankBin: string,
    bankAccountNumber: string,
    bankAccountHolder: string,
    adminPassword: Option<string>,
    viewerAccountActive: Option<bool>)

  /** `classes.find(c => c.id === classId)`. */
  function ClassById(classes: seq<Class>, classId: string): (r: Option<Class>)
    ensures r.Some? ==> r.value in classes && r.value.id == classId
    ensures r.None? <==> forall i :: 0 <= i < |classes| ==> classes[i].id != classId
  {
    Find(classes, (c: Class) => c.id == classId)
  }

  /** Roles that see the financial cards of the dashboard. */
  predicate CanViewFinancials(role: UserRole) {
    role == Admin || role == Manager || role == Accountant
  }
}
