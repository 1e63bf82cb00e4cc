/** The tuition-fee notice of one invoice: the balance the student had just before
    the invoice was debited, the notice's figures (outstanding debt, opening credit,
    total due), the bank-transfer reference, and the request for the VietQR image
    that encodes the transfer. */
module TuitionFeeNotice {
  import opened Optional
  import opened Seqs
  import opened Unicode
  import opened Text
  import opened Domain

  // ---------------------------------------------------------------------------
  // Name normalisers
  // ---------------------------------------------------------------------------

  /** `s.normalize('NFD')` over the modelled alphabet. */
  function Nfd(s: string): string {
    FlatMap(s, Decompose)
  }

  /** `.replace(/[̀-ͯ]/g, '')`. */
  function StripMarks(s: string): string {
    Filter(s, c => !IsCombiningMark(c))
  }

  /** `.replace(/đ/g, 'd').replace(/Đ/g, 'D')`. */
  function ReplaceDStroke(s: string): (r: string)
    ensures |r| == |s|
    ensures forall i :: 0 <= i < |s| ==> r[i] == DStrokeToD(s[i])
  {
    seq(|s|, i requires 0 <= i < |s| => DStrokeToD(s[i]))
  }

  function DStrokeToD(c: char): char {
    if c == 'đ' then 'd' else if c == 'Đ' then 'D' else c
  }

  /** `.replace(/\s+/g, '')`. */
  function RemoveWhitespace(s: string): string {
    Filter(s, c => !IsWhitespace(c))
  }

  /** The three steps both normalisers share: decompose, strip the marks, and map
      đ/Đ (which has no decomposition) to d/D. */
  function StripDiacritics(s: string): string {
    ReplaceDStroke(StripMarks(Nfd(s)))
  }

  /** `normalizeInfoName`: the compact form used in the transfer reference. */
  function NormalizeInfoName(name: string): string {
    RemoveWhitespace(StripDiacritics(name))
  }

  /** `normalizeAccountName`: the upper-case form used for the account holder. */
  function NormalizeAccountName(name: string): string {
    ToUpper(StripDiacritics(name))
  }

  /** A character that survives diacritic stripping unchanged. */
  predicate IsPlain(c: char) {
    IsDecomposed(c) && !IsCombiningMark(c) && c != 'đ' && c != 'Đ'
  }

  lemma {:induction false} NfdChars(s: string)
    ensures forall i :: 0 <= i < |Nfd(s)| ==> IsCombiningMark(Nfd(s)[i]) || IsDecomposed(Nfd(s)[i])
    decreases |s|
  {
    if s != [] {
      NfdChars(s[..|s| - 1]);
      var d := Decompose(s[|s| - 1]);
      assert Nfd(s) == Nfd(s[..|s| - 1]) + d;
      if d != [s[|s| - 1]] {
        AsciiLetterIsDecomposed(d[0]);
      }
    }
  }

  /** Every character left after stripping diacritics is plain. */
  lemma StripDiacriticsIsPlain(s: string)
    ensures forall i :: 0 <= i < |StripDiacritics(s)| ==> IsPlain(StripDiacritics(s)[i])
  {
    NfdChars(s);
    var t := StripMarks(Nfd(s));
    forall i | 0 <= i < |t| ensures IsPlain(DStrokeToD(t[i])) {
      assert t[i] in Nfd(s);
      if DStrokeToD(t[i]) != t[i] {
        AsciiLetterIsDecomposed(DStrokeToD(t[i]));
      }
    }
  }

  lemma {:induction false} NfdOfDecomposed(s: string)
    requires forall i :: 0 <= i < |s| ==> IsDecomposed(s[i])
    ensures Nfd(s) == s
    decreases |s|
  {
    if s != [] {
      NfdOfDecomposed(s[..|s| - 1]);
    }
  }

  /** Stripping diacritics leaves a string of plain characters unchanged. */
  lemma StripDiacriticsOfPlain(s: string)
    requires forall i :: 0 <= i < |s| ==> IsPlain(s[i])
    ensures StripDiacritics(s) == s
  {
    NfdOfDecomposed(s);
    FilterKeepsAll(s, c => !IsCombiningMark(c));
  }

  /** The compact name holds no whitespace, no combining mark and no đ/Đ. */
  lemma NormalizeInfoNameIsClean(name: string)
    ensures forall i :: 0 <= i < |NormalizeInfoName(name)| ==>
      var c := NormalizeInfoName(name)[i];
      !IsWhitespace(c) && !IsCombiningMark(c) && c != 'đ' && c != 'Đ'
  {
    StripDiacriticsIsPlain(name);
    var r := NormalizeInfoName(name);
    forall i | 0 <= i < |r| ensures IsPlain(r[i]) {
      assert r[i] in StripDiacritics(name);
    }
  }

  /** The account-holder name holds no combining mark and no đ/Đ, and it is upper
      case: upper-casing it again changes nothing. */
  lemma NormalizeAccountNameIsClean(name: string)
    ensures forall i :: 0 <= i < |NormalizeAccountName(name)| ==>
      var c := NormalizeAccountName(name)[i];
      IsPlain(c) && ToUpperChar(c) == c
  {
    StripDiacriticsIsPlain(name);
    var t := StripDiacritics(name);
    forall i | 0 <= i < |t| ensures IsPlain(ToUpperChar(t[i])) && ToUpperChar(ToUpperChar(t[i])) == ToUpperChar(t[i]) {
      ToUpperCharStable(t[i]);
    }
  }

  /** The account-holder form keeps the whitespace the compact form removes: with
      its whitespace removed it is the upper-cased compact form. */
  lemma {:induction false} AccountNameKeepsWhitespace(name: string)
    ensures RemoveWhitespace(NormalizeAccountName(name)) == ToUpper(NormalizeInfoName(name))
  {
    StripDiacriticsIsPlain(name);
    UpperCommutesWithRemoveWhitespace(StripDiacritics(name));
  }

  lemma {:induction false} UpperCommutesWithRemoveWhitespace(t: string)
    requires forall i :: 0 <= i < |t| ==> IsPlain(t[i])
    ensures RemoveWhitespace(ToUpper(t)) == ToUpper(RemoveWhitespace(t))
    decreases |t|
  {
    if t != [] {
      var init, last := t[..|t| - 1], t[|t| - 1];
      var u := ToUpperChar(last);
      assert forall i :: 0 <= i < |init| ==> init[i] == t[i];
      UpperCommutesWithRemoveWhitespace(init);
      ToUpperCharStable(last);
      assert t == init + [last];
      ToUpperConcat(init, [last]);
      assert ToUpper([last]) == [u];
      RemoveWhitespaceAppend(ToUpper(init), u);
      RemoveWhitespaceAppend(init, last);
      var ws := RemoveWhitespace(init);
      if IsWhitespace(last) {
        assert ws + [] == ws;
      } else {
        ToUpperConcat(ws, [last]);
      }
    }
  }

  lemma RemoveWhitespaceAppend(s: string, c: char)
    ensures RemoveWhitespace(s + [c]) == RemoveWhitespace(s) + if IsWhitespace(c) then [] else [c]
  {
    assert (s + [c])[..|s|] == s;
  }

  lemma NormalizeInfoNameIdempotent(name: string)
    ensures NormalizeInfoName(NormalizeInfoName(name)) == NormalizeInfoName(name)
  {
    var r := NormalizeInfoName(name);
    NormalizeInfoNameIsClean(name);
    StripDiacriticsIsPlain(name);
    forall i | 0 <= i < |r| ensures IsPlain(r[i]) {
      assert r[i] in StripDiacritics(name);
    }
    StripDiacriticsOfPlain(r);
    FilterKeepsAll(r, c => !IsWhitespace(c));
  }

  lemma NormalizeAccountNameIdempotent(name: string)
    ensures NormalizeAccountName(NormalizeAccountName(name)) == NormalizeAccountName(name)
  {
    var r := NormalizeAccountName(name);
    NormalizeAccountNameIsClean(name);
    StripDiacriticsOfPlain(r);
  }

  /** Both normalisers work character by character. */
  lemma NormalizeInfoNameConcat(a: string, b: string)
    ensures NormalizeInfoName(a + b) == NormalizeInfoName(a) + NormalizeInfoName(b)
  {
    FlatMapConcat(a, b, Decompose);
    FilterConcat(Nfd(a), Nfd(b), c => !IsCombiningMark(c));
    var sa, sb := StripMarks(Nfd(a)), StripMarks(Nfd(b));
    assert ReplaceDStroke(sa + sb) == ReplaceDStroke(sa) + ReplaceDStroke(sb);
    FilterConcat(ReplaceDStroke(sa), ReplaceDStroke(sb), c => !IsWhitespace(c));
  }

  lemma NormalizeAccountNameConcat(a: string, b: string)
    ensures NormalizeAccountName(a + b) == NormalizeAccountName(a) + NormalizeAccountName(b)
  {
    FlatMapConcat(a, b, Decompose);
    FilterConcat(Nfd(a), Nfd(b), c => !IsCombiningMark(c));
    var sa, sb := StripMarks(Nfd(a)), StripMarks(Nfd(b));
    assert ReplaceDStroke(sa + sb) == ReplaceDStroke(sa) + ReplaceDStroke(sb);
    ToUpperConcat(ReplaceDStroke(sa), ReplaceDStroke(sb));
  }

  /** What the compact normaliser makes of one character: nothing of whitespace
      or a combining mark, otherwise its base letter (the first character of its
      decomposition) with đ/Đ read as d/D. */
  function InfoChar(c: char): string {
    var b := Decompose(c)[0];
    if IsWhitespace(b) || IsCombiningMark(b) then [] else [DStrokeToD(b)]
  }

  /** What the account-holder normaliser makes of one character: nothing of a
      combining mark, otherwise its base letter read as above and upper-cased. */
  function AccountChar(c: char): string {
    var b := Decompose(c)[0];
    if IsCombiningMark(b) then [] else [ToUpperChar(DStrokeToD(b))]
  }

  /** Stripping the marks of a decomposition leaves its first character, or
      nothing when that is itself a mark. */
  lemma StripMarksOfDecomposition(c: char, d: string)
    requires IsDecompositionShape(c, d)
    ensures StripMarks(d) == if IsCombiningMark(d[0]) then [] else [d[0]]
  {
    var p := (x: char) => !IsCombiningMark(x);
    FilterConcat([d[0]], d[1..], p);
    assert d == [d[0]] + d[1..];
    FilterNone(d[1..], p);
    FilterSingleton(d[0], p);
  }

  lemma InfoNameOfDecomposition(c: char, d: string)
    requires IsDecompositionShape(c, d)
    ensures RemoveWhitespace(ReplaceDStroke(StripMarks(d))) ==
      if IsWhitespace(d[0]) || IsCombiningMark(d[0]) then [] else [DStrokeToD(d[0])]
  {
    StripMarksOfDecomposition(c, d);
    var a := d[0];
    if !IsCombiningMark(a) {
      var b := DStrokeToD(a);
      assert StripMarks(d) == [a];
      assert ReplaceDStroke([a]) == [b];
      RemoveWhitespaceAppend([], b);
      assert [] + [b] == [b];
      assert IsWhitespace(b) <==> IsWhitespace(a);
    } else {
      assert StripMarks(d) == [];
      assert ReplaceDStroke([]) == [];
    }
  }

  lemma AccountNameOfDecomposition(c: char, d: string)
    requires IsDecompositionShape(c, d)
    ensures ToUpper(ReplaceDStroke(StripMarks(d))) ==
      if IsCombiningMark(d[0]) then [] else [ToUpperChar(DStrokeToD(d[0]))]
  {
    StripMarksOfDecomposition(c, d);
    if !IsCombiningMark(d[0]) {
      var b := DStrokeToD(d[0]);
      assert ReplaceDStroke([d[0]]) == [b];
      assert ToUpper([b]) == [ToUpperChar(b)];
    } else {
      assert ReplaceDStroke([]) == [];
    }
  }

  lemma NormalizeInfoNameOfChar(c: char)
    ensures NormalizeInfoName([c]) == InfoChar(c)
  {
    FlatMapSingleton(c, Decompose);
    InfoNameOfDecomposition(c, Decompose(c));
  }

  lemma NormalizeAccountNameOfChar(c: char)
    ensures NormalizeAccountName([c]) == AccountChar(c)
  {
    FlatMapSingleton(c, Decompose);
    AccountNameOfDecomposition(c, Decompose(c));
  }

  /** The compact normaliser maps each character on its own. */
  lemma {:induction false} NormalizeInfoNameByChar(s: string)
    ensures NormalizeInfoName(s) == FlatMap(s, InfoChar)
    decreases |s|
  {
    if s == [] {
      assert Nfd(s) == [];
    } else {
      var init := s[..|s| - 1];
      assert s == init + [s[|s| - 1]];
      NormalizeInfoNameByChar(init);
      NormalizeInfoNameConcat(init, [s[|s| - 1]]);
      NormalizeInfoNameOfChar(s[|s| - 1]);
    }
  }

  /** The account-holder normaliser maps each character on its own. */
  lemma {:induction false} NormalizeAccountNameByChar(s: string)
    ensures NormalizeAccountName(s) == FlatMap(s, AccountChar)
    decreases |s|
  {
    if s == [] {
      assert Nfd(s) == [];
    } else {
      var init := s[..|s| - 1];
      assert s == init + [s[|s| - 1]];
      NormalizeAccountNameByChar(init);
      NormalizeAccountNameConcat(init, [s[|s| - 1]]);
      NormalizeAccountNameOfChar(s[|s| - 1]);
    }
  }

  // ---------------------------------------------------------------------------
  // Pre-invoice balance and the notice figures
  // ---------------------------------------------------------------------------

  /** The ledger entry that debited `invoice`. */
  predicate IsDebitOf(t: Transaction, invoice: Invoice) {
    t.relatedInvoiceId == Some(invoice.id) && t.kind == InvoiceDebit
  }

  /** `students.find(s => s.id === invoice.studentId)`. */
  function FindStudent(students: seq<Student>, id: string): Option<Student> {
    Find(students, (s: Student) => s.id == id)
  }

  /** The predicate of the `transactions.find` for the invoice's debit. */
  function DebitOf(invoice: Invoice): Transaction -> bool {
    t => IsDebitOf(t, invoice)
  }

  /** The amount by which `invoice` changed the balance: that of the first matching
      invoice-debit transaction, or `-invoice.amount` when there is none. */
  function InvoiceDebitAmount(transactions: seq<Transaction>, invoice: Invoice): int {
    match Find(transactions, DebitOf(invoice))
    case Some(t) => t.amount
    case None => -invoice.amount
  }

  /** The balance just before the invoice: the current balance with the invoice's
      debit reversed. */
  function BalanceBeforeInvoice(student: Student, transactions: seq<Transaction>, invoice: Invoice): (b: int)
    ensures (forall i :: 0 <= i < |transactions| ==> !IsDebitOf(transactions[i], invoice)) ==>
      b == student.balance + invoice.amount
    ensures forall i :: (0 <= i < |transactions| && IsDebitOf(transactions[i], invoice) &&
      (forall j :: 0 <= j < i ==> !IsDebitOf(transactions[j], invoice))) ==>
      b == student.balance - transactions[i].amount
  {
    assert forall i :: (0 <= i < |transactions| && IsDebitOf(transactions[i], invoice) &&
      (forall j :: 0 <= j < i ==> !IsDebitOf(transactions[j], invoice))) ==>
      InvoiceDebitAmount(transactions, invoice) == transactions[i].amount by {
      forall i | 0 <= i < |transactions| && IsDebitOf(transactions[i], invoice) &&
        (forall j :: 0 <= j < i ==> !IsDebitOf(transactions[j], invoice))
        ensures InvoiceDebitAmount(transactions, invoice) == transactions[i].amount
      {
        FindFirst(transactions, DebitOf(invoice), i);
      }
    }
    student.balance - InvoiceDebitAmount(transactions, invoice)
  }

  datatype NoticeFigures = NoticeFigures(outstandingDebt: int, openingCredit: int, totalDue: int)

  /** The figures of a notice from the pre-invoice balance and the invoice amount. */
  function Figures(balanceBefore: int, invoiceAmount: int): (f: NoticeFigures)
    ensures f.outstandingDebt >= 0 && f.openingCredit >= 0
    ensures f.outstandingDebt == 0 || f.openingCredit == 0
    ensures f.outstandingDebt - f.openingCredit == -balanceBefore
    ensures f.totalDue >= 0
    ensures f.totalDue >= f.outstandingDebt + invoiceAmount - f.openingCredit
    ensures f.totalDue == 0 || f.totalDue == f.outstandingDebt + invoiceAmount - f.openingCredit
    ensures f.totalDue == if invoiceAmount > balanceBefore then invoiceAmount - balanceBefore else 0
  {
    var outstandingDebt := if balanceBefore < 0 then -balanceBefore else 0;
    var openingCredit := if balanceBefore > 0 then balanceBefore else 0;
    var totalDue := outstandingDebt + invoiceAmount - openingCredit;
    NoticeFigures(outstandingDebt, openingCredit, if totalDue > 0 then totalDue else 0)
  }

  /** The total due grows with the new charge and shrinks with the credit carried
      into the period. */
  lemma TotalDueMonotone(b1: int, b2: int, a1: int, a2: int)
    requires a1 <= a2 && b2 <= b1
    ensures Figures(b1, a1).totalDue <= Figures(b2, a2).totalDue
  {
  }

  /** `financialData`: all zero when the invoice's student does not exist. */
  function FinancialData(students: seq<Student>, transactions: seq<Transaction>, invoice: Invoice): (f: NoticeFigures)
    ensures (forall i :: 0 <= i < |students| ==> students[i].id != invoice.studentId) ==>
      f == NoticeFigures(0, 0, 0)
    ensures forall s :: FindStudent(students, invoice.studentId) == Some(s) ==>
      s in students && s.id == invoice.studentId &&
      f == Figures(BalanceBeforeInvoice(s, transactions, invoice), invoice.amount)
  {
    match FindStudent(students, invoice.studentId)
    case None => NoticeFigures(0, 0, 0)
    case Some(s) => Figures(BalanceBeforeInvoice(s, transactions, invoice), invoice.amount)
  }

  /** When the invoice's debit is exactly its amount (in particular when no linked
      transaction exists), the total due is the student's current debt. */
  lemma TotalDueIsCurrentDebt(students: seq<Student>, transactions: seq<Transaction>, invoice: Invoice, s: Student)
    requires FindStudent(students, invoice.studentId) == Some(s)
    requires InvoiceDebitAmount(transactions, invoice) == -invoice.amount
    ensures FinancialData(students, transactions, invoice).totalDue == if s.balance < 0 then -s.balance else 0
  {
  }

  // ---------------------------------------------------------------------------
  // Transfer reference and QR request
  // ---------------------------------------------------------------------------

  /** The `MM` of `invoice.month.split('-')`; a month without a dash yields the
      text of `undefined`, as a template literal renders it. */
  function MonthPart(month: string): string {
    var parts := Split(month, '-');
    if |parts| > 1 then parts[1] else "undefined"
  }

  /** The transfer reference `<name>HP<MM><YY>` shown on the notice and sent as
      the QR description. */
  function TransferReference(studentName: string, month: string): string {
    NormalizeInfoName(studentName) + ("HP" + MonthPart(month) + LastTwo(Split(month, '-')[0]))
  }

  /** For a well-formed `YYYY-MM` key the reference ends in the month and the last
      two digits of the year. */
  lemma TransferReferenceOfMonthKey(studentName: string, month: string, year: string, mm: string)
    requires month == year + "-" + mm && '-' !in year && '-' !in mm
    ensures TransferReference(studentName, month) == NormalizeInfoName(studentName) + ("HP" + mm + LastTwo(year))
  {
    assert Join([year, mm], "-") == year + "-" + mm;
    SplitJoin([year, mm], '-');
  }

  /** The invoice of March 2024 carries the reference `<name>HP0324`. */
  lemma TransferReferenceExample(studentName: string, month: string)
    requires month == "2024-03"
    ensures TransferReference(studentName, month) == NormalizeInfoName(studentName) + "HP0324"
  {
    var year, mm := "2024", "03";
    assert month == year + "-" + mm && '-' !in year && '-' !in mm;
    TransferReferenceOfMonthKey(studentName, month, year, mm);
    MarchSuffix();
  }

  /** The part after the name for March 2024. */
  lemma MarchSuffix()
    ensures "HP" + "03" + LastTwo("2024") == "HP0324"
  {
    assert LastTwo("2024") == "24";
  }

  /** The image request: the VietQR path and the query parameters in order (their
      percent-encoding is not modelled). */
  datatype QrRequest = QrRequest(imageUrl: string, query: seq<(string, string)>)

  /** `qrCodeUrl`. */
  function QrCode(settings: CenterSettings, student: Option<Student>, invoice: Invoice, totalDue: int): (r: Option<QrRequest>)
    ensures r.None? <==>
      settings.bankAccountNumber == "" || settings.bankBin == "" || student.None? || totalDue <= 0
    ensures r.Some? ==>
      && r.value.imageUrl ==
        "https://img.vietqr.io/image/" + settings.bankBin + "-" + settings.bankAccountNumber + "-compact2.png"
      && |r.value.query| == (if settings.bankAccountHolder == "" then 2 else 3)
      && r.value.query[0].0 == "amount"
      && (forall i :: 0 <= i < |r.value.query[0].1| ==> IsDigit(r.value.query[0].1[i]))
      && DecimalValue(r.value.query[0].1) == totalDue
      && r.value.query[1] == ("addInfo", TransferReference(student.value.name, invoice.month))
      && (settings.bankAccountHolder != "" ==>
            r.value.query[2] == ("accountName", NormalizeAccountName(settings.bankAccountHolder)))
  {
    if settings.bankAccountNumber == "" || settings.bankBin == "" || student.None? || totalDue <= 0 then None
    else
      var description := TransferReference(student.value.name, invoice.month);
      var params := [("amount", DecimalString(totalDue)), ("addInfo", description)];
      var params := if settings.bankAccountHolder != "" then
          params + [("accountName", NormalizeAccountName(settings.bankAccountHolder))]
        else params;
      DecimalRoundTrip(totalDue);
      Some(QrRequest(
        "https://img.vietqr.io/image/" + settings.bankBin + "-" + settings.bankAccountNumber + "-compact2.png",
        params))
  }

  /** What the notice shows: the figures, the transfer reference and the QR
      request; `None` is the "student does not exist" placeholder. */
  datatype Notice = Notice(figures: NoticeFigures, reference: string, qr: Option<QrRequest>)

  function RenderNotice(students: seq<Student>, transactions: seq<Transaction>, settings: CenterSettings, invoice: Invoice): (r: Option<Notice>)
    ensures r.None? <==> forall i :: 0 <= i < |students| ==> students[i].id != invoice.studentId
    ensures r.Some? ==> r.value.figures == FinancialData(students, transactions, invoice)
    ensures r.Some? && r.value.qr.Some? ==>
      |r.value.qr.value.query| >= 2 && r.value.qr.value.query[1] == ("addInfo", r.value.reference) && r.value.figures.totalDue > 0
    ensures r.Some? ==> (r.value.qr.None? <==>
      settings.bankAccountNumber == "" || settings.bankBin == "" || r.value.figures.totalDue == 0)
    ensures forall s :: FindStudent(students, invoice.studentId) == Some(s) ==>
      r.Some? && r.value.reference == TransferReference(s.name, invoice.month) &&
      r.value.qr == QrCode(settings, Some(s), invoice, r.value.figures.totalDue)
  {
    var student := FindStudent(students, invoice.studentId);
    var figures := FinancialData(students, transactions, invoice);
    var qr := QrCode(settings, student, invoice, figures.totalDue);
    match student
    case None => None
    case Some(s) => Some(Notice(figures, TransferReference(s.name, invoice.month), qr))
  }

  /** Without a matching student there is no QR request either. */
  lemma NoStudentNoQr(students: seq<Student>, transactions: seq<Transaction>, settings: CenterSettings, invoice: Invoice)
    requires forall i :: 0 <= i < |students| ==> students[i].id != invoice.studentId
    ensures QrCode(settings, FindStudent(students, invoice.studentId), invoice,
      FinancialData(students, transactions, invoice).totalDue).None?
  {
  }
}
