/** The loans plugin's data: the `Loan` entity and its status rule, the create request's
    constraints, and the queries `LoanRepository` runs over the `loans` table (rows in table
    order) together with the `books` table. */
module Loans {
  import opened Wrappers
  import opened Calendar
  import opened Query
  import opened Validation
  import opened Pagination
  import Books

  /** `Loan.MAX_LOAN_DAYS`: a loan runs for 7 days. */
  const MaxLoanDays: nat := 7

  /** A loan row: its id, the ids of the user and the book it links (null until set), the day
      it was made and the day it was returned (null while it is out). */
  datatype Loan = Loan(loanId: Option<int>, userId: Option<int>, bookId: Option<int>,
                       loanDate: Option<Date>, returnDate: Option<Date>)

  /** `new Loan()` on `today`: dated today, linked to nothing, not returned. */
  function NewLoan(today: Date): (l: Loan)
    ensures l.loanDate == Some(today) && l.returnDate.None?
    ensures l.loanId.None? && l.userId.None? && l.bookId.None?
  {
    Loan(None, None, None, Some(today), None)
  }

  /** What `getStatus()` reports; the text around the day counts is not modelled. */
  datatype Status = Loaned | Overdue(days: int) | ReturnedLate(days: int) | ReturnedOnTime

  /** The dates involved are real calendar days. */
  predicate DatesValid(l: Loan, today: Date) {
    Valid(today) &&
    (l.loanDate.Some? ==> Valid(l.loanDate.value)) &&
    (l.returnDate.Some? ==> Valid(l.returnDate.value))
  }

  /** The last day of the loan period: `loanDate.plusDays(MAX_LOAN_DAYS)`. */
  function DueDate(loanDate: Date): (r: Date)
    requires Valid(loanDate)
    ensures Valid(r) && IsAfter(r, loanDate)
  {
    PlusDaysAdvances(loanDate, MaxLoanDays);
    PlusDays(loanDate, MaxLoanDays)
  }

  /** `getStatus()` as written: the days late are the difference of the two days of the year,
      and a returned loan without a loan date dereferences null. */
  function GetStatusAsWritten(l: Loan, today: Date): (r: Result<Status, string>)
    requires DatesValid(l, today)
    ensures r.Failure? <==> l.returnDate.Some? && l.loanDate.None?
    ensures r.Success? && r.value.Overdue? ==>
              l.returnDate.None? && l.loanDate.Some? && r.value.days == today.dayOfYear - DueDate(l.loanDate.value).dayOfYear
    ensures r.Success? && r.value.ReturnedLate? ==>
              l.returnDate.Some? && l.loanDate.Some? &&
              r.value.days == l.returnDate.value.dayOfYear - DueDate(l.loanDate.value).dayOfYear
  {
    if l.returnDate.None? then
      if l.loanDate.Some? && IsAfter(today, DueDate(l.loanDate.value)) then
        Success(Overdue(today.dayOfYear - DueDate(l.loanDate.value).dayOfYear))
      else Success(Loaned)
    else if l.loanDate.None? then Failure(NullPointer)
    else
      var limit := DueDate(l.loanDate.value);
      if IsAfter(l.returnDate.value, limit) then
        Success(ReturnedLate(l.returnDate.value.dayOfYear - limit.dayOfYear))
      else Success(ReturnedOnTime)
  }

  /** `getStatus()` with the days late counted as calendar days past the due date. */
  function GetStatus(l: Loan, today: Date): (r: Result<Status, string>)
    requires DatesValid(l, today)
    ensures r.Failure? <==> l.returnDate.Some? && l.loanDate.None?
    ensures r == Success(Loaned) <==>
              l.returnDate.None? && (l.loanDate.None? || !IsAfter(today, DueDate(l.loanDate.value)))
    ensures r.Success? && r.value.Overdue? ==>
              l.returnDate.None? && l.loanDate.Some? && r.value.days > 0 && PlusDays(l.loanDate.value, MaxLoanDays + r.value.days) == today
    ensures r.Success? && r.value.ReturnedLate? ==>
              l.returnDate.Some? && l.loanDate.Some? && r.value.days > 0 && PlusDays(l.loanDate.value, MaxLoanDays + r.value.days) == l.returnDate.value
    ensures r == Success(ReturnedOnTime) <==>
              l.returnDate.Some? && l.loanDate.Some? && !IsAfter(l.returnDate.value, DueDate(l.loanDate.value))
  {
    if l.returnDate.None? then
      if l.loanDate.Some? && IsAfter(today, DueDate(l.loanDate.value)) then
        Success(Overdue(DaysLate(l.loanDate.value, today)))
      else Success(Loaned)
    else if l.loanDate.None? then Failure(NullPointer)
    else if IsAfter(l.returnDate.value, DueDate(l.loanDate.value)) then
      Success(ReturnedLate(DaysLate(l.loanDate.value, l.returnDate.value)))
    else Success(ReturnedOnTime)
  }

  /** The days from the due date to a later `day`. */
  function DaysLate(loanDate: Date, day: Date): (n: nat)
    requires Valid(loanDate) && Valid(day) && IsAfter(day, DueDate(loanDate))
    ensures n > 0 && PlusDays(loanDate, MaxLoanDays + n) == day
  {
    var due := DueDate(loanDate);
    DaysBetweenWithinYear(due, day);
    PlusDaysBetween(due, day);
    PlusDaysSplit(loanDate, MaxLoanDays, DaysBetween(due, day));
    DaysBetween(due, day)
  }

  /** While the due date and the day compared with it fall in one year, the rule as written
      counts the same days as the calendar. */
  lemma StatusAgreesWithinYear(l: Loan, today: Date)
    requires DatesValid(l, today) && l.loanDate.Some?
    requires l.returnDate.None? ==> today.year == DueDate(l.loanDate.value).year
    requires l.returnDate.Some? ==> l.returnDate.value.year == DueDate(l.loanDate.value).year
    ensures GetStatusAsWritten(l, today) == GetStatus(l, today)
  {
    var due := DueDate(l.loanDate.value);
    if l.returnDate.None? && IsAfter(today, due) {
      DaysBetweenWithinYear(due, today);
    } else if l.returnDate.Some? && IsAfter(l.returnDate.value, due) {
      DaysBetweenWithinYear(due, l.returnDate.value);
    }
  }

  /** A loan made on 15 December 2024 (day 350 of a leap year) and still out on 3 January
      2025 is 12 days overdue, but the rule as written reports -354 days. */
  lemma OverdueAcrossNewYear()
    ensures GetStatusAsWritten(Loan(None, None, None, Some(Date(2024, 350)), None), Date(2025, 3)) == Success(Overdue(-354))
    ensures GetStatus(Loan(None, None, None, Some(Date(2024, 350)), None), Date(2025, 3)) == Success(Overdue(12))
  {
    var due := DueDate(Date(2024, 350));
    assert due == Date(2024, 357);
    assert DaysBetween(Date(2025, 1), Date(2025, 3)) == 2;
    assert DaysBetween(due, Date(2025, 3)) == 12;
  }

  /** The body of a create request. */
  datatype CreateLoanRequest = CreateLoanRequest(userId: Option<int>, bookId: Option<int>)

  /** Both ids present and at least 1. */
  predicate CreateIsValid(req: CreateLoanRequest) {
    PresentAtLeast(req.userId, 1) && PresentAtLeast(req.bookId, 1)
  }

  /** Loans of `bookId` still out. */
  function OutFor(bookId: int): Loan -> bool {
    (l: Loan) => l.bookId == Some(bookId) && l.returnDate.None?
  }

  /** `countByBookIdAndNotReturned(bookId)`. */
  function CountByBookIdAndNotReturned(loans: seq<Loan>, bookId: int): (r: nat)
    ensures r == |Filter(loans, OutFor(bookId))|
    ensures r == 0 <==> forall i :: 0 <= i < |loans| ==> !(loans[i].bookId == Some(bookId) && loans[i].returnDate.None?)
  {
    CountIsFilterLength(loans, OutFor(bookId));
    Count(loans, OutFor(bookId))
  }

  /** Returning a loan lowers its book's count of loans out by one, and a loan's return
      never changes any other book's count. */
  lemma {:induction false} ReturnLowersCount(loans: seq<Loan>, i: nat, day: Date, bookId: int)
    requires i < |loans| && loans[i].returnDate.None? && loans[i].bookId.Some?
    ensures CountByBookIdAndNotReturned(loans[i := loans[i].(returnDate := Some(day))], bookId) ==
            CountByBookIdAndNotReturned(loans, bookId) - (if loans[i].bookId == Some(bookId) then 1 else 0)
  {
    var after := loans[i := loans[i].(returnDate := Some(day))];
    var p := OutFor(bookId);
    assert loans == loans[..i] + [loans[i]] + loans[i + 1..];
    assert after == loans[..i] + [after[i]] + loans[i + 1..];
    FilterConcat(loans[..i] + [loans[i]], loans[i + 1..], p);
    FilterConcat(loans[..i], [loans[i]], p);
    FilterConcat(loans[..i] + [after[i]], loans[i + 1..], p);
    FilterConcat(loans[..i], [after[i]], p);
    assert [loans[i]][..0] == [] && [after[i]][..0] == [];
  }

  /** `existsByUserIdAndBookIdAndNotReturned(userId, bookId)`: `COUNT(l) > 0` over the user's
      loans of the book still out. */
  function ExistsByUserIdAndBookIdAndNotReturned(loans: seq<Loan>, userId: int, bookId: int): (r: bool)
    ensures r <==> exists i :: 0 <= i < |loans| && loans[i].userId == Some(userId) &&
                              loans[i].bookId == Some(bookId) && loans[i].returnDate.None?
  {
    var p := (l: Loan) => l.userId == Some(userId) && l.bookId == Some(bookId) && l.returnDate.None?;
    CountIsFilterLength(loans, p);
    Count(loans, p) > 0
  }

  /** `findAllByBookIdAndNotReturned(bookId, page, size)`: one page of the book's loans still
      out, and how many there are in all. */
  function FindAllByBookIdAndNotReturned(loans: seq<Loan>, bookId: int, page: nat, size: nat): (r: PageResponse<Loan>)
    ensures r.page == page && r.size == size
    ensures r.totalElements == CountByBookIdAndNotReturned(loans, bookId)
    ensures |r.content| <= size
    ensures forall i :: 0 <= i < |r.content| ==> r.content[i] in loans &&
                                                 r.content[i].bookId == Some(bookId) && r.content[i].returnDate.None?
    ensures r.content == Slice(Filter(loans, OutFor(bookId)), page * size, size)
  {
    var out := Filter(loans, OutFor(bookId));
    PageResponse(page, size, CountByBookIdAndNotReturned(loans, bookId), Slice(out, page * size, size))
  }

  /** `findAll(PageRequest.of(page, size))` over every loan. */
  function FindAll(loans: seq<Loan>, page: nat, size: nat): (r: PageResponse<Loan>)
    ensures r.page == page && r.size == size
    ensures r.totalElements == |loans| && |r.content| <= size
    ensures page * size >= |loans| ==> r.content == []
    ensures page * size <= |loans| ==>
              |r.content| == if |loans| - page * size < size then |loans| - page * size else size
    ensures forall i :: 0 <= i < |r.content| ==> page * size + i < |loans| && r.content[i] == loans[page * size + i]
  {
    PageResponse(page, size, |loans|, Slice(loans, page * size, size))
  }

  /** The ids of the books with a loan still out, each once, in order of first such loan
      (`SELECT DISTINCT b.id ... WHERE l.returnDate IS NULL`). */
  function LoanedBookIds(loans: seq<Loan>): (r: seq<int>)
    ensures forall id :: id in r <==> exists i :: 0 <= i < |loans| && loans[i].bookId == Some(id) && loans[i].returnDate.None?
    ensures forall i, j :: 0 <= i < j < |r| ==> r[i] != r[j]
    decreases |loans|
  {
    if loans == [] then []
    else
      var n := |loans| - 1;
      var before := LoanedBookIds(loans[..n]);
      assert forall i :: 0 <= i < n ==> loans[..n][i] == loans[i];
      var l := loans[n];
      if l.returnDate.None? && l.bookId.Some? && l.bookId.value !in before then before + [l.bookId.value] else before
  }

  /** One row of the loaned-books report. */
  datatype LoanedBookInformation = LoanedBookInformation(bookId: int, title: Option<string>,
                                                         availableCopies: int, loanedCopies: int, totalCopies: int)

  /** `row` is the report row of book `b`: its id and title, its copy count as the total,
      its loans still out as the loaned copies, and the difference as the available ones. */
  predicate RowOf(row: LoanedBookInformation, b: Books.Book, loans: seq<Loan>) {
    b.bookId.Some? && b.copiesAvailable.Some? &&
    row.bookId == b.bookId.value && row.title == b.title &&
    row.totalCopies == b.copiesAvailable.value &&
    row.loanedCopies == CountByBookIdAndNotReturned(loans, b.bookId.value) &&
    row.availableCopies == row.totalCopies - row.loanedCopies
  }

  /** The report rows for `books`, in table order; a null copy count fails the unboxing. */
  function InformationRows(books: seq<Books.Book>, loans: seq<Loan>): (r: Result<seq<LoanedBookInformation>, string>)
    requires forall i :: 0 <= i < |books| ==> books[i].bookId.Some?
    ensures r.Failure? <==> exists i :: 0 <= i < |books| && books[i].copiesAvailable.None?
    ensures r.Success? ==> |r.value| == |books|
    ensures r.Success? ==> forall i :: 0 <= i < |books| ==> RowOf(r.value[i], books[i], loans)
    decreases |books|
  {
    if books == [] then Success([])
    else
      var b := books[0];
      var rest := InformationRows(books[1..], loans);
      assert forall i :: 1 <= i < |books| ==> books[i] == books[1..][i - 1];
      if b.copiesAvailable.None? then Failure(NullPointer)
      else if rest.Failure? then rest
      else
        var loaned := CountByBookIdAndNotReturned(loans, b.bookId.value);
        var total := b.copiesAvailable.value;
        Success([LoanedBookInformation(b.bookId.value, b.title, total - loaned, loaned, total)] + rest.value)
  }

  /** The page of distinct loaned book ids that `findLoanedBooks(page, size)` reads first. */
  function LoanedIdsPage(loans: seq<Loan>, page: nat, size: nat): (r: seq<int>)
    ensures |r| <= size
    ensures forall id :: id in r ==> id in LoanedBookIds(loans)
  {
    Slice(LoanedBookIds(loans), page * size, size)
  }

  /** The books whose id is on the page, in `books` table order (`WHERE b.id IN :ids`). */
  function Chosen(books: seq<Books.Book>, ids: seq<int>): (r: seq<Books.Book>)
    ensures forall i :: 0 <= i < |r| ==> r[i] in books && r[i].bookId.Some? && r[i].bookId.value in ids
    ensures forall i :: 0 <= i < |books| && books[i].bookId.Some? && books[i].bookId.value in ids ==> books[i] in r
  {
    Filter(books, (b: Books.Book) => b.bookId.Some? && b.bookId.value in ids)
  }

  /** The rows of the chosen books fail exactly when some book on the page has a null copy
      count. */
  lemma ChosenRowsFail(books: seq<Books.Book>, ids: seq<int>, loans: seq<Loan>)
    requires forall i :: 0 <= i < |books| ==> books[i].bookId.Some?
    ensures InformationRows(Chosen(books, ids), loans).Failure? <==>
              exists i :: 0 <= i < |books| && books[i].bookId.value in ids && books[i].copiesAvailable.None?
  {
    var chosen := Chosen(books, ids);
    if k :| 0 <= k < |chosen| && chosen[k].copiesAvailable.None? {
      var i :| 0 <= i < |books| && books[i] == chosen[k];
      assert books[i].bookId.value in ids && books[i].copiesAvailable.None?;
    }
    if i :| 0 <= i < |books| && books[i].bookId.value in ids && books[i].copiesAvailable.None? {
      var k :| 0 <= k < |chosen| && chosen[k] == books[i];
      assert chosen[k].copiesAvailable.None?;
    }
  }

  /** Every book on the page has its row among the chosen books' rows. */
  lemma ChosenRowsCover(books: seq<Books.Book>, ids: seq<int>, loans: seq<Loan>, rows: seq<LoanedBookInformation>)
    requires forall i :: 0 <= i < |books| ==> books[i].bookId.Some?
    requires InformationRows(Chosen(books, ids), loans) == Success(rows)
    ensures forall i :: 0 <= i < |books| && books[i].bookId.value in ids ==>
              exists j :: 0 <= j < |rows| && RowOf(rows[j], books[i], loans)
  {
    var chosen := Chosen(books, ids);
    forall i | 0 <= i < |books| && books[i].bookId.value in ids
      ensures exists j :: 0 <= j < |rows| && RowOf(rows[j], books[i], loans)
    {
      var k :| 0 <= k < |chosen| && chosen[k] == books[i];
      assert RowOf(rows[k], chosen[k], loans);
    }
  }

  /** Every row of the chosen books is the row of a book on the page. */
  lemma ChosenRowsAreOnPage(books: seq<Books.Book>, ids: seq<int>, loans: seq<Loan>, rows: seq<LoanedBookInformation>)
    requires forall i :: 0 <= i < |books| ==> books[i].bookId.Some?
    requires InformationRows(Chosen(books, ids), loans) == Success(rows)
    ensures forall j :: 0 <= j < |rows| ==>
              exists i :: 0 <= i < |books| && books[i].bookId.value in ids && RowOf(rows[j], books[i], loans)
  {
    var chosen := Chosen(books, ids);
    forall j | 0 <= j < |rows|
      ensures exists i :: 0 <= i < |books| && books[i].bookId.value in ids && RowOf(rows[j], books[i], loans)
    {
      var i :| 0 <= i < |books| && books[i] == chosen[j];
      assert RowOf(rows[j], chosen[j], loans);
    }
  }

  /** `findLoanedBooks(page, size)`: the page of distinct loaned book ids; an empty page
      answers a total of 0. Otherwise the result fails exactly when a book on the page has a
      null copy count, and else holds one row for each book on the page (in `books` table
      order), every row with a loan out, and the number of distinct loaned books. */
  function FindLoanedBooks(loans: seq<Loan>, books: seq<Books.Book>, page: nat, size: nat): (r: Result<PageResponse<LoanedBookInformation>, string>)
    requires forall i :: 0 <= i < |books| ==> books[i].bookId.Some?
    ensures LoanedIdsPage(loans, page, size) == [] ==> r == Success(PageResponse(page, size, 0, []))
    ensures LoanedIdsPage(loans, page, size) != [] ==>
              (r.Failure? <==> exists i :: 0 <= i < |books| && books[i].bookId.value in LoanedIdsPage(loans, page, size) &&
                                            books[i].copiesAvailable.None?)
    ensures LoanedIdsPage(loans, page, size) != [] && r.Success? ==>
              r.value.page == page && r.value.size == size &&
              r.value.totalElements == |LoanedBookIds(loans)| &&
              (forall i :: 0 <= i < |books| && books[i].bookId.value in LoanedIdsPage(loans, page, size) ==>
                 exists j :: 0 <= j < |r.value.content| && RowOf(r.value.content[j], books[i], loans)) &&
              (forall j :: 0 <= j < |r.value.content| ==>
                 (exists i :: 0 <= i < |books| && books[i].bookId.value in LoanedIdsPage(loans, page, size) &&
                              RowOf(r.value.content[j], books[i], loans)) &&
                 r.value.content[j].loanedCopies >= 1)
  {
    var ids := LoanedIdsPage(loans, page, size);
    if ids == [] then Success(PageResponse(page, size, 0, []))
    else
      var chosen := Chosen(books, ids);
      var rows := InformationRows(chosen, loans);
      ChosenRowsFail(books, ids, loans);
      if rows.Failure? then Failure(rows.error)
      else
        ChosenRowsCover(books, ids, loans, rows.value);
        ChosenRowsAreOnPage(books, ids, loans, rows.value);
        LoanedRowsAreOut(loans, ids, chosen, rows.value);
        Success(PageResponse(page, size, |LoanedBookIds(loans)|, rows.value))
  }

  /** Every book on a page of loaned books has at least one loan out. */
  lemma LoanedRowsAreOut(loans: seq<Loan>, ids: seq<int>, chosen: seq<Books.Book>, rows: seq<LoanedBookInformation>)
    requires forall id :: id in ids ==> id in LoanedBookIds(loans)
    requires forall i :: 0 <= i < |chosen| ==> chosen[i].bookId.Some? && chosen[i].bookId.value in ids
    requires InformationRows(chosen, loans) == Success(rows)
    ensures forall i :: 0 <= i < |rows| ==> rows[i].bookId in ids && rows[i].loanedCopies >= 1
  {
    forall i | 0 <= i < |rows|
      ensures rows[i].bookId in ids && rows[i].loanedCopies >= 1
    {
      var id := chosen[i].bookId.value;
      assert RowOf(rows[i], chosen[i], loans);
      assert id in LoanedBookIds(loans);
      var k :| 0 <= k < |loans| && loans[k].bookId == Some(id) && loans[k].returnDate.None?;
      assert rows[i].loanedCopies == CountByBookIdAndNotReturned(loans, id);
    }
  }

  /** Ids in the loans table are unique and below `nextId`. */
  predicate WellKeyed(loans: seq<Loan>, nextId: int) {
    (forall i :: 0 <= i < |loans| ==> loans[i].loanId.Some? && 1 <= loans[i].loanId.value < nextId) &&
    (forall i, j :: 0 <= i < j < |loans| ==> loans[i].loanId != loans[j].loanId)
  }

  /** The position of the loan with id `id`. */
  function IndexOfId(loans: seq<Loan>, id: int): (r: Option<nat>)
    ensures r.Some? ==> r.value < |loans| && loans[r.value].loanId == Some(id)
    ensures r.None? <==> forall i :: 0 <= i < |loans| ==> loans[i].loanId != Some(id)
  {
    IndexWhere(loans, (l: Loan) => l.loanId == Some(id))
  }
}
