/** `LoanService`: lending a book to a user and taking it back, over the `loans` table. The
    `users` and `books` tables it looks users and books up in belong to the other plugins
    and are passed in; availability is asked of the availability manager singleton as it
    stood when the service was built. */
module LoanServices {
  import opened Wrappers
  import opened Calendar
  import opened Loans
  import opened Availability
  import opened Pagination
  import Users
  import Books

  datatype LoanError =
    | ConstraintViolation
    | UserNotFound(userId: int)
    | BookNotFound(bookId: int)
    | UserAlreadyLoanedBook(userId: int, bookId: int)
    | BookNotAvailableToLoan(bookId: int)
    | LoanNotFound(loanId: int)
    | LoanAlreadyReturned(loanId: int, returnDate: Date)
    | NullPointer

  /** The loan `create` saves: made on `today`, linking the user and the book, not returned,
      under the id the table assigns. */
  function Lent(id: int, userId: int, bookId: int, today: Date): (l: Loan)
    ensures l.loanId == Some(id) && l.userId == Some(userId) && l.bookId == Some(bookId)
    ensures l.loanDate == Some(today) && l.returnDate.None?
  {
    NewLoan(today).(loanId := Some(id), userId := Some(userId), bookId := Some(bookId))
  }

  /** A new loan under the next id keeps the table well keyed and is what its id finds; the
      user now holds the book, so the same request fails until the loan is returned; and the
      book has one more loan out. */
  lemma {:induction false} LentIsOut(loans: seq<Loan>, nextId: int, userId: int, bookId: int, today: Date)
    requires WellKeyed(loans, nextId) && nextId >= 1
    ensures WellKeyed(loans + [Lent(nextId, userId, bookId, today)], nextId + 1)
    ensures Loans.IndexOfId(loans + [Lent(nextId, userId, bookId, today)], nextId) == Some(|loans|)
    ensures ExistsByUserIdAndBookIdAndNotReturned(loans + [Lent(nextId, userId, bookId, today)], userId, bookId)
    ensures CountByBookIdAndNotReturned(loans + [Lent(nextId, userId, bookId, today)], bookId) ==
            CountByBookIdAndNotReturned(loans, bookId) + 1
  {
    var l := Lent(nextId, userId, bookId, today);
    var after := loans + [l];
    assert after[|loans|] == l;
    Query.FilterConcat(loans, [l], OutFor(bookId));
    assert [l][..0] == [];
    Query.FirstMatchOfUnique(after, (x: Loan) => x.loanId == Some(nextId), |loans|);
  }

  /** A returned loan: only its return date is set. */
  function Returned(l: Loan, today: Date): (r: Loan)
    ensures r.returnDate == Some(today) && r.(returnDate := l.returnDate) == l
  {
    l.(returnDate := Some(today))
  }

  /** Returning a loan keeps the table well keyed and the loan where its id finds it, now
      returned, so a second return of it fails; its book has one loan fewer out. */
  lemma ReturnedStaysFound(loans: seq<Loan>, nextId: int, i: nat, today: Date)
    requires WellKeyed(loans, nextId) && i < |loans| && loans[i].returnDate.None? && loans[i].bookId.Some?
    ensures WellKeyed(loans[i := Returned(loans[i], today)], nextId)
    ensures Loans.IndexOfId(loans[i := Returned(loans[i], today)], loans[i].loanId.value) == Some(i)
    ensures CountByBookIdAndNotReturned(loans[i := Returned(loans[i], today)], loans[i].bookId.value) ==
            CountByBookIdAndNotReturned(loans, loans[i].bookId.value) - 1
  {
    var after := loans[i := Returned(loans[i], today)];
    assert WellKeyed(after, nextId);
    Query.FirstMatchOfUnique(after, (x: Loan) => x.loanId == Some(loans[i].loanId.value), i);
    ReturnLowersCount(loans, i, today, loans[i].bookId.value);
  }

  class LoanService {
    /** The `loans` table behind `LoanRepository`, and the id it hands out next. */
    var loans: seq<Loan>
    var nextId: int
    /** `BookAvailabilityManager.getInstance()` when the service was built: null if no
        manager had been constructed yet. */
    const manager: Option<BookAvailabilityManager>

    ghost predicate Valid()
      reads this
    {
      WellKeyed(loans, nextId) && nextId >= 1
    }

    constructor(loans: seq<Loan>, nextId: int, slot: ManagerSlot)
      requires WellKeyed(loans, nextId) && nextId >= 1
      ensures Valid() && this.loans == loans && this.nextId == nextId && manager == slot.instance
    {
      this.loans := loans;
      this.nextId := nextId;
      manager := slot.instance;
    }

    /** `create(request)` on `today`, in order: validation; the user must exist; the book must
        exist; the user must not hold the book already; the manager must report a copy
        available. Then the loan is saved under the next id. Deactivated users and books are
        still found. */
    method Create(req: CreateLoanRequest, users: seq<Users.User>, books: seq<Books.Book>, today: Date)
      returns (r: Result<Loan, LoanError>)
      requires Valid()
      modifies this
      ensures Valid()
      ensures r.Failure? ==> loans == old(loans) && nextId == old(nextId)
      ensures !CreateIsValid(req) ==> r == Failure(ConstraintViolation)
      ensures CreateIsValid(req) && Users.FindById(users, req.userId.value).None? ==>
                r == Failure(UserNotFound(req.userId.value))
      ensures CreateIsValid(req) && Users.FindById(users, req.userId.value).Some? &&
              Books.FindById(books, req.bookId.value).None? ==>
                r == Failure(BookNotFound(req.bookId.value))
      ensures CreateIsValid(req) && Users.FindById(users, req.userId.value).Some? &&
              Books.FindById(books, req.bookId.value).Some? &&
              ExistsByUserIdAndBookIdAndNotReturned(old(loans), req.userId.value, req.bookId.value) ==>
                r == Failure(UserAlreadyLoanedBook(req.userId.value, req.bookId.value))
      ensures CreateIsValid(req) && Users.FindById(users, req.userId.value).Some? &&
              Books.FindById(books, req.bookId.value).Some? &&
              !ExistsByUserIdAndBookIdAndNotReturned(old(loans), req.userId.value, req.bookId.value) ==>
                (manager.None? ==> r == Failure(NullPointer)) &&
                (manager.Some? && AvailableCopies(manager.value.provider, books, old(loans), req.bookId.value) <= 0 ==>
                   r == Failure(BookNotAvailableToLoan(req.bookId.value)))
      ensures r.Success? <==>
                CreateIsValid(req) && Users.FindById(users, req.userId.value).Some? &&
                Books.FindById(books, req.bookId.value).Some? &&
                !ExistsByUserIdAndBookIdAndNotReturned(old(loans), req.userId.value, req.bookId.value) &&
                manager.Some? && AvailableCopies(manager.value.provider, books, old(loans), req.bookId.value) > 0
      ensures r.Success? ==>
                r.value == Lent(old(nextId), req.userId.value, req.bookId.value, today) &&
                loans == old(loans) + [r.value] && nextId == old(nextId) + 1
    {
      if !CreateIsValid(req) {
        return Failure(ConstraintViolation);
      }
      var userId := req.userId.value;
      var bookId := req.bookId.value;
      var user := Users.FindById(users, userId);
      if user.None? {
        return Failure(UserNotFound(userId));
      }
      var book := Books.FindById(books, bookId);
      if book.None? {
        return Failure(BookNotFound(bookId));
      }
      if ExistsByUserIdAndBookIdAndNotReturned(loans, userId, bookId) {
        return Failure(UserAlreadyLoanedBook(userId, bookId));
      }
      if manager.None? {
        return Failure(NullPointer);
      }
      var available := manager.value.IsBookAvailable(books, loans, bookId);
      if !available {
        return Failure(BookNotAvailableToLoan(bookId));
      }
      var loan := Lent(nextId, userId, bookId, today);
      assert WellKeyed(loans + [loan], nextId + 1) by {
        LentIsOut(loans, nextId, userId, bookId, today);
      }
      loans := loans + [loan];
      nextId := nextId + 1;
      r := Success(loan);
    }

    /** `markAsReturned(loanId)` on `today`: a missing loan is not found, a returned one is
        refused with its return date; otherwise only the return date is set. */
    method MarkAsReturned(loanId: int, today: Date) returns (r: Outcome<LoanError>)
      requires Valid()
      modifies this
      ensures Valid() && nextId == old(nextId)
      ensures r.Fail? ==> loans == old(loans)
      ensures Loans.IndexOfId(old(loans), loanId).None? <==> r == Fail(LoanNotFound(loanId))
      ensures Loans.IndexOfId(old(loans), loanId).Some? && old(loans)[Loans.IndexOfId(old(loans), loanId).value].returnDate.Some? ==>
                r == Fail(LoanAlreadyReturned(loanId, old(loans)[Loans.IndexOfId(old(loans), loanId).value].returnDate.value))
      ensures r.Pass? <==>
                Loans.IndexOfId(old(loans), loanId).Some? && old(loans)[Loans.IndexOfId(old(loans), loanId).value].returnDate.None?
      ensures r.Pass? ==>
                Loans.IndexOfId(old(loans), loanId).Some? &&
                loans == old(loans)[Loans.IndexOfId(old(loans), loanId).value :=
                                      Returned(old(loans)[Loans.IndexOfId(old(loans), loanId).value], today)]
    {
      var found := Loans.IndexOfId(loans, loanId);
      if found.None? {
        return Fail(LoanNotFound(loanId));
      }
      var i := found.value;
      var loan := loans[i];
      if loan.returnDate.Some? {
        return Fail(LoanAlreadyReturned(loanId, loan.returnDate.value));
      }
      var after := loans[i := Returned(loan, today)];
      assert WellKeyed(after, nextId);
      loans := after;
      return Pass;
    }

    /** `findAll(page, size)`: one page of every loan, returned or not. */
    method FindAll(page: nat, size: nat) returns (r: PageResponse<Loan>)
      ensures r == Loans.FindAll(loans, page, size)
    {
      r := Loans.FindAll(loans, page, size);
    }
  }
}
