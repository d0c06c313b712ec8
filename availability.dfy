/** How many copies of a book can be lent: `BookAvailabilityManager` asks whichever provider
    it holds. The books plugin installs `DefaultBookAvailabilityProvider` (the stored copy
    count); the loans plugin swaps in `LoanedBooksAvailabilityProvider` (the stored count
    minus the loans still out). A provider reads the tables it was built over, which are
    passed in here. */
module Availability {
  import opened Wrappers
  import opened Books
  import opened Loans
  import opened Calendar

  datatype Provider = DefaultProvider | LoanedBooksProvider

  /** `DefaultBookAvailabilityProvider.provideAvailableCopies`: the book's copy count, or 0
      when the book is missing or its count is null. */
  function DefaultAvailableCopies(books: seq<Book>, bookId: int): (r: int)
    ensures FindById(books, bookId).Some? && FindById(books, bookId).value.copiesAvailable.Some? ==>
              r == FindById(books, bookId).value.copiesAvailable.value
    ensures FindById(books, bookId).None? || FindById(books, bookId).value.copiesAvailable.None? ==> r == 0
  {
    match FindById(books, bookId)
    case None => 0
    case Some(b) => b.copiesAvailable.GetOr(0)
  }

  /** `LoanedBooksAvailabilityProvider.provideAvailableCopies`: the same total, minus the
      book's loans still out; it goes negative when more are out than the total. */
  function LoanedAvailableCopies(books: seq<Book>, loans: seq<Loan>, bookId: int): (r: int)
    ensures r <= DefaultAvailableCopies(books, bookId)
    ensures r == DefaultAvailableCopies(books, bookId) <==>
              forall i :: 0 <= i < |loans| ==> !(loans[i].bookId == Some(bookId) && loans[i].returnDate.None?)
  {
    DefaultAvailableCopies(books, bookId) - CountByBookIdAndNotReturned(loans, bookId)
  }

  /** What the manager answers with `provider` installed. */
  function AvailableCopies(provider: Provider, books: seq<Book>, loans: seq<Loan>, bookId: int): int {
    match provider
    case DefaultProvider => DefaultAvailableCopies(books, bookId)
    case LoanedBooksProvider => LoanedAvailableCopies(books, loans, bookId)
  }

  /** Under the loans plugin's provider, returning a loan of a book frees one copy of it and
      changes no other book's availability. */
  lemma ReturnFreesOneCopy(books: seq<Book>, loans: seq<Loan>, i: nat, day: Date, bookId: int)
    requires i < |loans| && loans[i].returnDate.None? && loans[i].bookId.Some?
    ensures AvailableCopies(LoanedBooksProvider, books, loans[i := loans[i].(returnDate := Some(day))], bookId) ==
            AvailableCopies(LoanedBooksProvider, books, loans, bookId) + (if loans[i].bookId == Some(bookId) then 1 else 0)
  {
    ReturnLowersCount(loans, i, day, bookId);
  }

  /** Under the loans plugin's provider, a new loan of a book takes one copy of it away. */
  lemma {:induction false} LoanTakesOneCopy(books: seq<Book>, loans: seq<Loan>, loan: Loan, bookId: int)
    requires loan.returnDate.None? && loan.bookId == Some(bookId)
    ensures AvailableCopies(LoanedBooksProvider, books, loans + [loan], bookId) ==
            AvailableCopies(LoanedBooksProvider, books, loans, bookId) - 1
  {
    Query.FilterConcat(loans, [loan], OutFor(bookId));
    assert [loan][..0] == [];
  }

  /** The manager singleton's holder: `BookAvailabilityManager.instance`, null until a
      manager is constructed. */
  class ManagerSlot {
    var instance: Option<BookAvailabilityManager>

    constructor()
      ensures instance == None
    {
      instance := None;
    }
  }

  class BookAvailabilityManager {
    var provider: Provider

    /** A new manager starts with the default provider and becomes the singleton, replacing
        whichever manager was constructed before. */
    constructor(slot: ManagerSlot)
      modifies slot
      ensures provider == DefaultProvider
      ensures slot.instance == Some(this)
    {
      provider := DefaultProvider;
      new;
      slot.instance := Some(this);
    }

    /** `setProvider(p)`: every later query asks `p`. */
    method SetProvider(p: Provider)
      modifies this
      ensures provider == p
    {
      provider := p;
    }

    /** `getAvailableCopies(bookId)`: exactly the provider's answer. */
    method GetAvailableCopies(books: seq<Book>, loans: seq<Loan>, bookId: int) returns (r: int)
      ensures r == AvailableCopies(provider, books, loans, bookId)
    {
      match provider
      case DefaultProvider =>
        r := DefaultAvailableCopies(books, bookId);
      case LoanedBooksProvider =>
        var total := DefaultAvailableCopies(books, bookId);
        var loaned := CountByBookIdAndNotReturned(loans, bookId);
        r := total - loaned;
    }

    /** `isBookAvailable(bookId)`: the provider answers a positive count. */
    method IsBookAvailable(books: seq<Book>, loans: seq<Loan>, bookId: int) returns (available: bool)
      ensures available <==> AvailableCopies(provider, books, loans, bookId) > 0
    {
      var copies := GetAvailableCopies(books, loans, bookId);
      available := copies > 0;
    }
  }

  /** `LoanedBooksAvailabilityProvider.initialize()`: the singleton manager switches to the
      loans plugin's provider; with no manager constructed yet the call dereferences null. */
  method InitializeLoanedProvider(slot: ManagerSlot) returns (r: Outcome<string>)
    modifies if slot.instance.Some? then {slot.instance.value} else {}
    ensures r.Fail? <==> slot.instance.None?
    ensures r.Fail? ==> r.error == NullPointer
    ensures slot.instance.Some? ==> slot.instance.value.provider == LoanedBooksProvider
  {
    if slot.instance.None? {
      return Fail(NullPointer);
    }
    slot.instance.value.SetProvider(LoanedBooksProvider);
    return Pass;
  }
}
