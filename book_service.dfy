/** `BookService`: creating, editing and soft-deleting books over the `books` table, with
    ISBN uniqueness and the guard that keeps the copy count above the copies out on loan. */
module BookServices {
  import opened Wrappers
  import opened Calendar
  import opened Books
  import opened Availability
  import opened Pagination
  import Loans

  datatype BookError =
    | ConstraintViolation
    | IsbnAlreadyExisting(isbn: string)
    | BookNotFound(bookId: int)
    | BookWithLockedCopies(bookId: int, shortfall: int)
    | NullPointer
      /** The table's unique `isbn` column refused the row being saved. */
    | UniqueViolation

  /** The body of an edit request. Its constraint annotations are not part of this model:
      whether it passed validation is given alongside it. */
  datatype EditBookRequest = EditBookRequest(isbn: Option<string>, title: Option<string>, author: Option<string>,
                                             publishedYear: Option<int>, copiesAvailable: Option<int>)

  /** `ensureIsbnIsUnique(isbn, excluded)` fails: the book holding the ISBN is not the
      excluded one (a null exclusion excludes nothing). */
  predicate IsbnTaken(rows: seq<Book>, isbn: string, excluded: Option<int>) {
    FindByIsbn(rows, isbn).Some? && FindByIsbn(rows, isbn).value.bookId != excluded
  }

  /** In a well-keyed table, an ISBN is taken exactly when some book other than the excluded
      one holds it. */
  lemma IsbnTakenIff(rows: seq<Book>, nextId: int, isbn: string, excluded: Option<int>)
    requires WellKeyed(rows, nextId)
    ensures IsbnTaken(rows, isbn, excluded) <==>
              exists i :: 0 <= i < |rows| && rows[i].isbn == Some(isbn) && rows[i].bookId != excluded
  {
    if i :| 0 <= i < |rows| && rows[i].isbn == Some(isbn) && rows[i].bookId != excluded {
      LookupsFindTheRow(rows, nextId, i);
    }
  }

  /** The copies of a book that its edit must keep: its stored total minus what the manager
      reports available (`ensureBookIsNotLocked`). */
  function LockedCopies(provider: Provider, rows: seq<Book>, loans: seq<Loans.Loan>, book: Book): int
    requires book.bookId.Some? && book.copiesAvailable.Some?
  {
    book.copiesAvailable.value - AvailableCopies(provider, rows, loans, book.bookId.value)
  }

  /** Under the default provider nothing is locked; under the loans plugin's provider the
      locked copies are exactly the loans of the book still out. */
  lemma LockedCopiesByProvider(rows: seq<Book>, nextId: int, loans: seq<Loans.Loan>, i: nat)
    requires WellKeyed(rows, nextId) && i < |rows| && rows[i].copiesAvailable.Some?
    ensures LockedCopies(DefaultProvider, rows, loans, rows[i]) == 0
    ensures LockedCopies(LoanedBooksProvider, rows, loans, rows[i]) ==
            Loans.CountByBookIdAndNotReturned(loans, rows[i].bookId.value)
  {
    LookupsFindTheRow(rows, nextId, i);
  }

  /** The book `create` saves for a valid request, given the id the table assigns. */
  function Created(req: CreateBookRequest, id: int): (b: Book)
    requires CreateIsValid(req)
    ensures b.bookId == Some(id) && IsActive(b)
    ensures b.isbn == req.isbn && b.title == req.title && b.author == req.author
    ensures b.publishedYear == req.publishedYear && b.copiesAvailable == req.copiesAvailable
  {
    NewBook().(bookId := Some(id), title := req.title, author := req.author, isbn := req.isbn,
               publishedYear := req.publishedYear, copiesAvailable := req.copiesAvailable)
  }

  /** Appending a book whose ISBN is free, under the next id, keeps the table well keyed, and
      the book is then what its id and its ISBN find. */
  lemma CreatedIsFound(rows: seq<Book>, nextId: int, b: Book)
    requires WellKeyed(rows, nextId) && nextId >= 1
    requires b.bookId == Some(nextId) && b.isbn.Some? && !IsbnTaken(rows, b.isbn.value, None)
    ensures WellKeyed(rows + [b], nextId + 1)
    ensures FindById(rows + [b], nextId) == Some(b) && FindByIsbn(rows + [b], b.isbn.value) == Some(b)
  {
    IsbnTakenIff(rows, nextId, b.isbn.value, None);
    LookupsFindTheRow(rows + [b], nextId + 1, |rows|);
  }

  /** A deleted book: its ISBN rewritten to the tombstone and its deactivation recorded. */
  function Deactivated(b: Book, now: Date): (r: Book)
    requires b.bookId.Some? && b.bookId.value >= 1 && b.isbn.Some?
    ensures !IsActive(r) && r.bookId == b.bookId && r.isbn == Some(Tombstone(b.isbn.value, b.bookId.value))
    ensures r.title == b.title && r.author == b.author && r.copiesAvailable == b.copiesAvailable
  {
    b.(isbn := Some(Tombstone(b.isbn.value, b.bookId.value)), deactivatedAt := Some(now))
  }

  /** Once a book is deleted its old ISBN is free again, it is no longer listed, it is still
      found by id (so a second delete fails), and the table stays well keyed. */
  lemma DeletionFreesIsbn(rows: seq<Book>, nextId: int, i: nat, now: Date)
    requires WellKeyed(rows, nextId) && i < |rows|
    requires FindByIsbn(rows, Tombstone(rows[i].isbn.value, rows[i].bookId.value)).None?
    ensures WellKeyed(rows[i := Deactivated(rows[i], now)], nextId)
    ensures FindByIsbn(rows[i := Deactivated(rows[i], now)], rows[i].isbn.value).None?
    ensures FindById(rows[i := Deactivated(rows[i], now)], rows[i].bookId.value) == Some(Deactivated(rows[i], now))
    ensures Deactivated(rows[i], now) !in FindAllNonDeactivated(rows[i := Deactivated(rows[i], now)])
  {
    var after := rows[i := Deactivated(rows[i], now)];
    TombstonesDiffer(rows[i].isbn.value, rows[i].bookId.value, rows[i].bookId.value);
    assert WellKeyed(after, nextId);
    LookupsFindTheRow(after, nextId, i);
  }

  /** The book `edit` saves: title, author, year and copy count from the request; the ISBN
      and everything else as stored. */
  function Edited(b: Book, req: EditBookRequest): (r: Book)
    ensures r.bookId == b.bookId && r.isbn == b.isbn && r.deactivatedAt == b.deactivatedAt
    ensures r.title == req.title && r.author == req.author
    ensures r.publishedYear == req.publishedYear && r.copiesAvailable == req.copiesAvailable
  {
    b.(title := req.title, author := req.author, publishedYear := req.publishedYear, copiesAvailable := req.copiesAvailable)
  }

  /** Editing a row keeps its id and its ISBN, so the table stays well keyed. */
  lemma EditedKeepsKeys(rows: seq<Book>, nextId: int, i: nat, req: EditBookRequest)
    requires WellKeyed(rows, nextId) && i < |rows|
    ensures WellKeyed(rows[i := Edited(rows[i], req)], nextId)
  {
  }

  class BookService {
    /** The `books` table behind `BookRepository`, and the id it hands out next. */
    var rows: seq<Book>
    var nextId: int
    /** The manager the service builds for itself. */
    const manager: BookAvailabilityManager

    ghost predicate Valid()
      reads this
    {
      WellKeyed(rows, nextId) && nextId >= 1
    }

    /** The service builds its own availability manager, which becomes the singleton. */
    constructor(rows: seq<Book>, nextId: int, slot: ManagerSlot)
      requires WellKeyed(rows, nextId) && nextId >= 1
      modifies slot
      ensures Valid() && this.rows == rows && this.nextId == nextId
      ensures fresh(manager) && manager.provider == DefaultProvider && slot.instance == Some(manager)
    {
      this.rows := rows;
      this.nextId := nextId;
      manager := new BookAvailabilityManager(slot);
    }

    /** `create(request)`: validation, then ISBN uniqueness against every book, deleted or
        not; a new book with the request's fields is saved under the next id. */
    method Create(req: CreateBookRequest) returns (r: Result<Book, BookError>)
      requires Valid()
      modifies this
      ensures Valid()
      ensures !CreateIsValid(req) ==> r == Failure(ConstraintViolation)
      ensures CreateIsValid(req) && IsbnTaken(old(rows), req.isbn.value, None) ==>
                r == Failure(IsbnAlreadyExisting(req.isbn.value))
      ensures r.Failure? ==> rows == old(rows) && nextId == old(nextId)
      ensures CreateIsValid(req) && !IsbnTaken(old(rows), req.isbn.value, None) ==>
                r == Success(Created(req, old(nextId))) &&
                rows == old(rows) + [r.value] && nextId == old(nextId) + 1
    {
      if !CreateIsValid(req) {
        return Failure(ConstraintViolation);
      }
      var isbn := req.isbn.value;
      var existing := FindByIsbn(rows, isbn);
      if existing.Some? && existing.value.bookId != None {
        assert IsbnTaken(rows, isbn, None);
        return Failure(IsbnAlreadyExisting(isbn));
      }
      assert !IsbnTaken(rows, isbn, None);
      var book := Created(req, nextId);
      assert WellKeyed(rows + [book], nextId + 1) by {
        CreatedIsFound(rows, nextId, book);
      }
      rows := rows + [book];
      nextId := nextId + 1;
      r := Success(book);
    }

    /** `delete(bookId)`: a missing or already deleted book is not found; otherwise the ISBN
        becomes `isbn#bookId` and the book is deactivated, unless that tombstone is already
        some book's ISBN, which the unique column refuses. */
    method Delete(bookId: int, now: Date) returns (r: Outcome<BookError>)
      requires Valid()
      modifies this
      ensures Valid() && nextId == old(nextId)
      ensures FindById(old(rows), bookId).None? ==> r == Fail(BookNotFound(bookId)) && rows == old(rows)
      ensures FindById(old(rows), bookId).Some? && !IsActive(FindById(old(rows), bookId).value) ==>
                r == Fail(BookNotFound(bookId)) && rows == old(rows)
      ensures r.Fail? ==> rows == old(rows)
      ensures r.Pass? ==>
                IndexOfId(old(rows), bookId).Some? &&
                rows == old(rows)[IndexOfId(old(rows), bookId).value := Deactivated(old(rows)[IndexOfId(old(rows), bookId).value], now)]
      ensures r.Pass? <==>
                FindById(old(rows), bookId).Some? && IsActive(FindById(old(rows), bookId).value) &&
                FindByIsbn(old(rows), Tombstone(FindById(old(rows), bookId).value.isbn.value, bookId)).None?
    {
      var found := IndexOfId(rows, bookId);
      if found.None? {
        return Fail(BookNotFound(bookId));
      }
      var i := found.value;
      var book := rows[i];
      if book.deactivatedAt.Some? {
        return Fail(BookNotFound(bookId));
      }
      var tombstone := Tombstone(book.isbn.value, bookId);
      if FindByIsbn(rows, tombstone).Some? {
        return Fail(UniqueViolation);
      }
      assert WellKeyed(rows[i := Deactivated(book, now)], nextId) by {
        DeletionFreesIsbn(rows, nextId, i, now);
      }
      rows := rows[i := Deactivated(book, now)];
      return Pass;
    }

    /** `edit(bookId, request, loans)`: validation, then the book must exist, the request's
        ISBN must not belong to another book, and the new copy count must cover the locked
        copies; then title, author, year and copy count are saved. The stored ISBN is never
        changed. `loans` is the loans table the manager's provider may read. */
    method Edit(bookId: int, req: EditBookRequest, requestValid: bool, loans: seq<Loans.Loan>) returns (r: Result<Book, BookError>)
      requires Valid()
      modifies this
      ensures Valid() && nextId == old(nextId)
      ensures !requestValid ==> r == Failure(ConstraintViolation)
      ensures requestValid && FindById(old(rows), bookId).None? ==> r == Failure(BookNotFound(bookId))
      ensures requestValid && FindById(old(rows), bookId).Some? && req.isbn.Some? && IsbnTaken(old(rows), req.isbn.value, Some(bookId)) ==>
                r == Failure(IsbnAlreadyExisting(req.isbn.value))
      ensures requestValid && IndexOfId(old(rows), bookId).Some? &&
              !(req.isbn.Some? && IsbnTaken(old(rows), req.isbn.value, Some(bookId))) ==>
                var book := old(rows)[IndexOfId(old(rows), bookId).value];
                if book.copiesAvailable.None? || req.copiesAvailable.None? then r == Failure(NullPointer)
                else if req.copiesAvailable.value < LockedCopies(manager.provider, old(rows), loans, book) then
                  r == Failure(BookWithLockedCopies(bookId, req.copiesAvailable.value - LockedCopies(manager.provider, old(rows), loans, book)))
                else r.Success?
      ensures r.Failure? ==> rows == old(rows)
      ensures r.Success? ==>
                requestValid && IndexOfId(old(rows), bookId).Some? &&
                old(rows)[IndexOfId(old(rows), bookId).value].copiesAvailable.Some? && req.copiesAvailable.Some? &&
                req.copiesAvailable.value >= LockedCopies(manager.provider, old(rows), loans, old(rows)[IndexOfId(old(rows), bookId).value]) &&
                r.value == Edited(old(rows)[IndexOfId(old(rows), bookId).value], req) &&
                rows == old(rows)[IndexOfId(old(rows), bookId).value := r.value]
    {
      if !requestValid {
        return Failure(ConstraintViolation);
      }
      var found := IndexOfId(rows, bookId);
      if found.None? {
        return Failure(BookNotFound(bookId));
      }
      var i := found.value;
      var book := rows[i];
      if req.isbn.Some? {
        var existing := FindByIsbn(rows, req.isbn.value);
        if existing.Some? && existing.value.bookId != book.bookId {
          return Failure(IsbnAlreadyExisting(req.isbn.value));
        }
      }
      var available := manager.GetAvailableCopies(rows, loans, bookId);
      if book.copiesAvailable.None? || req.copiesAvailable.None? {
        return Failure(NullPointer);
      }
      var locked := book.copiesAvailable.value - available;
      if req.copiesAvailable.value < locked {
        return Failure(BookWithLockedCopies(bookId, req.copiesAvailable.value - locked));
      }
      var edited := Edited(book, req);
      assert WellKeyed(rows[i := edited], nextId) by {
        EditedKeepsKeys(rows, nextId, i, req);
      }
      rows := rows[i := edited];
      return Success(edited);
    }

    /** `findAll(page, size)`: one page of the books not deleted. */
    method FindAll(page: nat, size: nat) returns (r: PageResponse<Book>)
      ensures r == FindAllNonDeactivatedPage(rows, page, size)
    {
      r := FindAllNonDeactivatedPage(rows, page, size);
    }
  }
}
