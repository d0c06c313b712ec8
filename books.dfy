/** The books plugin's data: the `Book` entity, the create request's constraints, and the
    queries `BookRepository` runs over the `books` table, whose rows are kept in table order. */
module Books {
  import opened Wrappers
  import opened Calendar
  import opened Query
  import opened Validation
  import opened Decimal
  import opened Pagination

  /** A book row; `None` stands for a null column. `deactivatedAt` is reduced to its date. */
  datatype Book = Book(bookId: Option<int>, title: Option<string>, author: Option<string>, isbn: Option<string>,
                       publishedYear: Option<int>, copiesAvailable: Option<int>, deactivatedAt: Option<Date>)

  /** `new Book()`: nothing set but the copy count, which starts at 0; the book is active. */
  function NewBook(): (b: Book)
    ensures b.bookId.None? && b.copiesAvailable == Some(0) && IsActive(b)
  {
    Book(None, None, None, None, None, Some(0), None)
  }

  /** `isActive()`: the book has not been deactivated. */
  predicate IsActive(b: Book) {
    b.deactivatedAt.None?
  }

  /** `getName()`: a book is named by its title. */
  function Name(b: Book): Option<string> {
    b.title
  }

  /** `setName(n)`: renames the book by retitling it and changes nothing else. */
  function SetName(b: Book, name: Option<string>): (r: Book)
    ensures Name(r) == name && r.title == name
    ensures r.(title := b.title) == b
  {
    b.(title := name)
  }

  /** The body of a create request; `None` is a null component. */
  datatype CreateBookRequest = CreateBookRequest(isbn: Option<string>, title: Option<string>, author: Option<string>,
                                                 publishedYear: Option<int>, copiesAvailable: Option<int>)

  /** The request satisfies every constraint on its components. */
  predicate CreateIsValid(req: CreateBookRequest) {
    NotBlank(req.isbn) && SizeAtMost(req.isbn, 20) &&
    NotBlank(req.title) && SizeAtMost(req.title, 100) &&
    NotBlank(req.author) && SizeAtMost(req.author, 100) &&
    PresentWithin(req.publishedYear, 1900, 2100) &&
    PresentWithin(req.copiesAvailable, 0, 1000)
  }

  /** What a valid request guarantees: every component present, the strings non-empty and
      within their lengths, the year and the copy count within their ranges. */
  lemma ValidCreateRequestBounds(req: CreateBookRequest)
    requires CreateIsValid(req)
    ensures req.isbn.Some? && 0 < |req.isbn.value| <= Utf16Length(req.isbn.value) <= 20
    ensures req.title.Some? && 0 < |req.title.value| <= Utf16Length(req.title.value) <= 100
    ensures req.author.Some? && 0 < |req.author.value| <= Utf16Length(req.author.value) <= 100
    ensures req.publishedYear.Some? && 1900 <= req.publishedYear.value <= 2100
    ensures req.copiesAvailable.Some? && 0 <= req.copiesAvailable.value <= 1000
  {
  }

  /** A row of the table is identified by its id and, while it is in the table, holds an
      ISBN; the table's `book_id` and `isbn` columns are unique, and ids are handed out
      below `nextId`. */
  predicate WellKeyed(rows: seq<Book>, nextId: int) {
    (forall i :: 0 <= i < |rows| ==>
       rows[i].bookId.Some? && 1 <= rows[i].bookId.value < nextId && rows[i].isbn.Some?) &&
    (forall i, j :: 0 <= i < j < |rows| ==> rows[i].bookId != rows[j].bookId && rows[i].isbn != rows[j].isbn)
  }

  /** The position of the row with id `id`. */
  function IndexOfId(rows: seq<Book>, id: int): Option<nat> {
    IndexWhere(rows, (b: Book) => b.bookId == Some(id))
  }

  /** `findById(id)`: the row with that id, or empty. */
  function FindById(rows: seq<Book>, id: int): (r: Option<Book>)
    ensures r.Some? ==> r.value in rows && r.value.bookId == Some(id)
    ensures r.None? <==> forall i :: 0 <= i < |rows| ==> rows[i].bookId != Some(id)
  {
    match IndexOfId(rows, id)
    case None => None
    case Some(i) => Some(rows[i])
  }

  /** `findByIsbn(isbn)`: the row holding exactly that ISBN, or empty. */
  function FindByIsbn(rows: seq<Book>, isbn: string): (r: Option<Book>)
    ensures r.Some? ==> r.value in rows && r.value.isbn == Some(isbn)
    ensures r.None? <==> forall i :: 0 <= i < |rows| ==> rows[i].isbn != Some(isbn)
  {
    FirstMatch(rows, (b: Book) => b.isbn == Some(isbn))
  }

  /** In a well-keyed table each row is what looking up its id or its ISBN finds. */
  lemma {:induction false} LookupsFindTheRow(rows: seq<Book>, nextId: int, i: nat)
    requires WellKeyed(rows, nextId) && i < |rows|
    ensures IndexOfId(rows, rows[i].bookId.value) == Some(i)
    ensures FindById(rows, rows[i].bookId.value) == Some(rows[i])
    ensures FindByIsbn(rows, rows[i].isbn.value) == Some(rows[i])
  {
    FirstMatchOfUnique(rows, (b: Book) => b.bookId == Some(rows[i].bookId.value), i);
    FirstMatchOfUnique(rows, (b: Book) => b.isbn == Some(rows[i].isbn.value), i);
  }

  /** The unpaged `findAllNonDeactivated()`: the active rows, in table order. */
  function FindAllNonDeactivated(rows: seq<Book>): (r: seq<Book>)
    ensures forall i :: 0 <= i < |r| ==> r[i] in rows && IsActive(r[i])
    ensures forall i :: 0 <= i < |rows| && IsActive(rows[i]) ==> rows[i] in r
  {
    Filter(rows, IsActive)
  }

  /** The paged `findAllNonDeactivated(PageRequest.of(page, size))`. */
  function FindAllNonDeactivatedPage(rows: seq<Book>, page: nat, size: nat): (r: PageResponse<Book>)
    ensures r.page == page && r.size == size
    ensures r.totalElements == |FindAllNonDeactivated(rows)|
    ensures |r.content| <= size
    ensures forall i :: 0 <= i < |r.content| ==> IsActive(r.content[i])
    ensures r.content == Slice(FindAllNonDeactivated(rows), page * size, size)
  {
    CountIsFilterLength(rows, IsActive);
    PageResponse(page, size, Count(rows, IsActive), Slice(FindAllNonDeactivated(rows), page * size, size))
  }

  /** Reading pages 0, 1, ... until the reported total is reached lists every active book
      exactly once, in table order. */
  lemma NonDeactivatedPagesCoverAll(rows: seq<Book>, size: nat, pages: nat)
    requires pages * size >= FindAllNonDeactivatedPage(rows, 0, size).totalElements
    ensures Pages(FindAllNonDeactivated(rows), size, pages) == FindAllNonDeactivated(rows)
  {
    PagesCoverRows(FindAllNonDeactivated(rows), size, pages);
  }

  /** The ISBN a deleted book is left with: `isbn + "#" + bookId`. */
  function Tombstone(isbn: string, bookId: nat): (r: string)
    ensures |r| > |isbn| + 1 && r[..|isbn|] == isbn && r[|isbn|] == '#'
  {
    isbn + "#" + ToDecimal(bookId)
  }

  /** Distinct books leave distinct tombstones behind, and no tombstone equals the ISBN it
      replaces. */
  lemma TombstonesDiffer(isbn: string, m: nat, n: nat)
    ensures Tombstone(isbn, m) != isbn
    ensures Tombstone(isbn, m) == Tombstone(isbn, n) ==> m == n
  {
    if Tombstone(isbn, m) == Tombstone(isbn, n) {
      assert ToDecimal(m) == Tombstone(isbn, m)[|isbn| + 1..];
      assert ToDecimal(n) == Tombstone(isbn, n)[|isbn| + 1..];
      ToDecimalInjective(m, n);
    }
  }
}
