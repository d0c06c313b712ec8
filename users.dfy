/** The users plugin's data: the `User` entity, the request records' constraints, and the
    queries `UserRepository` runs over the `users` table, whose rows are kept in table order. */
module Users {
  import opened Wrappers
  import opened Calendar
  import opened Query
  import opened Validation
  import opened Pagination

  /** A user row; `None` stands for a null column. The timestamps are reduced to their dates. */
  datatype User = User(userId: Option<int>, name: Option<string>, email: Option<string>,
                       registeredAt: Option<Date>, deactivatedAt: Option<Date>)

  /** `new User()` on `today`: registered today, nothing else set, active. */
  function NewUser(today: Date): (u: User)
    ensures u.registeredAt == Some(today) && IsActive(u)
    ensures u.userId.None? && u.name.None? && u.email.None?
  {
    User(None, None, None, Some(today), None)
  }

  /** The user has not been deactivated. */
  predicate IsActive(u: User) {
    u.deactivatedAt.None?
  }

  /** The body of a create or an edit request: both records carry the same two components
      under the same constraints. `None` is a null component. */
  datatype UserRequest = UserRequest(email: Option<string>, name: Option<string>)

  /** `@Email`: a null address passes; a present one must have the address form that
      `isEmail` decides. */
  predicate EmailFormat(s: Option<string>, isEmail: string -> bool) {
    s.None? || isEmail(s.value)
  }

  /** The request satisfies every constraint on its components. */
  predicate RequestIsValid(req: UserRequest, isEmail: string -> bool) {
    EmailFormat(req.email, isEmail) && NotBlank(req.email) && SizeAtMost(req.email, 100) &&
    NotBlank(req.name) && SizeAtMost(req.name, 100)
  }

  /** What a valid request guarantees: an address of the accepted form and a name, both
      non-empty and at most 100 characters long. */
  lemma ValidRequestBounds(req: UserRequest, isEmail: string -> bool)
    requires RequestIsValid(req, isEmail)
    ensures req.email.Some? && isEmail(req.email.value) && 0 < |req.email.value| <= Utf16Length(req.email.value) <= 100
    ensures req.name.Some? && 0 < |req.name.value| <= Utf16Length(req.name.value) <= 100
  {
  }

  /** A row of the table is identified by its id and holds an address; the `user_id` and
      `email` columns are unique, and ids are handed out below `nextId`. */
  predicate WellKeyed(rows: seq<User>, nextId: int) {
    (forall i :: 0 <= i < |rows| ==>
       rows[i].userId.Some? && 1 <= rows[i].userId.value < nextId && rows[i].email.Some?) &&
    (forall i, j :: 0 <= i < j < |rows| ==> rows[i].userId != rows[j].userId && rows[i].email != rows[j].email)
  }

  /** The position of the row with id `id`. */
  function IndexOfId(rows: seq<User>, id: int): Option<nat> {
    IndexWhere(rows, (u: User) => u.userId == Some(id))
  }

  /** `findById(id)`: the row with that id, deactivated or not, or empty. */
  function FindById(rows: seq<User>, id: int): (r: Option<User>)
    ensures r.Some? ==> r.value in rows && r.value.userId == Some(id)
    ensures r.None? <==> forall i :: 0 <= i < |rows| ==> rows[i].userId != Some(id)
  {
    match IndexOfId(rows, id)
    case None => None
    case Some(i) => Some(rows[i])
  }

  /** `findByEmail(email)`: the row holding exactly that address, or empty. */
  function FindByEmail(rows: seq<User>, email: string): (r: Option<User>)
    ensures r.Some? ==> r.value in rows && r.value.email == Some(email)
    ensures r.None? <==> forall i :: 0 <= i < |rows| ==> rows[i].email != Some(email)
  {
    FirstMatch(rows, (u: User) => u.email == Some(email))
  }

  /** `existsByEmail(email)`: some row, deactivated or not, holds the address. */
  function ExistsByEmail(rows: seq<User>, email: string): (r: bool)
    ensures r <==> exists i :: 0 <= i < |rows| && rows[i].email == Some(email)
  {
    FindByEmail(rows, email).Some?
  }

  /** In a well-keyed table each row is what looking up its id or its address finds. */
  lemma {:induction false} LookupsFindTheRow(rows: seq<User>, nextId: int, i: nat)
    requires WellKeyed(rows, nextId) && i < |rows|
    ensures IndexOfId(rows, rows[i].userId.value) == Some(i)
    ensures FindById(rows, rows[i].userId.value) == Some(rows[i])
    ensures FindByEmail(rows, rows[i].email.value) == Some(rows[i])
  {
    FirstMatchOfUnique(rows, (u: User) => u.userId == Some(rows[i].userId.value), i);
    FirstMatchOfUnique(rows, (u: User) => u.email == Some(rows[i].email.value), i);
  }

  /** The unpaged list of active users, in table order. */
  function FindAllNonDeactivated(rows: seq<User>): (r: seq<User>)
    ensures forall i :: 0 <= i < |r| ==> r[i] in rows && IsActive(r[i])
    ensures forall i :: 0 <= i < |rows| && IsActive(rows[i]) ==> rows[i] in r
  {
    Filter(rows, IsActive)
  }

  /** `findAllNonDeactivated(PageRequest.of(page, size))`. */
  function FindAllNonDeactivatedPage(rows: seq<User>, page: nat, size: nat): (r: PageResponse<User>)
    ensures r.page == page && r.size == size
    ensures r.totalElements == |FindAllNonDeactivated(rows)|
    ensures |r.content| <= size
    ensures forall i :: 0 <= i < |r.content| ==> IsActive(r.content[i])
    ensures r.content == Slice(FindAllNonDeactivated(rows), page * size, size)
  {
    CountIsFilterLength(rows, IsActive);
    PageResponse(page, size, Count(rows, IsActive), Slice(FindAllNonDeactivated(rows), page * size, size))
  }

  /** Reading pages 0, 1, ... until the reported total is reached lists every active user
      exactly once, in table order. */
  lemma NonDeactivatedPagesCoverAll(rows: seq<User>, size: nat, pages: nat)
    requires pages * size >= FindAllNonDeactivatedPage(rows, 0, size).totalElements
    ensures Pages(FindAllNonDeactivated(rows), size, pages) == FindAllNonDeactivated(rows)
  {
    PagesCoverRows(FindAllNonDeactivated(rows), size, pages);
  }
}
