/** The two `UserService` classes over the `users` table: the application service, which
    checks addresses with `ensureEmailIsUnique`, and the older infrastructure service, which
    checks them with `existsByEmail` and an inline conflict test. Deleting a user only
    deactivates the row; its address stays in the table. */
module UserServices {
  import opened Wrappers
  import opened Calendar
  import opened Users
  import opened Pagination

  datatype UserError =
    | ConstraintViolation
    | EmailAlreadyExisting(email: string)
    | UserNotFound(userId: int)

  /** `ensureEmailIsUnique(email, excluded)` fails: the user holding the address is not the
      excluded one (a null exclusion excludes nothing). */
  predicate EmailTaken(rows: seq<User>, email: string, excluded: Option<int>) {
    FindByEmail(rows, email).Some? && FindByEmail(rows, email).value.userId != excluded
  }

  /** In a well-keyed table, an address is taken exactly when some user other than the
      excluded one holds it, deactivated or not. */
  lemma EmailTakenIff(rows: seq<User>, nextId: int, email: string, excluded: Option<int>)
    requires WellKeyed(rows, nextId)
    ensures EmailTaken(rows, email, excluded) <==>
              exists i :: 0 <= i < |rows| && rows[i].email == Some(email) && rows[i].userId != excluded
  {
    if i :| 0 <= i < |rows| && rows[i].email == Some(email) && rows[i].userId != excluded {
      LookupsFindTheRow(rows, nextId, i);
    }
  }

  /** The two services reject the same addresses: on create, `existsByEmail` agrees with
      the check that excludes nothing; on edit, the inline conflict test agrees with the check
      that excludes the edited user. */
  lemma {:induction false} GuardsAgree(rows: seq<User>, nextId: int, email: string, userId: int)
    requires WellKeyed(rows, nextId)
    ensures ExistsByEmail(rows, email) <==> EmailTaken(rows, email, None)
    ensures EmailConflict(rows, email, Some(userId)) <==> EmailTaken(rows, email, Some(userId))
  {
    if FindByEmail(rows, email).Some? {
      var i :| 0 <= i < |rows| && rows[i] == FindByEmail(rows, email).value;
      assert rows[i].userId.Some?;
    }
  }

  /** The infrastructure service's edit test: some user holds the address and its id differs
      from the edited user's. */
  predicate EmailConflict(rows: seq<User>, email: string, editedId: Option<int>) {
    match FindByEmail(rows, email)
    case None => false
    case Some(conflict) => conflict.userId != editedId
  }

  /** The user `create` saves for a valid request on `today`, given the id the table assigns. */
  function Created(req: UserRequest, id: int, today: Date): (u: User)
    ensures u.userId == Some(id) && IsActive(u) && u.registeredAt == Some(today)
    ensures u.name == req.name && u.email == req.email
  {
    NewUser(today).(userId := Some(id), name := req.name, email := req.email)
  }

  /** Appending a user whose address is free, under the next id, keeps the table well keyed,
      and the user is then what its id and its address find. */
  lemma CreatedIsFound(rows: seq<User>, nextId: int, u: User)
    requires WellKeyed(rows, nextId) && nextId >= 1
    requires u.userId == Some(nextId) && u.email.Some? && !EmailTaken(rows, u.email.value, None)
    ensures WellKeyed(rows + [u], nextId + 1)
    ensures FindById(rows + [u], nextId) == Some(u) && FindByEmail(rows + [u], u.email.value) == Some(u)
  {
    EmailTakenIff(rows, nextId, u.email.value, None);
    LookupsFindTheRow(rows + [u], nextId + 1, |rows|);
  }

  /** A deleted user: only the deactivation is recorded. */
  function Deactivated(u: User, now: Date): (r: User)
    ensures !IsActive(r) && r.(deactivatedAt := u.deactivatedAt) == u
  {
    u.(deactivatedAt := Some(now))
  }

  /** Deleting a user keeps the table well keyed and leaves its address taken, so creating a
      user with it again fails and a second delete of the user fails; the user is no longer
      listed. */
  lemma DeletedEmailStaysTaken(rows: seq<User>, nextId: int, i: nat, now: Date)
    requires WellKeyed(rows, nextId) && i < |rows|
    ensures WellKeyed(rows[i := Deactivated(rows[i], now)], nextId)
    ensures EmailTaken(rows[i := Deactivated(rows[i], now)], rows[i].email.value, None)
    ensures FindById(rows[i := Deactivated(rows[i], now)], rows[i].userId.value) == Some(Deactivated(rows[i], now))
    ensures Deactivated(rows[i], now) !in FindAllNonDeactivated(rows[i := Deactivated(rows[i], now)])
  {
    var after := rows[i := Deactivated(rows[i], now)];
    assert WellKeyed(after, nextId);
    LookupsFindTheRow(after, nextId, i);
  }

  /** The user `edit` saves: name and address from the request, everything else as stored. */
  function Edited(u: User, req: UserRequest): (r: User)
    ensures r.userId == u.userId && r.registeredAt == u.registeredAt && r.deactivatedAt == u.deactivatedAt
    ensures r.name == req.name && r.email == req.email
  {
    u.(name := req.name, email := req.email)
  }

  /** Saving an edit whose address no other user holds keeps the table well keyed, and the
      edited user is then what its id and its new address find. */
  lemma EditedIsFound(rows: seq<User>, nextId: int, i: nat, req: UserRequest)
    requires WellKeyed(rows, nextId) && i < |rows| && req.email.Some?
    requires !EmailTaken(rows, req.email.value, rows[i].userId)
    ensures WellKeyed(rows[i := Edited(rows[i], req)], nextId)
    ensures FindById(rows[i := Edited(rows[i], req)], rows[i].userId.value) == Some(Edited(rows[i], req))
    ensures FindByEmail(rows[i := Edited(rows[i], req)], req.email.value) == Some(Edited(rows[i], req))
  {
    EmailTakenIff(rows, nextId, req.email.value, rows[i].userId);
    var after := rows[i := Edited(rows[i], req)];
    assert WellKeyed(after, nextId);
    LookupsFindTheRow(after, nextId, i);
  }

  /** `application.services.UserService`. */
  class UserService {
    /** The `users` table behind `UserRepository`, and the id it hands out next. */
    var rows: seq<User>
    var nextId: int

    ghost predicate Valid()
      reads this
    {
      WellKeyed(rows, nextId) && nextId >= 1
    }

    constructor(rows: seq<User>, nextId: int)
      requires WellKeyed(rows, nextId) && nextId >= 1
      ensures Valid() && this.rows == rows && this.nextId == nextId
    {
      this.rows := rows;
      this.nextId := nextId;
    }

    /** `create(request)` on `today`: validation, then the address must be held by no user,
        deactivated or not; the new user is saved under the next id. */
    method Create(req: UserRequest, isEmail: string -> bool, today: Date) returns (r: Result<User, UserError>)
      requires Valid()
      modifies this
      ensures Valid()
      ensures !RequestIsValid(req, isEmail) ==> r == Failure(ConstraintViolation)
      ensures RequestIsValid(req, isEmail) && EmailTaken(old(rows), req.email.value, None) ==>
                r == Failure(EmailAlreadyExisting(req.email.value))
      ensures r.Failure? ==> rows == old(rows) && nextId == old(nextId)
      ensures RequestIsValid(req, isEmail) && !EmailTaken(old(rows), req.email.value, None) ==>
                r == Success(Created(req, old(nextId), today)) &&
                rows == old(rows) + [r.value] && nextId == old(nextId) + 1
    {
      if !RequestIsValid(req, isEmail) {
        return Failure(ConstraintViolation);
      }
      var email := req.email.value;
      var existing := FindByEmail(rows, email);
      if existing.Some? && existing.value.userId != None {
        assert EmailTaken(rows, email, None);
        return Failure(EmailAlreadyExisting(email));
      }
      assert !EmailTaken(rows, email, None);
      var user := Created(req, nextId, today);
      assert WellKeyed(rows + [user], nextId + 1) by {
        CreatedIsFound(rows, nextId, user);
      }
      rows := rows + [user];
      nextId := nextId + 1;
      r := Success(user);
    }

    /** `delete(userId)` on `now`: a missing or already deactivated user is not found;
        otherwise the user is deactivated and nothing else about it changes. */
    method Delete(userId: int, now: Date) returns (r: Outcome<UserError>)
      requires Valid()
      modifies this
      ensures Valid() && nextId == old(nextId)
      ensures r.Fail? ==> r == Fail(UserNotFound(userId)) && rows == old(rows)
      ensures r.Pass? <==> FindById(old(rows), userId).Some? && IsActive(FindById(old(rows), userId).value)
      ensures r.Pass? ==>
                IndexOfId(old(rows), userId).Some? &&
                rows == old(rows)[IndexOfId(old(rows), userId).value := Deactivated(old(rows)[IndexOfId(old(rows), userId).value], now)]
    {
      var found := IndexOfId(rows, userId);
      if found.None? {
        return Fail(UserNotFound(userId));
      }
      var i := found.value;
      var user := rows[i];
      if user.deactivatedAt.Some? {
        return Fail(UserNotFound(userId));
      }
      assert WellKeyed(rows[i := Deactivated(user, now)], nextId) by {
        DeletedEmailStaysTaken(rows, nextId, i, now);
      }
      rows := rows[i := Deactivated(user, now)];
      return Pass;
    }

    /** `edit(userId, request)`: validation, then the user must exist (deactivated or not)
        and the address must not belong to another user; then name and address are saved. */
    method Edit(userId: int, req: UserRequest, isEmail: string -> bool) returns (r: Outcome<UserError>)
      requires Valid()
      modifies this
      ensures Valid() && nextId == old(nextId)
      ensures !RequestIsValid(req, isEmail) ==> r == Fail(ConstraintViolation)
      ensures RequestIsValid(req, isEmail) && FindById(old(rows), userId).None? ==> r == Fail(UserNotFound(userId))
      ensures RequestIsValid(req, isEmail) && FindById(old(rows), userId).Some? ==>
                (r.Fail? <==> EmailTaken(old(rows), req.email.value, Some(userId)))
      ensures RequestIsValid(req, isEmail) && FindById(old(rows), userId).Some? &&
              EmailTaken(old(rows), req.email.value, Some(userId)) ==>
                r == Fail(EmailAlreadyExisting(req.email.value))
      ensures r.Fail? ==> rows == old(rows)
      ensures r.Pass? ==>
                RequestIsValid(req, isEmail) && IndexOfId(old(rows), userId).Some? &&
                rows == old(rows)[IndexOfId(old(rows), userId).value := Edited(old(rows)[IndexOfId(old(rows), userId).value], req)]
    {
      if !RequestIsValid(req, isEmail) {
        return Fail(ConstraintViolation);
      }
      var email := req.email.value;
      var found := IndexOfId(rows, userId);
      if found.None? {
        return Fail(UserNotFound(userId));
      }
      var i := found.value;
      var user := rows[i];
      var existing := FindByEmail(rows, email);
      if existing.Some? && existing.value.userId != user.userId {
        return Fail(EmailAlreadyExisting(email));
      }
      assert WellKeyed(rows[i := Edited(user, req)], nextId) by {
        EditedIsFound(rows, nextId, i, req);
      }
      rows := rows[i := Edited(user, req)];
      return Pass;
    }

    /** `findAll(page, size)`: one page of the active users. */
    method FindAll(page: nat, size: nat) returns (r: PageResponse<User>)
      ensures r == FindAllNonDeactivatedPage(rows, page, size)
    {
      r := FindAllNonDeactivatedPage(rows, page, size);
    }
  }

  /** `infrastructure.services.UserService`, the older variant of the same service. */
  class LegacyUserService {
    var rows: seq<User>
    var nextId: int

    ghost predicate Valid()
      reads this
    {
      WellKeyed(rows, nextId) && nextId >= 1
    }

    constructor(rows: seq<User>, nextId: int)
      requires WellKeyed(rows, nextId) && nextId >= 1
      ensures Valid() && this.rows == rows && this.nextId == nextId
    {
      this.rows := rows;
      this.nextId := nextId;
    }

    /** `create(request)`: validation, then `existsByEmail` must not hold. */
    method Create(req: UserRequest, isEmail: string -> bool, today: Date) returns (r: Result<User, UserError>)
      requires Valid()
      modifies this
      ensures Valid()
      ensures !RequestIsValid(req, isEmail) ==> r == Failure(ConstraintViolation)
      ensures RequestIsValid(req, isEmail) && ExistsByEmail(old(rows), req.email.value) ==>
                r == Failure(EmailAlreadyExisting(req.email.value))
      ensures r.Failure? ==> rows == old(rows) && nextId == old(nextId)
      ensures RequestIsValid(req, isEmail) && !ExistsByEmail(old(rows), req.email.value) ==>
                r == Success(Created(req, old(nextId), today)) &&
                rows == old(rows) + [r.value] && nextId == old(nextId) + 1
    {
      if !RequestIsValid(req, isEmail) {
        return Failure(ConstraintViolation);
      }
      var email := req.email.value;
      if ExistsByEmail(rows, email) {
        return Failure(EmailAlreadyExisting(email));
      }
      var user := Created(req, nextId, today);
      assert WellKeyed(rows + [user], nextId + 1) by {
        GuardsAgree(rows, nextId, email, 0);
        CreatedIsFound(rows, nextId, user);
      }
      rows := rows + [user];
      nextId := nextId + 1;
      r := Success(user);
    }

    /** `delete(userId)` on `now`: a missing or already deactivated user is not found;
        otherwise the user is deactivated. */
    method Delete(userId: int, now: Date) returns (r: Outcome<UserError>)
      requires Valid()
      modifies this
      ensures Valid() && nextId == old(nextId)
      ensures r.Fail? ==> r == Fail(UserNotFound(userId)) && rows == old(rows)
      ensures r.Pass? <==> FindById(old(rows), userId).Some? && IsActive(FindById(old(rows), userId).value)
      ensures r.Pass? ==>
                IndexOfId(old(rows), userId).Some? &&
                rows == old(rows)[IndexOfId(old(rows), userId).value := Deactivated(old(rows)[IndexOfId(old(rows), userId).value], now)]
    {
      var found := IndexOfId(rows, userId);
      if found.None? || rows[found.value].deactivatedAt.Some? {
        return Fail(UserNotFound(userId));
      }
      var i := found.value;
      assert WellKeyed(rows[i := Deactivated(rows[i], now)], nextId) by {
        DeletedEmailStaysTaken(rows, nextId, i, now);
      }
      rows := rows[i := Deactivated(rows[i], now)];
      return Pass;
    }

    /** `edit(userId, request)`: validation, the user must exist, and a user holding the
        address must be this one; then name and address are overwritten. */
    method Edit(userId: int, req: UserRequest, isEmail: string -> bool) returns (r: Outcome<UserError>)
      requires Valid()
      modifies this
      ensures Valid() && nextId == old(nextId)
      ensures !RequestIsValid(req, isEmail) ==> r == Fail(ConstraintViolation)
      ensures RequestIsValid(req, isEmail) && FindById(old(rows), userId).None? ==> r == Fail(UserNotFound(userId))
      ensures RequestIsValid(req, isEmail) && FindById(old(rows), userId).Some? ==>
                (r.Fail? <==> EmailConflict(old(rows), req.email.value, Some(userId)))
      ensures RequestIsValid(req, isEmail) && FindById(old(rows), userId).Some? &&
              EmailConflict(old(rows), req.email.value, Some(userId)) ==>
                r == Fail(EmailAlreadyExisting(req.email.value))
      ensures r.Fail? ==> rows == old(rows)
      ensures r.Pass? ==>
                RequestIsValid(req, isEmail) && IndexOfId(old(rows), userId).Some? &&
                rows == old(rows)[IndexOfId(old(rows), userId).value := Edited(old(rows)[IndexOfId(old(rows), userId).value], req)]
    {
      if !RequestIsValid(req, isEmail) {
        return Fail(ConstraintViolation);
      }
      var email := req.email.value;
      var found := IndexOfId(rows, userId);
      if found.None? {
        return Fail(UserNotFound(userId));
      }
      var i := found.value;
      var conflict := FindByEmail(rows, email);
      if conflict.Some? {
        if conflict.value.userId != rows[i].userId {
          return Fail(EmailAlreadyExisting(email));
        }
      }
      assert WellKeyed(rows[i := Edited(rows[i], req)], nextId) by {
        GuardsAgree(rows, nextId, email, userId);
        EditedIsFound(rows, nextId, i, req);
      }
      rows := rows[i := Edited(rows[i], req)];
      return Pass;
    }

    /** `findAll(page, size)`: one page of the active users. */
    method FindAll(page: nat, size: nat) returns (r: PageResponse<User>)
      ensures r == FindAllNonDeactivatedPage(rows, page, size)
    {
      r := FindAllNonDeactivatedPage(rows, page, size);
    }
  }
}
