/** The three use-case handlers as state transitions over the `Users`
    table, and the create command's validation step. */
module Handlers {
  import opened Wrappers
  import opened DotNetText
  import opened Exceptions
  import opened UserEntity
  import opened Dtos
  import opened CreateUserValidator
  import opened TandemDbContext
  import opened UserRepository

  /** The table after a handler ran, and what the handler returned or threw.
      Nothing is saved when a handler throws. */
  datatype Step<T> = Step(store: Store, result: Result<T, Exception>)

  function ConflictMessage(email: string): string {
    "User with email address '" + email + "' already exists."
  }

  function NotFoundMessage(email: string): string {
    "User with email address '" + email + "' not found."
  }

  /** The user a create request describes, once its required fields are
      known to be present. */
  function UserFromRequest(req: CreateUserRequest, id: Guid): User
    requires req.firstName.Some? && req.lastName.Some?
    requires req.phoneNumber.Some? && req.emailAddress.Some?
  {
    User(id, req.firstName.value, req.middleName, req.lastName.value,
         req.phoneNumber.value, req.emailAddress.value)
  }

  /** `CreateUserCommandHandler.Handle`. `id` is the identifier
      `Guid.NewGuid` hands the new entity. */
  function HandleCreateUser(s: Store, req: CreateUserRequest, id: Guid): (r: Step<UserResponse>)
    requires IsFreshId(s, id)
    ensures r.result.Failure? ==> r.store == s
    ensures IsNullOrWhiteSpace(req.emailAddress) ==>
      r.result == Failure(Argument(BlankEmailMessage, "emailAddress"))
    ensures ExistsByEmail(s, req.emailAddress) ==>
      r.result == Failure(InvalidOperation(ConflictMessage(req.emailAddress.value)))
    ensures r.result.Success? <==>
      && !IsNullOrWhiteSpace(req.emailAddress)
      && !ExistsByEmail(s, req.emailAddress)
      && req.firstName.Some? && req.lastName.Some? && req.phoneNumber.Some?
    ensures r.result.Success? ==>
      var u := UserFromRequest(req, id);
      && r.store.users == s.users + [u]
      && r.result.value == ToResponse(u)
      && r.result.value.userId == id
      && Some(r.result.value.emailAddress) == req.emailAddress
  {
    match GetByEmail(s, req.emailAddress)
    case Failure(e) => Step(s, Failure(e))
    case Success(Some(_)) =>
      Step(s, Failure(InvalidOperation(ConflictMessage(req.emailAddress.value))))
    case Success(None) =>
      match NewUser(id, req.firstName, req.middleName, req.lastName,
                    req.phoneNumber, req.emailAddress)
      case Failure(e) => Step(s, Failure(e))
      case Success(user) =>
        match Add(s, Some(user))
        case Failure(e) => Step(s, Failure(e))
        case Success((t, created)) => Step(t, Success(ToResponse(created)))
  }

  /** The handler's own duplicate check keeps keys and e-mail addresses
      unique: it never relies on the storage index. */
  lemma CreatePreservesIdentity(s: Store, req: CreateUserRequest, id: Guid)
    requires IsFreshId(s, id)
    requires IdentityValid(s)
    ensures IdentityValid(HandleCreateUser(s, req, id).store)
  {
    var r := HandleCreateUser(s, req, id);
    if r.result.Success? {
      var u := UserFromRequest(req, id);
      var n := |s.users|;
      assert forall j | 0 <= j < n :: s.users[j].emailAddress != u.emailAddress;
      assert forall j | 0 <= j < n :: r.store.users[j] == s.users[j];
      assert r.store.users[n] == u;
    }
  }

  /** `GetUserByEmailQueryHandler.Handle`. It reads the table and returns no
      new one; a miss is `None`, not an error. */
  function HandleGetUserByEmail(s: Store, email: Option<string>): (r: Result<Option<UserResponse>, Exception>)
    ensures r.Failure? <==> IsNullOrWhiteSpace(email)
    ensures r.Success? ==> (r.value.None? <==> !ExistsByEmail(s, email))
    ensures r.Success? && r.value.Some? ==>
      r.value.value == ToResponse(s.users[IndexOfEmail(s, email.value).value])
  {
    match GetByEmail(s, email)
    case Failure(e) => Failure(e)
    case Success(None) => Success(None)
    case Success(Some(user)) => Success(Some(ToResponse(user)))
  }

  /** The found user with the update request's values applied. */
  function Updated(u: User, req: UpdateUserRequest): User
    requires req.firstName.Some? && req.lastName.Some? && req.phoneNumber.Some?
  {
    u.(firstName := req.firstName.value, middleName := req.middleName,
       lastName := req.lastName.value, phoneNumber := req.phoneNumber.value)
  }

  /** `UpdateUserCommandHandler.Handle`; `email` is the route value. */
  function HandleUpdateUser(s: Store, email: string, req: UpdateUserRequest): (r: Step<UserResponse>)
    ensures r.result.Failure? ==> r.store == s
    ensures IsBlank(email) ==> r.result == Failure(Argument(BlankEmailMessage, "emailAddress"))
    ensures !IsBlank(email) && !ExistsByEmail(s, Some(email)) ==>
      r.result == Failure(KeyNotFound(NotFoundMessage(email)))
    ensures r.result.Success? <==>
      && !IsBlank(email) && ExistsByEmail(s, Some(email))
      && req.firstName.Some? && req.lastName.Some? && req.phoneNumber.Some?
    ensures r.result.Success? ==>
      var i := IndexOfEmail(s, email).value;
      var v := Updated(s.users[i], req);
      && r.result.value == ToResponse(v)
      && r.result.value.userId == s.users[i].userId
      && r.result.value.emailAddress == email
      && |r.store.users| == |s.users|
      && (KeysUnique(s) ==> r.store.users == s.users[i := v])
  {
    match GetByEmail(s, Some(email))
    case Failure(e) => Step(s, Failure(e))
    case Success(None) => Step(s, Failure(KeyNotFound(NotFoundMessage(email))))
    case Success(Some(user)) =>
      var m := UserEntity.Update(user, req.firstName, req.middleName, req.lastName, req.phoneNumber);
      if m.thrown.Some? then Step(s, Failure(m.thrown.value))
      else
        match UserRepository.Update(s, Some(m.user))
        case Failure(e) => Step(s, Failure(e))
        case Success((t, saved)) => Step(t, Success(ToResponse(saved)))
  }

  /** A successful update writes only the row of the user it found, and
      that row keeps its key and e-mail address. */
  lemma UpdateTouchesOnlyFoundUser(s: Store, email: string, req: UpdateUserRequest)
    requires IdentityValid(s)
    requires HandleUpdateUser(s, email, req).result.Success?
    ensures var t := HandleUpdateUser(s, email, req).store;
      && |t.users| == |s.users|
      && forall j | 0 <= j < |s.users| ::
           && t.users[j].userId == s.users[j].userId
           && t.users[j].emailAddress == s.users[j].emailAddress
           && (s.users[j].emailAddress != email ==> t.users[j] == s.users[j])
  {
  }

  /** A successful update keeps keys and e-mail addresses unique. */
  lemma UpdatePreservesIdentity(s: Store, email: string, req: UpdateUserRequest)
    requires IdentityValid(s)
    ensures IdentityValid(HandleUpdateUser(s, email, req).store)
  {
    var t := HandleUpdateUser(s, email, req).store;
    if HandleUpdateUser(s, email, req).result.Success? {
      UpdateTouchesOnlyFoundUser(s, email, req);
      assert forall j | 0 <= j < |s.users| ::
        t.users[j].userId == s.users[j].userId && t.users[j].emailAddress == s.users[j].emailAddress;
    }
  }

  /** The update request's values fit the table's columns. */
  predicate UpdateFitsColumns(req: UpdateUserRequest) {
    && (req.firstName.None? || Utf16Length(req.firstName.value) <= NameColumnLength)
    && (req.middleName.None? || Utf16Length(req.middleName.value) <= NameColumnLength)
    && (req.lastName.None? || Utf16Length(req.lastName.value) <= NameColumnLength)
    && (req.phoneNumber.None? || Utf16Length(req.phoneNumber.value) <= PhoneColumnLength)
  }

  /** In this model no validator checks an update request, so the table
      stays valid only when the request happens to fit the columns. */
  lemma UpdatePreservesValidityWhenFitting(s: Store, email: string, req: UpdateUserRequest)
    requires StoreValid(s)
    requires UpdateFitsColumns(req)
    ensures StoreValid(HandleUpdateUser(s, email, req).store)
  {
    UpdatePreservesIdentity(s, email, req);
    var r := HandleUpdateUser(s, email, req);
    if r.result.Success? {
      var i := IndexOfEmail(s, email).value;
      assert ColumnsFit(Updated(s.users[i], req));
      assert forall j | 0 <= j < |s.users| :: r.store.users[j] == s.users[j] || j == i;
    }
  }

  /** The create command as dispatched: the validation behaviour runs the
      create validator and throws all its failures before the handler runs. */
  function SendCreateUser(s: Store, req: CreateUserRequest, id: Guid): (r: Step<UserResponse>)
    requires IsFreshId(s, id)
    ensures !IsValid(req) ==> r == Step(s, Failure(Validation(Validate(req))))
    ensures IsValid(req) ==> r == HandleCreateUser(s, req, id)
  {
    var errors := Validate(req);
    if errors != [] then Step(s, Failure(Validation(errors)))
    else HandleCreateUser(s, req, id)
  }

  /** A request that passed the create validator builds a user that fits
      every column of the table. */
  lemma ValidRequestFitsColumns(req: CreateUserRequest, id: Guid)
    requires IsValid(req)
    ensures NewUser(id, req.firstName, req.middleName, req.lastName,
                    req.phoneNumber, req.emailAddress).Success?
    ensures ColumnsFit(NewUser(id, req.firstName, req.middleName, req.lastName,
                               req.phoneNumber, req.emailAddress).value)
  {
    assert FieldValid(req, FirstName) && FieldValid(req, LastName);
    assert FieldValid(req, PhoneNumber) && FieldValid(req, EmailAddress);
    assert FieldValid(req, MiddleName);
  }

  /** Once validation passed, the only way a create fails is the duplicate
      e-mail conflict. */
  lemma ValidatedCreateFailsOnlyOnConflict(s: Store, req: CreateUserRequest, id: Guid)
    requires IsFreshId(s, id)
    requires IsValid(req)
    ensures var r := SendCreateUser(s, req, id);
      r.result.Failure? <==> ExistsByEmail(s, req.emailAddress)
    ensures var r := SendCreateUser(s, req, id);
      r.result.Failure? ==> r.result.error == InvalidOperation(ConflictMessage(req.emailAddress.value))
  {
    ValidRequestFitsColumns(req, id);
  }

  /** Appending a row that fits the columns keeps every row fitting. */
  lemma AppendKeepsColumnsFitting(s: Store, u: User)
    requires forall i | 0 <= i < |s.users| :: ColumnsFit(s.users[i])
    requires ColumnsFit(u)
    ensures var t := Store(s.users + [u]);
      forall i | 0 <= i < |t.users| :: ColumnsFit(t.users[i])
  {
    var t := Store(s.users + [u]);
    forall i | 0 <= i < |t.users|
      ensures ColumnsFit(t.users[i])
    {
      if i < |s.users| {
        assert t.users[i] == s.users[i];
      }
    }
  }

  /** Starting from a valid table, a dispatched create leaves it valid. */
  lemma SendCreatePreservesValidity(s: Store, req: CreateUserRequest, id: Guid)
    requires IsFreshId(s, id)
    requires StoreValid(s)
    ensures StoreValid(SendCreateUser(s, req, id).store)
  {
    var r := SendCreateUser(s, req, id);
    if r.result.Success? {
      assert IsValid(req);
      assert r == HandleCreateUser(s, req, id);
      CreatePreservesIdentity(s, req, id);
      ValidRequestFitsColumns(req, id);
      var u := UserFromRequest(req, id);
      assert r.store == Store(s.users + [u]);
      AppendKeepsColumnsFitting(s, u);
    }
  }
}
