/** `UsersController`: each endpoint dispatches to its handler and maps the
    outcome to an HTTP response. */
module UsersController {
  import opened Wrappers
  import opened DotNetText
  import opened Exceptions
  import opened UserEntity
  import opened Dtos
  import opened CreateUserValidator
  import opened TandemDbContext
  import opened UserRepository
  import opened Handlers

  const InvalidRequestMessage := "Invalid request data."
  const MissingQueryMessage := "EmailAddress query parameter is required."

  datatype ActionResult =
    /** 201, with the route values of `GetUserByEmail` for the Location header. */
    | CreatedAtGet(emailAddress: string, body: UserResponse)
    | Ok(body: UserResponse)
    /** 400 with the validation failures, as (property, message) pairs. */
    | BadRequestErrors(errors: seq<ValidationFailure>)
    | BadRequest(error: string)
    | Conflict(error: string)
    | NotFound(error: string)
    /** An exception no catch clause handles: the host answers 500. */
    | Unhandled(exception: Exception)
  {
    function StatusCode(): int {
      match this
      case CreatedAtGet(_, _) => 201
      case Ok(_) => 200
      case BadRequestErrors(_) => 400
      case BadRequest(_) => 400
      case Conflict(_) => 409
      case NotFound(_) => 404
      case Unhandled(_) => 500
    }
  }

  /** The table after a request, and the response sent. */
  datatype Exchange = Exchange(store: Store, response: ActionResult)

  /** The catch clauses of `CreateUser`. */
  function CreateOutcome(r: Result<UserResponse, Exception>): (a: ActionResult)
    ensures a.StatusCode() == 201 <==> r.Success?
    ensures r.Success? ==> a == CreatedAtGet(r.value.emailAddress, r.value)
    ensures a.StatusCode() == 409 <==> r.Failure? && r.error.InvalidOperation?
    ensures r.Failure? && r.error.InvalidOperation? ==> a == Conflict(r.error.message)
    ensures r.Failure? && r.error.Validation? ==> a == BadRequestErrors(r.error.errors)
    ensures r.Failure? && !r.error.Validation? && !r.error.InvalidOperation? ==>
      a == BadRequest(InvalidRequestMessage)
    ensures a.StatusCode() in {201, 400, 409}
  {
    match r
    case Success(v) => CreatedAtGet(v.emailAddress, v)
    case Failure(Validation(errors)) => BadRequestErrors(errors)
    case Failure(InvalidOperation(message)) => Conflict(message)
    case Failure(_) => BadRequest(InvalidRequestMessage)
  }

  /** The catch clauses of `UpdateUser`. */
  function UpdateOutcome(r: Result<UserResponse, Exception>): (a: ActionResult)
    ensures a.StatusCode() == 200 <==> r.Success?
    ensures r.Success? ==> a == Ok(r.value)
    ensures a.StatusCode() == 404 <==> r.Failure? && r.error.KeyNotFound?
    ensures r.Failure? && r.error.KeyNotFound? ==> a == NotFound(r.error.message)
    ensures r.Failure? && r.error.Validation? ==> a == BadRequestErrors(r.error.errors)
    ensures r.Failure? && !r.error.Validation? && !r.error.KeyNotFound? ==>
      a == BadRequest(InvalidRequestMessage)
    ensures a.StatusCode() in {200, 400, 404}
  {
    match r
    case Success(v) => Ok(v)
    case Failure(Validation(errors)) => BadRequestErrors(errors)
    case Failure(KeyNotFound(message)) => NotFound(message)
    case Failure(_) => BadRequest(InvalidRequestMessage)
  }

  /** POST /api/users. */
  function CreateUser(s: Store, req: CreateUserRequest, id: Guid): (x: Exchange)
    requires IsFreshId(s, id)
    ensures x.response.StatusCode() != 201 ==> x.store == s
    ensures !IsValid(req) ==> x.response == BadRequestErrors(Validate(req))
    ensures x.response.StatusCode() == 201 <==> IsValid(req) && !ExistsByEmail(s, req.emailAddress)
    ensures x.response.StatusCode() == 409 <==> IsValid(req) && ExistsByEmail(s, req.emailAddress)
    ensures x.response.StatusCode() == 409 ==>
      x.response == Conflict(ConflictMessage(req.emailAddress.value))
    ensures x.response.StatusCode() == 201 ==>
      && x.response.emailAddress == req.emailAddress.value
      && x.response.body == ToResponse(UserFromRequest(req, id))
      && x.store.users == s.users + [UserFromRequest(req, id)]
  {
    var step := SendCreateUser(s, req, id);
    assert IsValid(req) ==>
      (step.result.Failure? <==> ExistsByEmail(s, req.emailAddress)) by {
      if IsValid(req) {
        ValidatedCreateFailsOnlyOnConflict(s, req, id);
      }
    }
    Exchange(step.store, CreateOutcome(step.result))
  }

  /** GET /api/users?emailAddress=…; `None` is a missing parameter. There is
      no catch clause here: a handler exception would escape. */
  function GetUserByEmail(s: Store, emailAddress: Option<string>): (a: ActionResult)
    ensures IsNullOrWhiteSpace(emailAddress) ==> a == BadRequest(MissingQueryMessage)
    ensures !IsNullOrWhiteSpace(emailAddress) ==>
      (a.StatusCode() == 404 <==> !ExistsByEmail(s, emailAddress))
    ensures a.StatusCode() == 404 ==> a == NotFound(NotFoundMessage(emailAddress.value))
    ensures a.StatusCode() == 200 ==>
      a == Ok(ToResponse(s.users[IndexOfEmail(s, emailAddress.value).value]))
    ensures !IsNullOrWhiteSpace(emailAddress) && ExistsByEmail(s, emailAddress) ==>
      a == Ok(ToResponse(s.users[IndexOfEmail(s, emailAddress.value).value]))
    ensures a.StatusCode() == 400 <==> IsNullOrWhiteSpace(emailAddress)
    ensures a.StatusCode() in {200, 400, 404}
  {
    if IsNullOrWhiteSpace(emailAddress) then BadRequest(MissingQueryMessage)
    else
      match HandleGetUserByEmail(s, emailAddress)
      case Failure(e) => Unhandled(e)
      case Success(None) => NotFound(NotFoundMessage(emailAddress.value))
      case Success(Some(user)) => Ok(user)
  }

  /** PUT /api/users/{emailAddress}. In this model the update command is
      not validated, so the request reaches the handler unchecked. */
  function UpdateUser(s: Store, emailAddress: string, req: UpdateUserRequest): (x: Exchange)
    ensures x.response.StatusCode() != 200 ==> x.store == s
    ensures x.response.StatusCode() == 404 <==>
      !IsBlank(emailAddress) && !ExistsByEmail(s, Some(emailAddress))
    ensures x.response.StatusCode() == 404 ==> x.response == NotFound(NotFoundMessage(emailAddress))
    ensures x.response.StatusCode() == 200 <==>
      && !IsBlank(emailAddress) && ExistsByEmail(s, Some(emailAddress))
      && req.firstName.Some? && req.lastName.Some? && req.phoneNumber.Some?
    ensures x.response.StatusCode() == 200 ==>
      var i := IndexOfEmail(s, emailAddress).value;
      var v := Updated(s.users[i], req);
      && x.response == Ok(ToResponse(v))
      && v.userId == s.users[i].userId
      && |x.store.users| == |s.users|
      && (KeysUnique(s) ==> x.store.users == s.users[i := v])
    ensures x.response.StatusCode() == 200 ==> x.response.body.emailAddress == emailAddress
    ensures x.response.StatusCode() == 400 ==> x.response == BadRequest(InvalidRequestMessage)
    ensures x.response.StatusCode() in {200, 400, 404}
  {
    var step := HandleUpdateUser(s, emailAddress, req);
    Exchange(step.store, UpdateOutcome(step.result))
  }
}
