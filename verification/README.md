# Tandem user service — a Dafny model

Tandem is a small user service with three HTTP endpoints: create a user
(`POST /api/users`), fetch a user by e-mail address (`GET /api/users?emailAddress=…`)
and update a user (`PUT /api/users/{emailAddress}`). This project models the
logic behind those endpoints as pure functions over an immutable `Users` table:

- `user.dfy` (`UserEntity`): the `User` entity. It covers the null-checking
  constructor, the field-by-field (non-atomic) `Update` and the `GetFullName` join rule.
- `validator.dfy` (`CreateUserValidator`): the five create-request rules. They are
  written once as a validity predicate per field. They are written again as a
  table of each rule's checks and messages, which yields the list of
  (property, message) failures FluentValidation reports. Lemmas connect the two.
- `db_context.dfy` (`TandemDbContext`): the table and the constraints
  `OnModelCreating` declares. Unique key, unique e-mail index and column
  lengths together form the store-validity invariant.
- `repository.dfy` (`UserRepository`): `GetById`, `GetByEmail`, `ExistsByEmail`,
  `Add` and `Update`, including the blank-address and null-user guards. Every
  query is `FirstOrDefault`, i.e. the first matching row in table order.
- `handlers.dfy` (`Handlers`): the create, get-by-email and update handlers
  as state transitions `Store -> (Store, Result)`. It also models the create
  command's validation step (`SendCreateUser`).
- `controller.dfy` (`UsersController`): the mapping from handler outcome to
  HTTP response and status code.
- `scenarios.dfy` (`Scenarios`): properties that span several requests, and
  the integration tests' concrete cases.
- `dotnet_text.dfy` (`DotNetText`) and `exceptions.dfy`, `wrappers.dfy`, `dtos.dfy`:
  .NET string behaviour (`char.IsWhiteSpace`, `string.IsNullOrWhiteSpace`,
  UTF-16 `Length`, `string.Join`), the exceptions as values, `Option`/`Result`,
  and the request/response records.

Modelling choices:

- A nullable C# string is `Option<string>`. Request fields are nullable
  because a client can send JSON `null`.
- `string.Length` counts UTF-16 code units. A character above U+FFFF counts 2
  (`Utf16Length`), in both the validator's `MaximumLength` and the column bounds.
- `Guid.NewGuid()` becomes an identifier argument. The requirement that it is
  non-empty and not yet a key (`IsFreshId`) stands in for GUID generation.
- FluentValidation behaviour comes from the library's documented defaults,
  not from this repository:
  - `NotEmpty` rejects null, empty and all-white-space strings;
  - `MaximumLength`, `Matches` and `EmailAddress` accept null;
  - every failing check of a rule reports its own message (cascade mode
    `Continue`), in declaration order;
  - `EmailAddress()` is the ASP.NET-Core-compatible check: exactly one '@',
    neither first nor last. This is the default from FluentValidation 9 on,
    and the model assumes version 9 or later;
  - a property is named by its member chain (`Request.FirstName`).
- The validation step is assumed to run every validator registered for a
  command and to throw all their failures before the handler runs.
  `ValidationBehavior` is not part of this model, and neither is any
  validator other than `CreateUserCommandValidator`.
- The model assumes the create command is the only validated one. An update
  request therefore reaches its handler unchecked.
  `Scenarios.UpdateCanOverflowColumns` shows the consequence: an update
  stores a 101-character first name, which breaks the 100-character column bound.
- The generic `catch (Exception)` answers 400 "Invalid request data." for
  every failure the other catch clauses do not take, storage failures included.

## Model

| member | source | states |
|---|---|---|
| UserEntity.NewUser | src/Tandem.Domain/Entities/User.cs:20-33 | Construction succeeds exactly when first name, last name, phone number and e-mail address are non-null. The new user then carries the given identifier and exactly the given values, middle name included (null allowed). Otherwise `ArgumentNullException` names the first null argument in declaration order. |
| UserEntity.Update | src/Tandem.Domain/Entities/User.cs:35-45 | Identifier and e-mail address never change. With no null required value, the four fields become the given values. A null last name throws after first and middle name are already assigned. A null phone number throws after first, middle and last name are assigned. |
| UserEntity.FullName | src/Tandem.Domain/Entities/User.cs:47-59 | Produced by joining the name parts with " ". The result is first + " " + middle + " " + last when the middle name is not null or white space, and first + " " + last otherwise. |
| UserEntity.FullNameReadsOnlyNames | src/Tandem.Domain/Entities/User.cs:47-59 | The full name depends only on the three name fields. |
| UserEntity.FullNameAfterUpdate | src/Tandem.Domain/Entities/User.cs:35-59 | After a successful update, the full name is determined by the new name values alone. |
| CreateUserValidator.RuleFailures | src/Tandem.Application/Validators/CreateUserCommandValidator.cs:10-30 | One rule reports no failure exactly when its field satisfies the rule's checks. Every failure it reports names that rule's property. |
| CreateUserValidator.Validate | src/Tandem.Application/Validators/CreateUserCommandValidator.cs:8-31 | The failure list is empty exactly when all five field rules hold. It is computed from the request alone. |
| CreateUserValidator.FieldValid | src/Tandem.Application/Validators/CreateUserCommandValidator.cs:10-30 | The rule of one field: first and last name are non-blank and at most 100 UTF-16 units. A middle name is null or at most 100 units. A phone number is non-blank, at most 20 units and all digits, '-', '(', ')' or white space. An address is non-blank, has exactly one inner '@' and is at most 255 units. |
| CreateUserValidator.IsValid | src/Tandem.Application/Validators/CreateUserCommandValidator.cs:8-31 | A request is valid when all five field rules hold. |
| CreateUserValidator.MatchesPhonePattern | src/Tandem.Application/Validators/CreateUserCommandValidator.cs:25 | `^[\d\-\(\)\s]+$`: null passes, otherwise one or more characters of the class, with `\d` read as ASCII digits. |
| CreateUserValidator.Validators | src/Tandem.Application/Validators/CreateUserCommandValidator.cs:10-30 | The checks each rule chains, in declaration order. |
| CreateUserValidator.Message | src/Tandem.Application/Validators/CreateUserCommandValidator.cs:11-30 | The `WithMessage` text of each check of each rule. |
| CreateUserValidator.ReportedEmptyIffAllPass | src/Tandem.Application/Validators/CreateUserCommandValidator.cs:10-30 | A chain of checks reports nothing if and only if every check passes. For a field's own chain, that is exactly the field's rule. |
| CreateUserValidator.ReportedProperty | src/Tandem.Application/Validators/CreateUserCommandValidator.cs:10-30 | Every failure a rule's chain reports carries that rule's property name. |
| CreateUserValidator.ReportedContains | src/Tandem.Application/Validators/CreateUserCommandValidator.cs:10-30 | A chain reports a failure if and only if one of its checks rejects the value and that failure carries the check's message. |
| CreateUserValidator.MessagesDistinct | src/Tandem.Application/Validators/CreateUserCommandValidator.cs:11-30 | Within one rule, no two checks share a message. |
| CreateUserValidator.FailureReportedIffCheckFails | src/Tandem.Application/Validators/CreateUserCommandValidator.cs:10-30 | For every check of every rule, the failure (property, message) is in the validator's result if and only if that check rejects the field's value. |
| CreateUserValidator.FailureIsAFailingCheck | src/Tandem.Application/Validators/CreateUserCommandValidator.cs:10-30 | Every failure in the validator's result is (property, message) of some check of that property's rule, and that check rejects the value. |
| CreateUserValidator.FailureBelongsToARule | src/Tandem.Application/Validators/CreateUserCommandValidator.cs:8-31 | A failure is in the validator's result if and only if one of the five rules reports it. |
| CreateUserValidator.FailuresNameExactlyTheFailingFields | src/Tandem.Application/Validators/CreateUserCommandValidator.cs:10-30 | Some failure names a field if and only if that field's rule fails. |
| CreateUserValidator.MiddleNameMayBeNullOrEmpty | src/Tandem.Application/Validators/CreateUserCommandValidator.cs:18-20 | A null or empty middle name produces no failure. |
| CreateUserValidator.NoAtSignIsNoEmail | src/Tandem.Application/Validators/CreateUserCommandValidator.cs:29 | An address without '@' fails the e-mail format check. |
| CreateUserValidator.ShortRequestIsValid | src/Tandem.Application/Validators/CreateUserCommandValidator.cs:10-30 | Short non-blank names, a short phone number made of pattern characters, and a short local@domain address together pass every rule. |
| CreateUserValidator.MatthewRequestIsValid | tests/Tandem.IntegrationTests/UsersControllerTests.cs:27-32 | The first integration test's request passes the validator. |
| TandemDbContext.ColumnsFit | src/Tandem.Infrastructure/Data/TandemDbContext.cs:21-25 | A row fits its columns: names at most 100 UTF-16 units, phone number at most 20, address at most 255. The middle name is null or at most 100. |
| TandemDbContext.KeysUnique | src/Tandem.Infrastructure/Data/TandemDbContext.cs:20 | No two rows share a `UserId`. |
| TandemDbContext.EmailsUnique | src/Tandem.Infrastructure/Data/TandemDbContext.cs:26 | No two rows share an e-mail address. |
| TandemDbContext.StoreValid | src/Tandem.Infrastructure/Data/TandemDbContext.cs:18-27 | The store-validity invariant: unique keys, unique addresses and every row within its column bounds. |
| UserRepository.FirstMatch | src/Tandem.Infrastructure/Repositories/UserRepository.cs:19-20 | `FirstOrDefault` returns the index of the first element satisfying the predicate, or nothing if and only if no element does. |
| UserRepository.IndexOfEmail | src/Tandem.Infrastructure/Repositories/UserRepository.cs:30-31 | Gives the first row with the address, or nothing if and only if no row has it. |
| UserRepository.IndexOfId | src/Tandem.Infrastructure/Repositories/UserRepository.cs:19-20 | Gives the first row with the key, or nothing if and only if no row has it. |
| UserRepository.GetById | src/Tandem.Infrastructure/Repositories/UserRepository.cs:17-21 | Returns the first stored user with that identifier, or none if and only if no row has it. |
| UserRepository.GetByEmail | src/Tandem.Infrastructure/Repositories/UserRepository.cs:23-32 | A null or white-space address is an `ArgumentException`, not a miss. Otherwise the result is the first stored user with exactly that address, or none if and only if no row has it. |
| UserRepository.ExistsByEmail | src/Tandem.Infrastructure/Repositories/UserRepository.cs:58-67 | Returns false for a blank address, without error. Otherwise it is true if and only if some row has that address. |
| UserRepository.ExistsAgreesWithGet | src/Tandem.Infrastructure/Repositories/UserRepository.cs:23-67 | For a non-blank address, the existence test is true if and only if the lookup finds a user. |
| UserRepository.GetByEmailFindsTheOnlyMatch | src/Tandem.Infrastructure/Repositories/UserRepository.cs:30-31 | With unique addresses, the lookup returns the one row holding the address. |
| UserRepository.Add | src/Tandem.Infrastructure/Repositories/UserRepository.cs:34-44 | Null is rejected with `ArgumentNullException`. A new key appends exactly that user and returns it. An existing key fails. The unique e-mail index is not checked here. |
| UserRepository.Update | src/Tandem.Infrastructure/Repositories/UserRepository.cs:46-56 | Null is rejected with `ArgumentNullException`. Otherwise only the row with the same key is overwritten, and the same user is returned. With no such row the save fails. |
| UserRepository.UpdateTouchesOnlyItsRow | src/Tandem.Infrastructure/Repositories/UserRepository.cs:53-55 | With unique keys, every row keeps its value except the one with the user's key, which becomes the user. |
| Dtos.ToResponse | src/Tandem.Application/Handlers/CreateUserCommandHandler.cs:38-42 | The response every handler builds: the user's identifier, full name, phone number and address. The get and update handlers build the same mapping at GetUserByEmailQueryHandler.cs:28-32 and UpdateUserCommandHandler.cs:36-40. |
| Handlers.ConflictMessage | src/Tandem.Application/Handlers/CreateUserCommandHandler.cs:26 | "User with email address '<address>' already exists." |
| Handlers.NotFoundMessage | src/Tandem.Application/Handlers/UpdateUserCommandHandler.cs:25 | "User with email address '<address>' not found.", the same text the controller's GET answers with at UsersController.cs:64. |
| Handlers.HandleCreateUser | src/Tandem.Application/Handlers/CreateUserCommandHandler.cs:18-43 | A blank address gives an argument error. An existing address gives a conflict naming it. Success occurs exactly otherwise, when the required fields are non-null. On success exactly one user is appended, with the fresh identifier and the request's five fields. The response is that user's identifier, full name, phone number and the request's address. Every failure leaves the table unchanged. |
| Handlers.CreatePreservesIdentity | src/Tandem.Application/Handlers/CreateUserCommandHandler.cs:20-36 | Unique keys and unique addresses survive a create, by the handler's own check and the fresh identifier. |
| Handlers.HandleGetUserByEmail | src/Tandem.Application/Handlers/GetUserByEmailQueryHandler.cs:17-33 | Only a blank address is an error. Otherwise the result is none if and only if no user has the address, else the found user's (identifier, full name, phone, address). The handler returns no new table: it only reads. |
| Handlers.HandleUpdateUser | src/Tandem.Application/Handlers/UpdateUserCommandHandler.cs:17-41 | A blank address gives an argument error. A missing user gives a not-found error naming the address. Success occurs exactly otherwise, when the required fields are non-null. The found user gets the four new values and keeps its identifier and address. With unique keys, only that row is written. The response is the updated user's mapping, with the route's address. Every failure leaves the table unchanged. |
| Handlers.UpdateTouchesOnlyFoundUser | src/Tandem.Application/Handlers/UpdateUserCommandHandler.cs:28-34 | After a successful update, every row keeps its key and address. Every row with another address is unchanged. |
| Handlers.UpdatePreservesIdentity | src/Tandem.Application/Handlers/UpdateUserCommandHandler.cs:28-34 | Unique keys and unique addresses survive an update. |
| Handlers.UpdatePreservesValidityWhenFitting | src/Tandem.Application/Handlers/UpdateUserCommandHandler.cs:28-34 | A valid table stays valid under an update whose values fit the columns. |
| Handlers.SendCreateUser | src/Tandem.Application/DependencyInjection.cs:16-17 | An invalid create request fails with every validation failure and leaves the table unchanged. A valid one goes to the handler. |
| Handlers.ValidRequestFitsColumns | src/Tandem.Infrastructure/Data/TandemDbContext.cs:21-25 | A request that passed the create validator constructs a user, and that user fits every column bound. |
| Handlers.ValidatedCreateFailsOnlyOnConflict | src/Tandem.Application/Handlers/CreateUserCommandHandler.cs:20-36 | After validation passes, a create fails if and only if the address is already stored, and then with the conflict message. |
| Handlers.SendCreatePreservesValidity | src/Tandem.Application/Handlers/CreateUserCommandHandler.cs:20-36 | Starting from a valid table (keys, addresses, column bounds), a dispatched create leaves it valid. |
| UsersController.CreateOutcome | src/Tandem.Api/Controllers/UsersController.cs:27-45 | Success answers 201, with the body and the response's address as the `GetUserByEmail` route value. A validation failure answers 400 with the failure list. An `InvalidOperationException` answers 409 with its message. Anything else answers 400 "Invalid request data.". |
| UsersController.UpdateOutcome | src/Tandem.Api/Controllers/UsersController.cs:76-94 | Success answers 200 with the body. A validation failure answers 400 with the failure list. A `KeyNotFoundException` answers 404 with its message. Anything else answers 400 "Invalid request data.". |
| UsersController.CreateUser | src/Tandem.Api/Controllers/UsersController.cs:25-46 | An invalid request answers 400 with the validator's failures. A valid request answers 201 if and only if the address is new, and 409 with the conflict message if and only if it is taken. Only a 201 changes the table. |
| UsersController.GetUserByEmail | src/Tandem.Api/Controllers/UsersController.cs:52-68 | 400 if and only if the parameter is missing or blank, and then before any lookup. Otherwise the answer is 404 with the not-found message if and only if no user has the address. A stored address answers 200 with the first matching user's response. It never answers 500. |
| UsersController.UpdateUser | src/Tandem.Api/Controllers/UsersController.cs:74-95 | 404 if and only if the address is usable and unknown. 200 if and only if it is known and the required fields are non-null. A 200 carries the response of the first matching user after the update: same identifier, new full name and phone number, and the route's address. Under unique keys, the only write replaces that row with the updated user, and the table length never changes. Every other answer is 400 "Invalid request data.", never a failure list, since no update validator is modelled. Only a 200 changes the table. |
| Scenarios.FullNameExamples | tests/Tandem.IntegrationTests/UsersControllerTests.cs:42-84 | Gives "Matthew Decker Lund", and "John Doe" (null middle name), and "Jane Smith" (empty middle name), and "Updated New Name". |
| Scenarios.InvalidEmailIsRejected | tests/Tandem.IntegrationTests/UsersControllerTests.cs:104-117 | A create with "invalid-email" answers 400, carries the format failure and leaves the table unchanged. |
| Scenarios.MissingRequiredFieldIsRejected | tests/Tandem.IntegrationTests/UsersControllerTests.cs:119-162 | A create missing first name, last name or address answers 400, with a failure naming that field. |
| Scenarios.SecondCreateConflicts | tests/Tandem.IntegrationTests/UsersControllerTests.cs:87-102 | When a request answers 201, posting it again with another fresh identifier answers 409 with the conflict message and leaves the table unchanged. |
| Scenarios.GetAfterCreate | tests/Tandem.IntegrationTests/UsersControllerTests.cs:164-186 | A GET after a 201 answers 200 with the created response. |
| Scenarios.GetAfterUpdate | src/Tandem.Application/Handlers/UpdateUserCommandHandler.cs:28-40 | A GET after a 200 update answers 200 with the updated response. |
| Scenarios.UpdateLeavesOtherGetsAlone | src/Tandem.Application/Handlers/UpdateUserCommandHandler.cs:34 | An update of one address does not change what a GET of any other address answers. |
| Scenarios.UpdateCanOverflowColumns | src/Tandem.Application/Handlers/UpdateUserCommandHandler.cs:28-34 | Some valid table and update request answer 200 yet leave the table invalid, since update requests reach the handler unvalidated in this model. |
| Scenarios.CreateMatthewScenario | tests/Tandem.IntegrationTests/UsersControllerTests.cs:24-45 | Creating Matthew Decker Lund on a table without the address answers 201 with the joined name, the phone and the address. A following GET returns the same response. |
| Scenarios.UpdateScenario | tests/Tandem.IntegrationTests/UsersControllerTests.cs:212-241 | Updating Original Middle Name answers 200 with "Updated New Name", the new phone number and the unchanged address. |
| Scenarios.GetUnknownOrMissingAddress | tests/Tandem.IntegrationTests/UsersControllerTests.cs:188-210 | A GET of an unknown address answers 404 with the not-found message. A missing or empty parameter answers 400. |
| Scenarios.UpdateUnknownUserIsNotFound | tests/Tandem.IntegrationTests/UsersControllerTests.cs:243-255 | An update of an unknown address answers 404 and writes nothing. |
| Scenarios.UpdateWithOnlyPhoneIsBadRequest | tests/Tandem.IntegrationTests/UsersControllerTests.cs:257-278 | An update of a known user whose body holds only a phone number answers 400 "Invalid request data." and writes nothing. |

## Left out

- UsersController.UpdateUser: no update validator is modelled. If the assembly holds one, `AddValidatorsFromAssembly` registers it, and PUT answers 400 with its failure list before the handler runs.
- Handlers.HandleUpdateUser: the request reaches it unvalidated for the same reason. An update validator would refuse some requests this model lets through.

- Hosting, dependency injection, Swagger, HTTPS redirection and MediatR dispatch: framework wiring with no behaviour of its own. Handlers are called directly.
- Async/await, `CancellationToken` and EF Core change tracking: each request is one pure transition. `SaveChangesAsync` is the point where the new table is returned.
- Concurrency: the race between two concurrent creates with the same address is not modelled. Requests are sequential.
- Enforcement of the unique e-mail index by the database is not assumed. Uniqueness is proved from the create handler's own check.
- Storage failures other than a duplicate key on add and a missing row on update are not modelled. The in-memory provider is the only backend in scope.
- Model-binding 400s: a missing request body and ASP.NET's implicit required-field checks come from the framework. The model lets the validator and the null guards see such requests instead, and they also answer 400.
- `\d` in the phone pattern is read as the ASCII digits 0-9. .NET's `\d` also matches other Unicode decimal digits, so the model's phone rule is stricter for those characters.
- The Location header is represented by its route value (the response's address), not a formatted URL.
- The constructor guards of the repository, handlers and controller against null dependencies are not modelled: dependency injection always supplies them.
- Repeated GETs with no write in between return identical responses because `UsersController.GetUserByEmail` is a function of the table. No separate lemma states it.
