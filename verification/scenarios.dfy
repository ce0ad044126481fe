/** Properties across several requests, and the integration tests'
    concrete cases, stated over the controller model. */
module Scenarios {
  import opened Wrappers
  import opened DotNetText
  import opened Exceptions
  import opened UserEntity
  import opened Dtos
  import opened CreateUserValidator
  import opened TandemDbContext
  import opened UserRepository
  import opened Handlers
  import opened UsersController

  /** The full names the tests expect: a middle name, a null one, an empty
      one, and the name after the update test. */
  lemma FullNameExamples(id: Guid)
    ensures FullName(User(id, "Matthew", Some("Decker"), "Lund", "555-555-5555", "m@x.com"))
            == "Matthew Decker Lund"
    ensures FullName(User(id, "John", None, "Doe", "555-123-4567", "john@example.com"))
            == "John Doe"
    ensures FullName(User(id, "Jane", Some(""), "Smith", "555-987-6543", "jane@example.com"))
            == "Jane Smith"
    ensures FullName(User(id, "Updated", Some("New"), "Name", "555-999-9999", "updatetest@example.com"))
            == "Updated New Name"
  {
    assert !IsWhiteSpace("Decker"[0]);
    assert !IsWhiteSpace("New"[0]);
  }

  /** A create request whose address has no '@' is refused with 400 and the
      format message, whatever the other fields hold. */
  lemma InvalidEmailIsRejected(s: Store, req: CreateUserRequest, id: Guid)
    requires IsFreshId(s, id)
    requires req.emailAddress == Some("invalid-email")
    ensures ValidationFailure("Request.EmailAddress", "EmailAddress format is invalid.") in Validate(req)
    ensures CreateUser(s, req, id).response.StatusCode() == 400
    ensures CreateUser(s, req, id).store == s
  {
    var e := "invalid-email";
    assert '@' !in e;
    NoAtSignIsNoEmail(e);
    assert !IsBlank(e) by {
      assert !IsWhiteSpace(e[0]);
    }
    assert HasValidator(EmailAddress, FormatValidator);
    FailureReportedIffCheckFails(req, EmailAddress, FormatValidator);
    assert !IsValid(req);
  }

  /** A create request missing its first name, last name or address is
      refused with 400, and the failures name the missing field. */
  lemma MissingRequiredFieldIsRejected(s: Store, req: CreateUserRequest, id: Guid, f: Field)
    requires IsFreshId(s, id)
    requires f == FirstName || f == LastName || f == EmailAddress
    requires FieldValue(req, f).None?
    ensures CreateUser(s, req, id).response.StatusCode() == 400
    ensures CreateUser(s, req, id).store == s
    ensures exists e :: e in Validate(req) && e.propertyName == PropertyName(f)
  {
    assert !FieldValid(req, f);
    FailuresNameExactlyTheFailingFields(req, f);
  }

  /** Posting the same request twice: created, then conflict. */
  lemma SecondCreateConflicts(s: Store, req: CreateUserRequest, id1: Guid, id2: Guid)
    requires IsFreshId(s, id1) && IsFreshId(s, id2) && id1 != id2
    ensures var first := CreateUser(s, req, id1);
      first.response.StatusCode() == 201 ==>
        && CreateUser(first.store, req, id2).response == Conflict(ConflictMessage(req.emailAddress.value))
        && CreateUser(first.store, req, id2).store == first.store
  {
    var first := CreateUser(s, req, id1);
    if first.response.StatusCode() != 201 {
      return;
    }
    var t := first.store;
    assert IsFreshId(t, id2) by {
      assert t.users == s.users + [UserFromRequest(req, id1)];
    }
    var u := UserFromRequest(req, id1);
    assert t.users[|s.users|] == u;
    assert ExistsByEmail(t, req.emailAddress);
  }

  /** A GET after a successful create returns the created user's response:
      the same name, phone number and e-mail address. */
  lemma GetAfterCreate(s: Store, req: CreateUserRequest, id: Guid)
    requires IsFreshId(s, id)
    ensures var x := CreateUser(s, req, id);
      x.response.StatusCode() == 201 ==>
        GetUserByEmail(x.store, req.emailAddress) == Ok(x.response.body)
  {
    var x := CreateUser(s, req, id);
    if x.response.StatusCode() != 201 {
      return;
    }
    var u := UserFromRequest(req, id);
    var n := |s.users|;
    assert x.store.users == s.users + [u];
    assert !ExistsByEmail(s, req.emailAddress);
    var k := IndexOfEmail(x.store, u.emailAddress);
    assert k == Some(n) by {
      assert x.store.users[n].emailAddress == u.emailAddress;
    }
    assert GetByEmail(x.store, req.emailAddress) == Success(Some(u));
  }

  /** A GET after a successful update returns the updated response. */
  lemma GetAfterUpdate(s: Store, email: string, req: UpdateUserRequest)
    requires IdentityValid(s)
    requires UpdateUser(s, email, req).response.StatusCode() == 200
    ensures var x := UpdateUser(s, email, req);
      GetUserByEmail(x.store, Some(email)) == Ok(x.response.body)
  {
    var x := UpdateUser(s, email, req);
    var i := IndexOfEmail(s, email).value;
    UpdateTouchesOnlyFoundUser(s, email, req);
    GetByEmailFindsTheOnlyMatch(x.store, email, i) by {
      UpdatePreservesIdentity(s, email, req);
    }
  }

  /** Two tables whose rows carry the same addresses in the same order
      find an address at the same row. */
  lemma SameAddressesSameIndex(s: Store, t: Store, email: string)
    requires |s.users| == |t.users|
    requires forall j | 0 <= j < |s.users| :: s.users[j].emailAddress == t.users[j].emailAddress
    ensures IndexOfEmail(s, email) == IndexOfEmail(t, email)
  {
  }

  /** An update of one address leaves what a GET of any other address
      returns unchanged. */
  lemma UpdateLeavesOtherGetsAlone(s: Store, email: string, other: string, req: UpdateUserRequest)
    requires IdentityValid(s)
    requires other != email
    ensures GetUserByEmail(UpdateUser(s, email, req).store, Some(other))
            == GetUserByEmail(s, Some(other))
  {
    var x := UpdateUser(s, email, req);
    if x.response.StatusCode() == 200 {
      UpdateTouchesOnlyFoundUser(s, email, req);
      SameAddressesSameIndex(s, x.store, other);
      var a := IndexOfEmail(s, other);
      if a.Some? {
        assert x.store.users[a.value] == s.users[a.value];
      }
    }
  }

  /** In this model an update request is not validated, so a 101-character
      first name is stored although the column holds 100: the table leaves
      the valid states. */
  lemma UpdateCanOverflowColumns()
    ensures exists s: Store, req: UpdateUserRequest ::
      && StoreValid(s)
      && UpdateUser(s, "a@b", req).response.StatusCode() == 200
      && !StoreValid(UpdateUser(s, "a@b", req).store)
  {
    var u := User(1, "A", None, "B", "1", "a@b");
    var s := Store([u]);
    var long := seq(101, _ => 'a');
    Utf16LengthOfBmp(long);
    Utf16LengthOfBmp("A");
    Utf16LengthOfBmp("B");
    Utf16LengthOfBmp("1");
    Utf16LengthOfBmp("a@b");
    var req := UpdateUserRequest(Some(long), None, Some("B"), Some("1"));
    assert !IsBlank("a@b") by { assert !IsWhiteSpace("a@b"[0]); }
    assert IndexOfEmail(s, "a@b") == Some(0);
    var x := UpdateUser(s, "a@b", req);
    assert x.store.users[0].firstName == long;
    assert StoreValid(s);
  }

  /** Creating Matthew Decker Lund on a table without that address answers
      201 with the joined name, the phone number and the address, and a GET
      then finds the same response. */
  lemma CreateMatthewScenario(s: Store, id: Guid)
    requires IsFreshId(s, id)
    requires !ExistsByEmail(s, Some("matt@awesomedomain.com"))
    ensures var req := CreateUserRequest(Some("Matthew"), Some("Decker"), Some("Lund"),
                                         Some("555-555-5555"), Some("matt@awesomedomain.com"));
      var x := CreateUser(s, req, id);
      && x.response.StatusCode() == 201
      && x.response.body == UserResponse(id, "Matthew Decker Lund", "555-555-5555", "matt@awesomedomain.com")
      && GetUserByEmail(x.store, Some("matt@awesomedomain.com")) == Ok(x.response.body)
  {
    var req := CreateUserRequest(Some("Matthew"), Some("Decker"), Some("Lund"),
                                 Some("555-555-5555"), Some("matt@awesomedomain.com"));
    MatthewRequestIsValid();
    FullNameExamples(id);
    GetAfterCreate(s, req, id);
  }

  /** The update test: Original Middle Name becomes Updated New Name, with a
      new phone number and the same address. */
  lemma UpdateScenario(s: Store, id: Guid, j: nat)
    requires IdentityValid(s)
    requires j < |s.users|
    requires s.users[j] == User(id, "Original", Some("Middle"), "Name", "555-111-1111", "updatetest@example.com")
    ensures var req := UpdateUserRequest(Some("Updated"), Some("New"), Some("Name"), Some("555-999-9999"));
      UpdateUser(s, "updatetest@example.com", req).response
        == Ok(UserResponse(id, "Updated New Name", "555-999-9999", "updatetest@example.com"))
  {
    var email := "updatetest@example.com";
    var req := UpdateUserRequest(Some("Updated"), Some("New"), Some("Name"), Some("555-999-9999"));
    assert !IsBlank(email) by {
      assert !IsWhiteSpace(email[0]);
    }
    GetByEmailFindsTheOnlyMatch(s, email, j);
    var v := Updated(s.users[j], req);
    assert v == User(id, "Updated", Some("New"), "Name", "555-999-9999", email);
    FullNameExamples(id);
    var r := HandleUpdateUser(s, email, req).result;
    assert r.Success?;
    assert r.value == ToResponse(v);
  }

  /** The GET tests for an unknown address and for a missing or empty
      parameter. */
  lemma GetUnknownOrMissingAddress(s: Store)
    ensures !ExistsByEmail(s, Some("nonexistent@example.com")) ==>
      GetUserByEmail(s, Some("nonexistent@example.com"))
        == NotFound(NotFoundMessage("nonexistent@example.com"))
    ensures GetUserByEmail(s, None) == BadRequest(MissingQueryMessage)
    ensures GetUserByEmail(s, Some("")) == BadRequest(MissingQueryMessage)
  {
    assert !IsBlank("nonexistent@example.com") by {
      assert !IsWhiteSpace("nonexistent@example.com"[0]);
    }
  }

  /** The update test for an unknown address: 404, and nothing is written. */
  lemma UpdateUnknownUserIsNotFound(s: Store)
    requires !ExistsByEmail(s, Some("nonexistent@example.com"))
    ensures var req := UpdateUserRequest(Some("Test"), None, Some("User"), Some("555-111-1111"));
      UpdateUser(s, "nonexistent@example.com", req)
        == Exchange(s, NotFound(NotFoundMessage("nonexistent@example.com")))
  {
    assert !IsBlank("nonexistent@example.com") by {
      assert !IsWhiteSpace("nonexistent@example.com"[0]);
    }
  }

  /** The update test whose body carries only a phone number: the entity's
      null guard throws, the generic catch clause answers 400, and the
      stored user is untouched. */
  lemma UpdateWithOnlyPhoneIsBadRequest(s: Store, email: string)
    requires !IsBlank(email) && ExistsByEmail(s, Some(email))
    ensures var req := UpdateUserRequest(None, None, None, Some("555-999-9999"));
      UpdateUser(s, email, req) == Exchange(s, BadRequest(InvalidRequestMessage))
  {
  }
}
