/** `UserRepository` over the `Users` table. Every query is
    `FirstOrDefault`: the first row in table order that matches. */
module UserRepository {
  import opened Wrappers
  import opened DotNetText
  import opened Exceptions
  import opened UserEntity
  import opened TandemDbContext

  /** The index of the first element satisfying `p`, if any. */
  function FirstMatch<T>(xs: seq<T>, p: T -> bool): (r: Option<nat>)
    ensures r.Some? ==> r.value < |xs| && p(xs[r.value])
    ensures r.Some? ==> forall j | 0 <= j < r.value :: !p(xs[j])
    ensures r.None? <==> forall j | 0 <= j < |xs| :: !p(xs[j])
  {
    if |xs| == 0 then None
    else if p(xs[0]) then Some(0)
    else
      match FirstMatch(xs[1..], p)
      case None => None
      case Some(k) => Some(k + 1)
  }

  predicate HasId(u: User, id: Guid) {
    u.userId == id
  }

  predicate HasEmail(u: User, email: string) {
    u.emailAddress == email
  }

  /** The index of the first row with the given e-mail address. */
  function IndexOfEmail(s: Store, email: string): (r: Option<nat>)
    ensures r.Some? ==> r.value < |s.users| && s.users[r.value].emailAddress == email
    ensures r.Some? ==> forall j | 0 <= j < r.value :: s.users[j].emailAddress != email
    ensures r.None? <==> forall j | 0 <= j < |s.users| :: s.users[j].emailAddress != email
  {
    FirstMatch(s.users, u => HasEmail(u, email))
  }

  /** The index of the first row with the given key. */
  function IndexOfId(s: Store, id: Guid): (r: Option<nat>)
    ensures r.Some? ==> r.value < |s.users| && s.users[r.value].userId == id
    ensures r.Some? ==> forall j | 0 <= j < r.value :: s.users[j].userId != id
    ensures r.None? <==> forall j | 0 <= j < |s.users| :: s.users[j].userId != id
  {
    FirstMatch(s.users, u => HasId(u, id))
  }

  const BlankEmailMessage := "Email address cannot be null or empty."

  /** `GetByIdAsync`. */
  function GetById(s: Store, id: Guid): (r: Option<User>)
    ensures r.Some? ==> r.value in s.users && r.value.userId == id
    ensures r.Some? ==> r.value == s.users[IndexOfId(s, id).value]
    ensures r.None? <==> forall j | 0 <= j < |s.users| :: s.users[j].userId != id
  {
    match IndexOfId(s, id)
    case None => None
    case Some(i) => Some(s.users[i])
  }

  /** `GetByEmailAddressAsync`: a null or white-space address is an argument
      error, not a miss. */
  function GetByEmail(s: Store, email: Option<string>): (r: Result<Option<User>, Exception>)
    ensures r.Failure? <==> IsNullOrWhiteSpace(email)
    ensures r.Failure? ==> r.error == Argument(BlankEmailMessage, "emailAddress")
    ensures r.Success? && r.value.Some? ==>
      r.value.value in s.users && Some(r.value.value.emailAddress) == email
    ensures r.Success? && r.value.Some? ==>
      r.value.value == s.users[IndexOfEmail(s, email.value).value]
    ensures r.Success? ==>
      (r.value.None? <==> forall j | 0 <= j < |s.users| :: Some(s.users[j].emailAddress) != email)
  {
    if IsNullOrWhiteSpace(email) then Failure(Argument(BlankEmailMessage, "emailAddress"))
    else
      match IndexOfEmail(s, email.value)
      case None => Success(None)
      case Some(i) => Success(Some(s.users[i]))
  }

  /** `ExistsByEmailAddressAsync`: false, without error, for a null or
      white-space address. */
  function ExistsByEmail(s: Store, email: Option<string>): (r: bool)
    ensures IsNullOrWhiteSpace(email) ==> !r
    ensures !IsNullOrWhiteSpace(email) ==>
      (r <==> exists j | 0 <= j < |s.users| :: s.users[j].emailAddress == email.value)
  {
    !IsNullOrWhiteSpace(email) && IndexOfEmail(s, email.value).Some?
  }

  /** For a usable address the existence test and the lookup agree. */
  lemma ExistsAgreesWithGet(s: Store, email: Option<string>)
    requires !IsNullOrWhiteSpace(email)
    ensures ExistsByEmail(s, email) <==> GetByEmail(s, email).Success? && GetByEmail(s, email).value.Some?
  {
    if ExistsByEmail(s, email) {
      var j :| 0 <= j < |s.users| && s.users[j].emailAddress == email.value;
      assert Some(s.users[j].emailAddress) == email;
    }
  }

  /** In a valid store the row an address finds is the only one with that
      address. */
  lemma GetByEmailFindsTheOnlyMatch(s: Store, email: string, j: nat)
    requires EmailsUnique(s)
    requires !IsBlank(email)
    requires j < |s.users| && s.users[j].emailAddress == email
    ensures GetByEmail(s, Some(email)) == Success(Some(s.users[j]))
  {
  }

  /** `AddAsync`: rejects null; otherwise appends the row and returns the
      same user. A second row with an existing key fails on save. The
      unique e-mail index is not checked here: callers check first. */
  function Add(s: Store, user: Option<User>): (r: Result<(Store, User), Exception>)
    ensures user.None? ==> r == Failure(ArgumentNull("user"))
    ensures r.Success? <==> user.Some? && IndexOfId(s, user.value.userId).None?
    ensures r.Success? ==> r.value.0.users == s.users + [user.value] && r.value.1 == user.value
  {
    match user
    case None => Failure(ArgumentNull("user"))
    case Some(u) =>
      if IndexOfId(s, u.userId).Some? then
        Failure(DbUpdate("An item with the same key has already been added."))
      else Success((Store(s.users + [u]), u))
  }

  /** `UpdateAsync`: rejects null; otherwise overwrites the row with the
      same key and returns the same user. With no such row the save fails. */
  function Update(s: Store, user: Option<User>): (r: Result<(Store, User), Exception>)
    ensures user.None? ==> r == Failure(ArgumentNull("user"))
    ensures r.Success? <==> user.Some? && IndexOfId(s, user.value.userId).Some?
    ensures r.Success? ==>
      var i := IndexOfId(s, user.value.userId).value;
      && r.value.0.users == s.users[i := user.value]
      && r.value.1 == user.value
  {
    match user
    case None => Failure(ArgumentNull("user"))
    case Some(u) =>
      match IndexOfId(s, u.userId)
      case None => Failure(DbUpdate("The entity to update does not exist in the store."))
      case Some(i) => Success((Store(s.users[i := u]), u))
  }

  /** Only the row with the user's key changes, and it becomes that user. */
  lemma UpdateTouchesOnlyItsRow(s: Store, u: User)
    requires KeysUnique(s)
    requires Update(s, Some(u)).Success?
    ensures var t := Update(s, Some(u)).value.0;
      && |t.users| == |s.users|
      && forall j | 0 <= j < |s.users| ::
           t.users[j] == if s.users[j].userId == u.userId then u else s.users[j]
  {
    var i := IndexOfId(s, u.userId).value;
    forall j | 0 <= j < |s.users| && j != i
      ensures s.users[j].userId != u.userId
    {
      if j < i {
        assert s.users[j].userId != s.users[i].userId;
      } else {
        assert s.users[i].userId != s.users[j].userId;
      }
    }
  }
}
