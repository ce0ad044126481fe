/** The `User` entity: construction, in-place update and the full-name rule. */
module UserEntity {
  import opened Wrappers
  import opened DotNetText
  import opened Exceptions

  /** A 128-bit GUID, as its integer value. */
  newtype Guid = x: int | 0 <= x < 0x1_0000_0000_0000_0000_0000_0000_0000_0000

  /** `Guid.Empty`. */
  const EmptyGuid: Guid := 0

  /** A constructed user: the required fields are never null. */
  datatype User = User(
    userId: Guid,
    firstName: string,
    middleName: Option<string>,
    lastName: string,
    phoneNumber: string,
    emailAddress: string)

  /** The public constructor. The identifier is the one `Guid.NewGuid` would
      produce; a null required argument throws `ArgumentNullException`, the
      first such argument in declaration order being the one reported. */
  function NewUser(
    id: Guid,
    firstName: Option<string>,
    middleName: Option<string>,
    lastName: Option<string>,
    phoneNumber: Option<string>,
    emailAddress: Option<string>): (r: Result<User, Exception>)
    ensures r.Success? <==>
      firstName.Some? && lastName.Some? && phoneNumber.Some? && emailAddress.Some?
    ensures r.Success? ==>
      && r.value.userId == id
      && Some(r.value.firstName) == firstName
      && r.value.middleName == middleName
      && Some(r.value.lastName) == lastName
      && Some(r.value.phoneNumber) == phoneNumber
      && Some(r.value.emailAddress) == emailAddress
    ensures firstName.None? ==> r == Failure(ArgumentNull("firstName"))
    ensures firstName.Some? && lastName.None? ==> r == Failure(ArgumentNull("lastName"))
    ensures firstName.Some? && lastName.Some? && phoneNumber.None? ==>
      r == Failure(ArgumentNull("phoneNumber"))
    ensures firstName.Some? && lastName.Some? && phoneNumber.Some? && emailAddress.None? ==>
      r == Failure(ArgumentNull("emailAddress"))
  {
    if firstName.None? then Failure(ArgumentNull("firstName"))
    else if lastName.None? then Failure(ArgumentNull("lastName"))
    else if phoneNumber.None? then Failure(ArgumentNull("phoneNumber"))
    else if emailAddress.None? then Failure(ArgumentNull("emailAddress"))
    else Success(User(id, firstName.value, middleName, lastName.value, phoneNumber.value, emailAddress.value))
  }

  /** The entity after an `Update` call, and the exception it threw, if any.
      `Update` assigns field by field, so a throw can leave earlier fields
      already changed. */
  datatype Mutation = Mutation(user: User, thrown: Option<Exception>)

  /** `User.Update`: assigns first name, middle name, last name and phone
      number in that order, throwing at the first null required value. */
  function Update(
    u: User,
    firstName: Option<string>,
    middleName: Option<string>,
    lastName: Option<string>,
    phoneNumber: Option<string>): (m: Mutation)
    ensures m.user.userId == u.userId && m.user.emailAddress == u.emailAddress
    ensures m.thrown.None? <==> firstName.Some? && lastName.Some? && phoneNumber.Some?
    ensures m.thrown.None? ==>
      && Some(m.user.firstName) == firstName
      && m.user.middleName == middleName
      && Some(m.user.lastName) == lastName
      && Some(m.user.phoneNumber) == phoneNumber
    // not atomic: what is already assigned when the exception is thrown
    ensures firstName.None? ==> m == Mutation(u, Some(ArgumentNull("firstName")))
    ensures firstName.Some? && lastName.None? ==>
      m == Mutation(u.(firstName := firstName.value, middleName := middleName),
                    Some(ArgumentNull("lastName")))
    ensures firstName.Some? && lastName.Some? && phoneNumber.None? ==>
      m == Mutation(u.(firstName := firstName.value, middleName := middleName,
                       lastName := lastName.value),
                    Some(ArgumentNull("phoneNumber")))
  {
    if firstName.None? then Mutation(u, Some(ArgumentNull("firstName")))
    else
      var u1 := u.(firstName := firstName.value).(middleName := middleName);
      if lastName.None? then Mutation(u1, Some(ArgumentNull("lastName")))
      else
        var u2 := u1.(lastName := lastName.value);
        if phoneNumber.None? then Mutation(u2, Some(ArgumentNull("phoneNumber")))
        else Mutation(u2.(phoneNumber := phoneNumber.value), None)
  }

  /** `GetFullName`: the first name, the middle name when it is not null or
      white space, and the last name, joined by single spaces. */
  function FullName(u: User): (r: string)
    ensures !IsNullOrWhiteSpace(u.middleName) ==>
      r == u.firstName + " " + u.middleName.value + " " + u.lastName
    ensures IsNullOrWhiteSpace(u.middleName) ==> r == u.firstName + " " + u.lastName
  {
    var parts :=
      if IsNullOrWhiteSpace(u.middleName) then [u.firstName, u.lastName]
      else [u.firstName, u.middleName.value, u.lastName];
    assert Join(" ", parts[|parts| - 1..]) == u.lastName;
    assert |parts| == 3 ==> Join(" ", parts[1..]) == u.middleName.value + " " + u.lastName by {
      if |parts| == 3 {
        assert parts[1..][1..] == [u.lastName];
      }
    }
    Join(" ", parts)
  }

  /** The full name depends on the three name fields only: the identifier,
      phone number and e-mail address play no part in it. */
  lemma FullNameReadsOnlyNames(u: User, v: User)
    requires u.firstName == v.firstName && u.middleName == v.middleName
    requires u.lastName == v.lastName
    ensures FullName(u) == FullName(v)
  {
  }

  /** A successful update fixes the full name from the new values alone. */
  lemma FullNameAfterUpdate(u: User, first: string, middle: Option<string>, last: string, phone: string)
    ensures
      var m := Update(u, Some(first), middle, Some(last), Some(phone));
      m.thrown.None? &&
      FullName(m.user) ==
        if IsNullOrWhiteSpace(middle) then first + " " + last
        else first + " " + middle.value + " " + last
  {
  }
}
