/** The request and response records. A field the client may leave out or
    send as JSON `null` is an `Option`. */
module Dtos {
  import opened Wrappers
  import opened UserEntity

  datatype CreateUserRequest = CreateUserRequest(
    firstName: Option<string>,
    middleName: Option<string>,
    lastName: Option<string>,
    phoneNumber: Option<string>,
    emailAddress: Option<string>)

  datatype UpdateUserRequest = UpdateUserRequest(
    firstName: Option<string>,
    middleName: Option<string>,
    lastName: Option<string>,
    phoneNumber: Option<string>)

  datatype UserResponse = UserResponse(
    userId: Guid,
    name: string,
    phoneNumber: string,
    emailAddress: string)

  /** The mapping every handler applies to the user it read or wrote. */
  function ToResponse(u: User): UserResponse {
    UserResponse(u.userId, FullName(u), u.phoneNumber, u.emailAddress)
  }
}
