/** The exceptions the service throws and catches, as values. */
module Exceptions {

  /** One FluentValidation failure: the validated property and its message. */
  datatype ValidationFailure = ValidationFailure(propertyName: string, errorMessage: string)

  datatype Exception =
    /** `ArgumentNullException` for the named parameter. */
    | ArgumentNull(paramName: string)
    /** `ArgumentException` with its message and parameter. */
    | Argument(message: string, paramName: string)
    /** `InvalidOperationException`: the create handler's duplicate-email error. */
    | InvalidOperation(message: string)
    /** `KeyNotFoundException`: the update handler's missing-user error. */
    | KeyNotFound(message: string)
    /** FluentValidation's `ValidationException`, carrying every failure. */
    | Validation(errors: seq<ValidationFailure>)
    /** A storage-layer failure raised while saving changes. */
    | DbUpdate(message: string)
}
