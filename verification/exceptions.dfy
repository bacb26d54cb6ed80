/**
  The failure taxonomy the handler consumes: the `CommonExceptionCode` entries
  it names and the `BasicException` family it builds and translates.

  The numeric values of the codes, the codes the exception subclasses carry and
  the messages their constructors compose live in classes outside this model,
  so they enter as parameters (`CodeTable`, `ExceptionClasses`) and every
  property holds whatever those values are.
 */
module Exceptions {

  /** One entry of `CommonExceptionCode`: the numeric code put in the response
      body and the HTTP status sent with it. */
  datatype ExceptionCode = ExceptionCode(code: int, httpStatus: int)

  /** The three `CommonExceptionCode` entries the handler refers to by name. */
  datatype CodeTable = CodeTable(
    missingRequestHeader: ExceptionCode,
    validationConstraintViolation: ExceptionCode,
    undefined: ExceptionCode)

  /** What the exception classes built by the handler decide for themselves:
      the code each constructor hands to `BasicException` (one field per
      constructor, since nothing says two of them agree), the message each
      constructor composes from its arguments, and
      `DemoNotAvailableException.MESSAGE`. */
  datatype ExceptionClasses = ExceptionClasses(
    constraintViolationCode: ExceptionCode,
    constraintViolationOnFieldCode: ExceptionCode,
    emptyRequiredFieldCode: ExceptionCode,
    constraintViolationMessage: string -> string,
    constraintViolationOnFieldMessage: (string, string) -> string,
    emptyRequiredFieldMessage: string -> string,
    demoNotAvailableMessage: string)

  /** A `BasicException`, recording the constructor it came from and that
      constructor's arguments. */
  datatype BasicException =
    | Basic(exceptionCode: ExceptionCode, message: string)
      // new BasicException(code, message)
    | ConstraintViolation(message: string)
      // new ConstraintViolationException(message)
    | ConstraintViolationOnField(field: string, message: string)
      // new ConstraintViolationException(field, message)
    | EmptyRequiredField(field: string)
      // new EmptyRequiredFieldException(field)

  /** `ex.getExceptionCode()` */
  function CodeOf(classes: ExceptionClasses, ex: BasicException): ExceptionCode
  {
    match ex
    case Basic(c, _) => c
    case ConstraintViolation(_) => classes.constraintViolationCode
    case ConstraintViolationOnField(_, _) => classes.constraintViolationOnFieldCode
    case EmptyRequiredField(_) => classes.emptyRequiredFieldCode
  }

  /** `ex.getMessage()` */
  function MessageOf(classes: ExceptionClasses, ex: BasicException): string
  {
    match ex
    case Basic(_, m) => m
    case ConstraintViolation(m) => classes.constraintViolationMessage(m)
    case ConstraintViolationOnField(f, m) => classes.constraintViolationOnFieldMessage(f, m)
    case EmptyRequiredField(f) => classes.emptyRequiredFieldMessage(f)
  }
}
