/**
  `ResponseExceptionHandler`: the controller advice that turns the failures
  its handler methods claim into an HTTP status and an
  `ExceptionResponseDto {code, message}` body. The standard Spring MVC
  exceptions that its base class `ResponseEntityExceptionHandler` answers
  itself are not among them, except the two hooks it overrides.

  The framework picks a handler method by the exception's type; here the
  failures form a closed datatype and `Translate` matches on it, one case per
  handler method. Logging is left out: it never changes what is returned.
 */
module ResponseExceptionHandler {
  import opened JavaLang
  import opened Exceptions
  import opened ViolationMessages

  /** `HttpStatus.NOT_FOUND.value()` */
  const NotFound: int := 404

  const MissingHeaderPrefix: string := "Missing header: "
  const FallbackMessage: string := "Something went wrong, please try again"
  const NoMessageAvailable: string := "No message available"

  /** The wire-level error body. */
  datatype ExceptionResponseDto = ExceptionResponseDto(code: int, message: string)

  /** A `ResponseEntity`: the status line and the body sent with it. */
  datatype Response = Response(status: int, body: ExceptionResponseDto)

  /** A Spring `FieldError` as the handler reads it. */
  datatype FieldError = FieldError(field: string, code: string, defaultMessage: string)

  /** The exception a handler lets escape instead of answering. */
  datatype Fault = IndexOutOfBounds

  /** What one handler invocation produces. */
  datatype Outcome = Answered(response: Response) | Raised(fault: Fault)

  /** The failures the handler methods of this class accept, one variant per
      method. */
  datatype Failure =
    | Defined(ex: BasicException)
      // BasicException and its subclasses
    | MissingHeader(headerName: string)
      // MissingRequestHeaderException
    | FieldValidation(status: int, fieldErrors: seq<FieldError>)
      // MethodArgumentNotValidException with the status Spring passes along
    | ConstraintViolations(exMessage: Nullable<string>, violations: seq<Violation>)
      // javax.validation.ConstraintViolationException
    | DemoNotAvailable
      // DemoNotAvailableException
    | MethodNotSupported(exMessage: Nullable<string>)
      // HttpRequestMethodNotSupportedException
    | Other
      // an exception no more specific handler claims, this class's or the
      // base class's

  /** The rule codes `getException` recognises. */
  predicate RecognisedRuleCode(code: string)
  {
    code == "NotBlank" || code == "ValidEnum" || code == "NotNull" || code == "NotEmpty" || code == "Size"
  }

  /** `buildBody(BasicException)`: the exception's own code and message. */
  function BuildBody(classes: ExceptionClasses, ex: BasicException): (b: ExceptionResponseDto)
    ensures b.code == CodeOf(classes, ex).code
    ensures b.message == MessageOf(classes, ex)
  {
    ExceptionResponseDto(CodeOf(classes, ex).code, MessageOf(classes, ex))
  }

  /** `handleDefinedExceptions` */
  function HandleDefinedExceptions(classes: ExceptionClasses, ex: BasicException): (r: Response)
    ensures r.status == CodeOf(classes, ex).httpStatus
    ensures r.body == BuildBody(classes, ex)
    ensures ex.Basic? ==> r == Response(ex.exceptionCode.httpStatus, ExceptionResponseDto(ex.exceptionCode.code, ex.message))
  {
    Response(CodeOf(classes, ex).httpStatus, BuildBody(classes, ex))
  }

  /** `handleMissingRequestHeader(String)`: the message is the fixed prefix
      followed by the header name, so the name can be read back from it. */
  function HandleMissingRequestHeader(codes: CodeTable, headerName: string): (r: Response)
    ensures r.status == codes.missingRequestHeader.httpStatus
    ensures r.body.code == codes.missingRequestHeader.code
    ensures |r.body.message| == |MissingHeaderPrefix| + |headerName|
    ensures r.body.message[..|MissingHeaderPrefix|] == MissingHeaderPrefix
    ensures r.body.message[|MissingHeaderPrefix|..] == headerName
  {
    Response(codes.missingRequestHeader.httpStatus,
             ExceptionResponseDto(codes.missingRequestHeader.code, MissingHeaderPrefix + headerName))
  }

  /** `getException`: the exception a field error is turned into, chosen by
      the error's rule code; exactly five codes are recognised. */
  function GetException(codes: CodeTable, fieldError: FieldError): (ex: BasicException)
    ensures ex.ConstraintViolation? <==> fieldError.code in ["NotBlank", "ValidEnum"]
    ensures ex.ConstraintViolation? ==> ex.message == fieldError.defaultMessage
    ensures ex.EmptyRequiredField? <==> fieldError.code in ["NotNull", "NotEmpty"]
    ensures ex.EmptyRequiredField? ==> ex.field == fieldError.field
    ensures ex.ConstraintViolationOnField? <==> fieldError.code == "Size"
    ensures ex.ConstraintViolationOnField? ==> ex.field == fieldError.field && ex.message == fieldError.defaultMessage
    ensures ex.Basic? <==> !RecognisedRuleCode(fieldError.code)
    ensures ex.Basic? ==> ex.exceptionCode == codes.undefined && ex.message == ""
  {
    match fieldError.code
    case "NotBlank" => ConstraintViolation(fieldError.defaultMessage)
    case "ValidEnum" => ConstraintViolation(fieldError.defaultMessage)
    case "NotNull" => EmptyRequiredField(fieldError.field)
    case "NotEmpty" => EmptyRequiredField(fieldError.field)
    case "Size" => ConstraintViolationOnField(fieldError.field, fieldError.defaultMessage)
    case _ => Basic(codes.undefined, "")
  }

  /** `handleMethodArgumentNotValid`: only the first field error is
      translated, under the status the framework passed in; with no field
      errors `get(0)` throws. */
  function HandleMethodArgumentNotValid(codes: CodeTable, classes: ExceptionClasses, status: int, fieldErrors: seq<FieldError>): (r: Outcome)
    ensures r.Raised? <==> |fieldErrors| == 0
    ensures r.Raised? ==> r.fault == IndexOutOfBounds
    ensures r.Answered? ==> r.response.status == status
    ensures r.Answered? ==> r.response.body == BuildBody(classes, GetException(codes, fieldErrors[0]))
  {
    if |fieldErrors| == 0 then Raised(IndexOutOfBounds)
    else Answered(Response(status, BuildBody(classes, GetException(codes, fieldErrors[0]))))
  }

  /** `handleConstraintViolationException`: the exception's message and "; "
      once per violation. */
  function HandleConstraintViolationException(codes: CodeTable, exMessage: Nullable<string>, violations: seq<Violation>): (r: Response)
    ensures r.status == codes.validationConstraintViolation.httpStatus
    ensures r.body.code == codes.validationConstraintViolation.code
    ensures |r.body.message| == |violations| * (|AppendedText(exMessage)| + 2)
  {
    Response(codes.validationConstraintViolation.httpStatus,
             ExceptionResponseDto(codes.validationConstraintViolation.code, ViolationMessage(exMessage, violations)))
  }

  /** `handleUndefinedExceptions` with the argument-less `buildBody`. */
  function HandleUndefinedExceptions(codes: CodeTable): (r: Response)
    ensures r.status == codes.undefined.httpStatus
    ensures r.body.code == codes.undefined.code
    ensures r.body.message == "Something went wrong, please try again"
  {
    Response(codes.undefined.httpStatus, ExceptionResponseDto(codes.undefined.code, FallbackMessage))
  }

  /** `handleDemoNotAvailableException`: 404 in the status line and in the body. */
  function HandleDemoNotAvailableException(classes: ExceptionClasses): (r: Response)
    ensures r.status == 404 && r.body.code == 404
    ensures r.body.message == classes.demoNotAvailableMessage
  {
    Response(NotFound, ExceptionResponseDto(NotFound, classes.demoNotAvailableMessage))
  }

  /** `handleHttpRequestMethodNotSupported`: 404 with the undefined code and the
      exception's message, or a fixed text when it has none. */
  function HandleHttpRequestMethodNotSupported(codes: CodeTable, exMessage: Nullable<string>): (r: Response)
    ensures r.status == 404
    ensures r.body.code == codes.undefined.code
    ensures exMessage.Present? ==> r.body.message == exMessage.value
    ensures exMessage.Null? ==> r.body.message == "No message available"
  {
    Response(NotFound, ExceptionResponseDto(codes.undefined.code,
      match exMessage
      case Present(m) => m
      case Null => NoMessageAvailable))
  }

  /** The dispatch the framework performs: each failure reaches the handler
      method for its type; an exception that no more specific handler claims
      reaches `handleUndefinedExceptions`. */
  function Translate(codes: CodeTable, classes: ExceptionClasses, f: Failure): (r: Outcome)
    ensures r.Raised? <==> f.FieldValidation? && |f.fieldErrors| == 0
  {
    match f
    case Defined(ex) => Answered(HandleDefinedExceptions(classes, ex))
    case MissingHeader(h) => Answered(HandleMissingRequestHeader(codes, h))
    case FieldValidation(status, errs) => HandleMethodArgumentNotValid(codes, classes, status, errs)
    case ConstraintViolations(m, vs) => Answered(HandleConstraintViolationException(codes, m, vs))
    case DemoNotAvailable => Answered(HandleDemoNotAvailableException(classes))
    case MethodNotSupported(m) => Answered(HandleHttpRequestMethodNotSupported(codes, m))
    case Other => Answered(HandleUndefinedExceptions(codes))
  }
}
