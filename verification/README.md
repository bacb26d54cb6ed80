# CompreFace REST error translator, modelled in Dafny

CompreFace's services share one controller advice, `ResponseExceptionHandler`,
that turns the failures its handler methods claim into an HTTP status and a
JSON body `{code, message}` (`ExceptionResponseDto`). Its catch-all,
`handleUndefinedExceptions`, receives every exception that no more specific
handler claims. This project models that translation as pure functions over a
closed datatype of failures and proves what each branch answers.

- `java_lang.dfy` — `JavaLang`: a nullable reference, and the text
  `StringBuilder.append` writes for one (`"null"` for a null string).
- `exceptions.dfy` — `Exceptions`: `CommonExceptionCode` entries (`code`,
  `httpStatus`), the three entries the handler names (`CodeTable`), and the
  `BasicException` family it builds, with `getExceptionCode()` / `getMessage()`.
  The numeric code values, the code each exception constructor passes on (one
  parameter per constructor), the messages the constructors compose and `DemoNotAvailableException.MESSAGE`
  are not part of this model; they are parameters (`CodeTable`,
  `ExceptionClasses`), so every property holds for any values of them.
- `violation_message.dfy` — `ViolationMessages`: the `StringBuilder` loop of
  the constraint-violation handler, as a function, as a method with a loop, and
  against an independent reference (`Repeat`).
- `response_exception_handler.dfy` — `ResponseExceptionHandler`: one function
  per handler method, `getException`, `buildBody`, and `Translate`, which
  replaces Spring's by-type dispatch with a match over the failure variants
  (`Defined`, `MissingHeader`, `FieldValidation`, `ConstraintViolations`,
  `DemoNotAvailable`, `MethodNotSupported`, and `Other` for an exception no
  more specific handler claims). The
  `buildBody(Integer, String)` overload is the `ExceptionResponseDto`
  constructor itself. The two `handleMissingRequestHeader` overloads are one
  function: the exception overload only reads the header name.
- `translation_properties.dfy` — `TranslationProperties`: the exact answer to
  every failure kind and the statuses and codes that can reach the wire.

Three behaviours of the code that are easy to misread:

- The constraint-violation loop (`ResponseExceptionHandler.java:84-87`)
  appends the exception's overall message once per violation and never reads
  the violation itself. Two violations "A" and "B" on an exception whose
  message is "m" therefore give `"m; m; "`
  (`TranslationProperties.ViolationMessagesNotJoined`).
- With an empty field-error list, `get(0)` at `ResponseExceptionHandler.java:71`
  throws, so that case is `Raised(IndexOutOfBounds)`
  (`ResponseExceptionHandler.Translate`).
- A field-validation failure is answered with the status the framework hands
  in (`ResponseExceptionHandler.java:75`), not with the status of the code
  carried by the exception built from the field error; that code only reaches
  the body.

## Model

| member | source | states |
|---|---|---|
| `ResponseExceptionHandler.BuildBody` | java/common/src/main/java/com/exadel/frs/commonservice/handler/ResponseExceptionHandler.java:139-144 | the body carries the exception's own code and its own message |
| `ResponseExceptionHandler.HandleDefinedExceptions` | java/common/src/main/java/com/exadel/frs/commonservice/handler/ResponseExceptionHandler.java:45-52 | a defined failure is answered with its code's HTTP status; a plain `BasicException(code, message)` gets back exactly that code and message |
| `ResponseExceptionHandler.HandleMissingRequestHeader` | java/common/src/main/java/com/exadel/frs/commonservice/handler/ResponseExceptionHandler.java:55-65 | status and code come from `MISSING_REQUEST_HEADER`; the message splits into the fixed prefix and the header name, so the name can be read back from it |
| `ResponseExceptionHandler.GetException` | java/common/src/main/java/com/exadel/frs/commonservice/handler/ResponseExceptionHandler.java:117-137 | for each exception kind, the rule codes that produce it (both directions); exactly five codes are recognised; every other code gives `BasicException(UNDEFINED, "")` |
| `ResponseExceptionHandler.HandleMethodArgumentNotValid` | java/common/src/main/java/com/exadel/frs/commonservice/handler/ResponseExceptionHandler.java:67-77 | throws exactly when there are no field errors; otherwise answers with the status it was given and the body of the exception built from the first field error |
| `ResponseExceptionHandler.HandleConstraintViolationException` | java/common/src/main/java/com/exadel/frs/commonservice/handler/ResponseExceptionHandler.java:79-91 | status and code come from `VALIDATION_CONSTRAINT_VIOLATION`; the message has length n·(\|message\|+2) for n violations |
| `ResponseExceptionHandler.HandleUndefinedExceptions` | java/common/src/main/java/com/exadel/frs/commonservice/handler/ResponseExceptionHandler.java:93-98 | status and code come from `UNDEFINED`; the message is the fixed apology text |
| `ResponseExceptionHandler.HandleDemoNotAvailableException` | java/common/src/main/java/com/exadel/frs/commonservice/handler/ResponseExceptionHandler.java:100-103 | 404 both as status and as body code, with the demo-not-available message |
| `ResponseExceptionHandler.HandleHttpRequestMethodNotSupported` | java/common/src/main/java/com/exadel/frs/commonservice/handler/ResponseExceptionHandler.java:105-115 | status 404 with the `UNDEFINED` code; the message is the exception's own when it has one, else "No message available" |
| `ResponseExceptionHandler.Translate` | java/common/src/main/java/com/exadel/frs/commonservice/handler/ResponseExceptionHandler.java:45-115 | every modelled failure is answered by the handler for its type, except a field-validation failure with no field errors, which throws |
| `ViolationMessages.ViolationMessage` | java/common/src/main/java/com/exadel/frs/commonservice/handler/ResponseExceptionHandler.java:83-87 | after n violations the builder holds n·(\|message\|+2) characters |
| `ViolationMessages.ViolationMessageIsRepeat` | java/common/src/main/java/com/exadel/frs/commonservice/handler/ResponseExceptionHandler.java:84-87 | the builder's contents equal the segment (message and "; ") repeated once per violation |
| `ViolationMessages.ViolationContentsIgnored` | java/common/src/main/java/com/exadel/frs/commonservice/handler/ResponseExceptionHandler.java:84-86 | two violation collections of the same size give the same message: the loop variable is never read |
| `ViolationMessages.BuildViolationMessage` | java/common/src/main/java/com/exadel/frs/commonservice/handler/ResponseExceptionHandler.java:83-87 | the loop leaves the builder holding the segment (message and "; ") repeated once per violation, n·(\|message\|+2) characters for n violations |
| `TranslationProperties.DefinedFailure` | java/common/src/main/java/com/exadel/frs/commonservice/handler/ResponseExceptionHandler.java:45-52 | a defined failure with code c and message m is answered with c's status, c's code and m unchanged |
| `TranslationProperties.MissingHeaderFailure` | java/common/src/main/java/com/exadel/frs/commonservice/handler/ResponseExceptionHandler.java:60-65 | missing header H is answered with the `MISSING_REQUEST_HEADER` status and code and exactly "Missing header: " + H |
| `TranslationProperties.MissingHeaderNamesDistinguished` | java/common/src/main/java/com/exadel/frs/commonservice/handler/ResponseExceptionHandler.java:64 | different missing header names give different messages |
| `TranslationProperties.FieldValidationAnswersFirstError` | java/common/src/main/java/com/exadel/frs/commonservice/handler/ResponseExceptionHandler.java:71-76 | a field-validation failure answers with the status it was given and the body the defined-failure branch gives the exception built from the first field error |
| `TranslationProperties.FirstFieldErrorOnly` | java/common/src/main/java/com/exadel/frs/commonservice/handler/ResponseExceptionHandler.java:71 | two field-error lists with the same first element get the same response, which equals the response to that element alone |
| `TranslationProperties.UnrecognisedRuleCode` | java/common/src/main/java/com/exadel/frs/commonservice/handler/ResponseExceptionHandler.java:132-133 | a first field error with an unrecognised rule code gives the `UNDEFINED` code and an empty message, under the status handed in |
| `TranslationProperties.ConstraintViolationFailure` | java/common/src/main/java/com/exadel/frs/commonservice/handler/ResponseExceptionHandler.java:83-90 | the answer is the `VALIDATION_CONSTRAINT_VIOLATION` status and code with the message and "; " repeated once per violation; the message is empty exactly when there are no violations; every block is one segment |
| `TranslationProperties.ViolationMessagesNotJoined` | java/common/src/main/java/com/exadel/frs/commonservice/handler/ResponseExceptionHandler.java:84-87 | violations "A" and "B" on an exception whose message is "m" give "m; m; " rather than "A; B; " |
| `TranslationProperties.OtherFailure` | java/common/src/main/java/com/exadel/frs/commonservice/handler/ResponseExceptionHandler.java:153-158 | an unclassified failure gets the `UNDEFINED` status and code and exactly "Something went wrong, please try again" |
| `TranslationProperties.NotFoundFailures` | java/common/src/main/java/com/exadel/frs/commonservice/handler/ResponseExceptionHandler.java:100-115 | demo-not-available and method-not-supported both answer 404; the first with 404 in the body, the second with the `UNDEFINED` code and its message or "No message available" |
| `TranslationProperties.StatusesUsed` | java/common/src/main/java/com/exadel/frs/commonservice/handler/ResponseExceptionHandler.java:45-115 | every status sent is a configured one, 404, a defined failure's own status, or the status handed in with field errors |
| `TranslationProperties.BodyCodesUsed` | java/common/src/main/java/com/exadel/frs/commonservice/handler/ResponseExceptionHandler.java:45-158 | every body code sent is one of the named entries, 404, the code of one of the three exception constructors used for field errors, or a defined failure's own code |

## Left out

- Logging (`log.error` in every handler): a side effect that does not change the status or body.
- Spring dispatch (`@ControllerAdvice`, `@ExceptionHandler`), `ResponseEntity`, `HttpHeaders` and `WebRequest`: replaced by the match in `Translate` over disjoint failure variants; the status Spring hands to `handleMethodArgumentNotValid` is a field of the failure.
- The message formats of `ConstraintViolationException`, `EmptyRequiredFieldException`, the codes those classes carry, the values in `CommonExceptionCode` and `DemoNotAvailableException.MESSAGE`: those classes are not part of this model, so they are parameters.
- `ResponseExceptionHandler.GetException`: states which exception is built and from which arguments, not what its message says; the message text (for example, whether a "Size" message names the field) is composed by exception classes outside this model.
- Null inputs the framework does not produce: a null header name; a null field-error rule code, which would make the string `switch` at `ResponseExceptionHandler.java:120` throw; a null violation set, which would make the loop at `ResponseExceptionHandler.java:84` throw; a null field-error default message, passed on to the constructors at `ResponseExceptionHandler.java:123` and `:130`; and a `BasicException` whose message is null, which `buildBody` would put into the body as null. All of these are typed as non-null here.
- Handling inherited from `ResponseEntityExceptionHandler`: the base class answers the standard Spring MVC exceptions (unreadable message, missing request parameter, unsupported media type, type mismatch, binding errors, no handler found and the like) with its own status and an empty body. Only the two hooks overridden at `ResponseExceptionHandler.java:67` and `:105` are modelled, and the base class's own answers are not; those exceptions never reach `handleUndefinedExceptions`.
- Java's `int` limit on string lengths: a violation message too long for a Java string is not modelled.
- `apps/frs-core-app/.../ModelDao.java`: persistence glue over a Spring Data repository whose behaviour is not visible.
- `java/admin/.../ModelResponseDto.java`: a data holder with no behaviour.
