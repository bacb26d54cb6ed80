/**
  What the translation promises across its branches: the exact response of
  each failure kind, the first-field-error rule, and the statuses and body
  codes that can ever appear on the wire.
 */
module TranslationProperties {
  import opened JavaLang
  import opened Exceptions
  import opened ViolationMessages
  import opened ResponseExceptionHandler

  /** A defined failure is answered with its own code's status, and the body
      carries that code and the failure's message unchanged. */
  lemma DefinedFailure(codes: CodeTable, classes: ExceptionClasses, code: ExceptionCode, message: string)
    ensures Translate(codes, classes, Defined(Basic(code, message)))
      == Answered(Response(code.httpStatus, ExceptionResponseDto(code.code, message)))
  {
  }

  /** A missing header is answered with the missing-header entry, and the
      message is exactly the prefix and the header's name. */
  lemma MissingHeaderFailure(codes: CodeTable, classes: ExceptionClasses, headerName: string)
    ensures Translate(codes, classes, MissingHeader(headerName))
      == Answered(Response(codes.missingRequestHeader.httpStatus,
                           ExceptionResponseDto(codes.missingRequestHeader.code, "Missing header: " + headerName)))
  {
  }

  /** Different header names give different messages. */
  lemma MissingHeaderNamesDistinguished(codes: CodeTable, classes: ExceptionClasses, h1: string, h2: string)
    requires h1 != h2
    ensures Translate(codes, classes, MissingHeader(h1)).response.body.message
         != Translate(codes, classes, MissingHeader(h2)).response.body.message
  {
  }

  /** Field validation answers with the status it was given and the body the
      defined-failure branch would give the exception built from the first
      field error. */
  lemma FieldValidationAnswersFirstError(codes: CodeTable, classes: ExceptionClasses, status: int, fieldErrors: seq<FieldError>)
    requires |fieldErrors| > 0
    ensures Translate(codes, classes, FieldValidation(status, fieldErrors))
      == Answered(Response(status, HandleDefinedExceptions(classes, GetException(codes, fieldErrors[0])).body))
  {
  }

  /** Nothing after the first field error reaches the response. */
  lemma FirstFieldErrorOnly(codes: CodeTable, classes: ExceptionClasses, status: int, e1: seq<FieldError>, e2: seq<FieldError>)
    requires |e1| > 0 && |e2| > 0 && e1[0] == e2[0]
    ensures Translate(codes, classes, FieldValidation(status, e1)) == Translate(codes, classes, FieldValidation(status, e2))
    ensures Translate(codes, classes, FieldValidation(status, e1)) == Translate(codes, classes, FieldValidation(status, [e1[0]]))
  {
  }

  /** A first field error with a rule code outside the five recognised ones
      yields the undefined code and an empty message. */
  lemma UnrecognisedRuleCode(codes: CodeTable, classes: ExceptionClasses, status: int, fieldErrors: seq<FieldError>)
    requires |fieldErrors| > 0 && !RecognisedRuleCode(fieldErrors[0].code)
    ensures Translate(codes, classes, FieldValidation(status, fieldErrors))
      == Answered(Response(status, ExceptionResponseDto(codes.undefined.code, "")))
  {
  }

  /** The constraint-violation message is the exception's message and "; "
      repeated once per violation, and it is empty exactly when there are no
      violations. The last clause gives the same fact as the first in the
      form a client splitting the message would use: the k-th block of
      segment width is the k-th segment. */
  lemma {:induction false} ConstraintViolationFailure(codes: CodeTable, classes: ExceptionClasses, exMessage: Nullable<string>, violations: seq<Violation>)
    ensures Translate(codes, classes, ConstraintViolations(exMessage, violations))
      == Answered(Response(codes.validationConstraintViolation.httpStatus,
                           ExceptionResponseDto(codes.validationConstraintViolation.code,
                                                Repeat(AppendedText(exMessage) + "; ", |violations|))))
    ensures Translate(codes, classes, ConstraintViolations(exMessage, violations)).response.body.message == ""
      <==> |violations| == 0
    ensures forall k: nat :: k < |violations| ==>
      BlockAt(Translate(codes, classes, ConstraintViolations(exMessage, violations)).response.body.message,
              |Segment(exMessage)|, k) == Segment(exMessage)
  {
    ViolationMessageIsRepeat(exMessage, violations);
    RepeatBlocks(Segment(exMessage), |violations|);
  }

  /** The violations' own messages never appear: two violations "A" and "B" on
      an exception whose message is "m" give "m; m; ". */
  lemma ViolationMessagesNotJoined(codes: CodeTable, classes: ExceptionClasses)
    ensures Translate(codes, classes,
                      ConstraintViolations(Present("m"), [Violation("A", "a"), Violation("B", "b")]))
              .response.body.message == "m; m; "
  {
  }

  /** An unclassified failure gets the undefined entry and the fixed text. */
  lemma OtherFailure(codes: CodeTable, classes: ExceptionClasses)
    ensures Translate(codes, classes, Other)
      == Answered(Response(codes.undefined.httpStatus,
                           ExceptionResponseDto(codes.undefined.code, "Something went wrong, please try again")))
  {
  }

  /** The two not-found answers: both 404, one with 404 in the body and the
      demo message, the other with the undefined code and the exception's
      message or the fixed text. */
  lemma NotFoundFailures(codes: CodeTable, classes: ExceptionClasses, exMessage: Nullable<string>)
    ensures Translate(codes, classes, DemoNotAvailable)
      == Answered(Response(404, ExceptionResponseDto(404, classes.demoNotAvailableMessage)))
    ensures Translate(codes, classes, MethodNotSupported(exMessage))
      == Answered(Response(404, ExceptionResponseDto(codes.undefined.code,
                                                     if exMessage.Null? then "No message available" else exMessage.value)))
  {
  }

  /** The statuses that can be sent: the configured ones, 404, a defined
      failure's own status, or the status handed in with field errors. */
  lemma StatusesUsed(codes: CodeTable, classes: ExceptionClasses, f: Failure)
    requires Translate(codes, classes, f).Answered?
    ensures var status := Translate(codes, classes, f).response.status;
      || status == codes.missingRequestHeader.httpStatus
      || status == codes.validationConstraintViolation.httpStatus
      || status == codes.undefined.httpStatus
      || status == 404
      || (f.Defined? && status == CodeOf(classes, f.ex).httpStatus)
      || (f.FieldValidation? && status == f.status)
  {
  }

  /** The body codes that can be sent: the three named entries, 404, the
      codes of the three exceptions built from field errors, or a defined
      failure's own code. */
  lemma BodyCodesUsed(codes: CodeTable, classes: ExceptionClasses, f: Failure)
    requires Translate(codes, classes, f).Answered?
    ensures var code := Translate(codes, classes, f).response.body.code;
      || code == codes.missingRequestHeader.code
      || code == codes.validationConstraintViolation.code
      || code == codes.undefined.code
      || code == 404
      || code == classes.constraintViolationCode.code
      || code == classes.constraintViolationOnFieldCode.code
      || code == classes.emptyRequiredFieldCode.code
      || (f.Defined? && code == CodeOf(classes, f.ex).code)
  {
  }
}
