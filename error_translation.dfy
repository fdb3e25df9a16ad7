/** The central error translator (middleware/errorHandler.js): it copies the error, then
    runs a fixed sequence of checks, each of which may overwrite the status code, the
    message and the field errors, and finally sends the uniform failure body. */
module ErrorTranslation {
  import opened Common
  import opened Http

  const CastErrorName := "CastError"
  const ValidationErrorName := "ValidationError"
  const JsonWebTokenErrorName := "JsonWebTokenError"
  const TokenExpiredErrorName := "TokenExpiredError"
  const DuplicateKeyCode := 11000

  const CastErrorPrefix := "Resource not found with id of "
  const DuplicateMessage := "Duplicate field value entered"
  const ValidationMessageText := "Validation failed"
  const TokenFailedMessage := "Not authorized, token failed"
  const TokenExpiredMessage := "Token has expired"
  const ServerErrorMessage := "Server Error"

  /** The properties of a thrown error the translator reads. `code` and `statusCode` are
      `None` when absent; `message` is `""` when absent; `value` is `err.value` as a
      template literal renders it; `errors` is the error's own `errors` object, as the
      list of its values in insertion order. */
  datatype ErrorShape = ErrorShape(
    name: string,
    code: Option<int>,
    statusCode: Option<int>,
    message: string,
    value: string,
    errors: Option<seq<FieldError>>,
    stack: string)

  /** `err.statusCode || 500`: a missing or zero status code falls back to 500. */
  function DefaultStatus(err: ErrorShape): int {
    if err.statusCode.Some? && err.statusCode.value != 0 then err.statusCode.value else 500
  }

  /** A status code and message a check imposes. */
  datatype Rule = Rule(status: int, message: string)

  /** The check that has the last word. The checks run in the order cast, duplicate key,
      validation, malformed token, expired token, and each match overwrites the ones
      before it, so the decisive one is the LAST that matches: this function tries them
      in reverse order and stops at the first match. */
  function LastMatch(err: ErrorShape): Option<Rule> {
    if err.name == TokenExpiredErrorName then Some(Rule(401, TokenExpiredMessage))
    else if err.name == JsonWebTokenErrorName then Some(Rule(401, TokenFailedMessage))
    else if err.name == ValidationErrorName then Some(Rule(400, ValidationMessageText))
    else if err.code == Some(DuplicateKeyCode) then Some(Rule(400, DuplicateMessage))
    else if err.name == CastErrorName then Some(Rule(404, CastErrorPrefix + err.value))
    else None
  }

  /** The `errors` key of the reply: the field messages of a ValidationError, the copied
      `errors` property of any other error that has one, and nothing otherwise. */
  function ReplyErrors(err: ErrorShape): Option<ErrorList> {
    if err.name == ValidationErrorName then Some(Messages(MessagesOf(err.errors.GetOr([]))))
    else if err.errors.Some? then Some(Echoed(err.errors.value))
    else None
  }

  /** `errorHandler(err, req, res, next)`. */
  method Translate(err: ErrorShape, development: bool) returns (resp: Response)
    // The reply is the decisive check's status and message, or the defaults.
    ensures LastMatch(err).Some? ==> resp.status == LastMatch(err).value.status
    ensures LastMatch(err).None? ==> resp.status == DefaultStatus(err)
    ensures resp.body.Translated?
    ensures LastMatch(err).Some? ==> resp.body.error == LastMatch(err).value.message
    ensures LastMatch(err).None? ==> resp.body.error == if err.message == "" then ServerErrorMessage else err.message
    ensures resp.body.errors == ReplyErrors(err)
    // The stack is disclosed only in development mode.
    ensures resp.body.stack == if development then Some(err.stack) else None
    // The individual checks, and their precedence.
    ensures err.name == CastErrorName && err.code != Some(DuplicateKeyCode) ==>
      resp.status == 404 && resp.body.error == CastErrorPrefix + err.value
    ensures err.code == Some(DuplicateKeyCode) && err.name !in {ValidationErrorName, JsonWebTokenErrorName, TokenExpiredErrorName} ==>
      resp.status == 400 && resp.body.error == DuplicateMessage
    ensures err.name == ValidationErrorName ==>
      resp.status == 400 && resp.body.error == ValidationMessageText &&
      resp.body.errors == Some(Messages(MessagesOf(err.errors.GetOr([]))))
    ensures err.name == JsonWebTokenErrorName ==> resp.status == 401 && resp.body.error == TokenFailedMessage
    ensures err.name == TokenExpiredErrorName ==> resp.status == 401 && resp.body.error == TokenExpiredMessage
    // The error text is never empty.
    ensures resp.body.error != ""
  {
    var statusCode := if err.statusCode.Some? && err.statusCode.value != 0 then err.statusCode.value else 500;
    var message := err.message;
    var errors := if err.errors.Some? then Some(Echoed(err.errors.value)) else None;

    if err.name == CastErrorName {
      message := CastErrorPrefix + err.value;
      statusCode := 404;
    }

    if err.code == Some(DuplicateKeyCode) {
      message := DuplicateMessage;
      statusCode := 400;
    }

    if err.name == ValidationErrorName {
      var messages := MessagesOf(err.errors.GetOr([]));
      message := ValidationMessageText;
      errors := Some(Messages(messages));
      statusCode := 400;
    }

    if err.name == JsonWebTokenErrorName {
      message := TokenFailedMessage;
      statusCode := 401;
    }

    if err.name == TokenExpiredErrorName {
      message := TokenExpiredMessage;
      statusCode := 401;
    }

    resp := Response(statusCode, Translated(
      if message == "" then ServerErrorMessage else message,
      if development then Some(err.stack) else None,
      errors));
  }
}
