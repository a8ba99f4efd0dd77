/**
 * The web layer's global exception handler: it turns an exception that
 * escaped a controller into an HTTP status code and an `ApiResponse` body.
 * The first matching exception type wins; anything not matched is a server
 * error whose message is exposed behind a fixed prefix.
 */
module ExceptionHandler {
  import opened Common
  import opened Linq
  import Ports
  import Sales

  /** The status codes the handler can answer with. */
  datatype StatusCode = BadRequest | Unauthorized | NotFoundStatus | InternalServerError

  function Code(s: StatusCode): int {
    match s
    case BadRequest => 400
    case Unauthorized => 401
    case NotFoundStatus => 404
    case InternalServerError => 500
  }

  /** One FluentValidation failure: its `ErrorMessage` and `ErrorCode`. */
  datatype ValidationFailure = ValidationFailure(errorMessage: string, errorCode: string)

  /** One entry of the response's `Errors` list. */
  datatype ErrorDetail = ErrorDetail(detail: string, error: string)

  /** The response body. `errors` is `None` when the handler leaves the
      property at its default. */
  datatype ApiResponse = ApiResponse(success: bool, message: string, errors: Option<seq<ErrorDetail>>)

  /** The exception types the handler tells apart. `OtherException` is
      every type that none of the four cases matches; the four are not
      subtypes of one another, so the order of the cases decides nothing
      among them. */
  datatype Exception =
    | ValidationException(errors: seq<ValidationFailure>)
    | UnauthorizedAccessException(message: string)
    | KeyNotFoundException(message: string)
    | ApplicationException(message: string)
    | OtherException(message: string)

  const ValidationFailed := "Validation Failed"
  const UnauthorizedFallback := "Unauthorized."
  const NotFoundFallback := "Resource not found."
  const ApplicationFallback := "An error has occurred."
  const InternalErrorPrefix := "Internal server error: "

  /** `string.IsNullOrWhiteSpace(m) ? fallback : m`; an exception's message
      is never null. */
  function OrFallback(m: string, fallback: string): (r: string)
    ensures !AllWhiteSpace(m) ==> r == m
    ensures AllWhiteSpace(m) ==> r == fallback
  {
    if AllWhiteSpace(m) then fallback else m
  }

  function Detail(f: ValidationFailure): ErrorDetail {
    ErrorDetail(f.errorMessage, f.errorCode)
  }

  /** `GlobalExceptionHandler.MapException`. */
  function MapException(ex: Exception): (r: (StatusCode, ApiResponse))
    ensures !r.1.success
    ensures Code(r.0) >= 500 <==> ex.OtherException?
    ensures r.0 == BadRequest <==> ex.ValidationException? || ex.ApplicationException?
    ensures r.0 == Unauthorized <==> ex.UnauthorizedAccessException?
    ensures r.0 == NotFoundStatus <==> ex.KeyNotFoundException?
    ensures r.1.errors.Some? <==> ex.ValidationException?
    ensures ex.ValidationException? ==>
              && r.1.message == ValidationFailed
              && |r.1.errors.value| == |ex.errors|
              && forall i :: 0 <= i < |ex.errors| ==>
                   r.1.errors.value[i].detail == ex.errors[i].errorMessage
                   && r.1.errors.value[i].error == ex.errors[i].errorCode
    ensures !ex.ValidationException? && !ex.OtherException? && !AllWhiteSpace(ex.message) ==>
              r.1.message == ex.message
    ensures ex.UnauthorizedAccessException? && AllWhiteSpace(ex.message) ==> r.1.message == UnauthorizedFallback
    ensures ex.KeyNotFoundException? && AllWhiteSpace(ex.message) ==> r.1.message == NotFoundFallback
    ensures ex.ApplicationException? && AllWhiteSpace(ex.message) ==> r.1.message == ApplicationFallback
    ensures ex.OtherException? ==> r.1.message == InternalErrorPrefix + ex.message
  {
    match ex
    case ValidationException(errors) =>
      (BadRequest, ApiResponse(false, ValidationFailed, Some(Select(errors, Detail))))
    case UnauthorizedAccessException(m) =>
      (Unauthorized, ApiResponse(false, OrFallback(m, UnauthorizedFallback), None))
    case KeyNotFoundException(m) =>
      (NotFoundStatus, ApiResponse(false, OrFallback(m, NotFoundFallback), None))
    case ApplicationException(m) =>
      (BadRequest, ApiResponse(false, OrFallback(m, ApplicationFallback), None))
    case OtherException(m) =>
      (InternalServerError, ApiResponse(false, InternalErrorPrefix + m, None))
  }

  lemma NotAllWhiteSpace(s: string)
    requires |s| > 0 && !IsWhiteSpace(s[0])
    ensures !AllWhiteSpace(s)
  {
  }

  /** Whatever was thrown, the client is told something: the body's message
      is never empty or blank. */
  lemma MessageNeverBlank(ex: Exception)
    ensures !AllWhiteSpace(MapException(ex).1.message)
  {
    var m := MapException(ex).1.message;
    match ex
    case ValidationException(_) => NotAllWhiteSpace(ValidationFailed);
    case OtherException(_) => assert m[0] == 'I'; NotAllWhiteSpace(m);
    case _ =>
      if AllWhiteSpace(ex.message) {
        assert m[0] in {'U', 'R', 'A'};
        NotAllWhiteSpace(m);
      }
  }

  /** How a handled exception is logged. */
  datatype LogLevel = Warning | LogError

  /** What `TryHandleAsync` writes: the status code, the content type, the
      body, and the level the exception was logged at. */
  datatype Written = Written(status: int, contentType: string, body: ApiResponse, log: LogLevel)

  /** `GlobalExceptionHandler.TryHandleAsync`. `None` means the handler
      declined because the response had already started. */
  function TryHandle(hasStarted: bool, ex: Exception): (r: Option<Written>)
    ensures r.None? <==> hasStarted
    ensures r.Some? ==> (r.value.log == LogError <==> ex.OtherException?)
    ensures r.Some? ==> r.value.contentType == "application/json" && !r.value.body.success
    ensures r.Some? ==> r.value.status in {400, 401, 404, 500}
    ensures r.Some? ==> r.value.status == Code(MapException(ex).0) && r.value.body == MapException(ex).1
  {
    if hasStarted then None
    else
      var (status, response) := MapException(ex);
      var log := if Code(status) >= 500 then LogError else Warning;
      Some(Written(Code(status), "application/json", response, log))
  }

  /** The exception each modelled error is raised as. `describe` gives a
      validation failure's message and code, which FluentValidation fills
      in; `runtimeMessage` is the message the runtime library gives the
      exceptions it raises itself. `None` for a domain error: its base type
      is not part of this model. */
  function Raised(e: Error, describe: Failure -> ValidationFailure, runtimeMessage: string): (r: Option<Exception>)
    ensures r.None? <==> e.DomainError?
  {
    match e
    case DomainError(_) => None
    case ValidationError(fs) => Some(ValidationException(Select(fs, describe)))
    case NotFound(m) => Some(KeyNotFoundException(m))
    case ApplicationError(m) => Some(ApplicationException(m))
    case DuplicateKey(_) => Some(OtherException(runtimeMessage))
    case MoreThanOneMatch => Some(OtherException(runtimeMessage))
  }

  /** The status each modelled error reaches the client with: validation and
      application errors are bad requests, a missing sale is not found, and
      the runtime's own exceptions (a duplicate dictionary key, a second
      match) are server errors. A validation error lists one entry per
      failed rule; the other handled errors carry their own message when it
      is not blank. */
  lemma ErrorStatus(e: Error, describe: Failure -> ValidationFailure, runtimeMessage: string)
    requires !e.DomainError?
    ensures var (status, body) := MapException(Raised(e, describe, runtimeMessage).value);
            && (Code(status) == 400 <==> e.ValidationError? || e.ApplicationError?)
            && (Code(status) == 404 <==> e.NotFound?)
            && (Code(status) == 500 <==> e.DuplicateKey? || e.MoreThanOneMatch?)
            && Code(status) != 401
            && (e.ValidationError? ==> |body.errors.value| == |e.failures|)
            && ((e.NotFound? || e.ApplicationError?) && !AllWhiteSpace(e.message) ==> body.message == e.message)
  {
  }

  /** The modify and cancel handlers' own messages are not blank, so the
      client reads them verbatim: a missing sale is a 404 saying so, a
      cancelled sale and an unknown product in a modification are 400s
      saying so. */
  lemma HandlerMessagesReachClient(productId: Guid)
    ensures MapException(KeyNotFoundException(Ports.SaleNotFound)) ==
              (NotFoundStatus, ApiResponse(false, Ports.SaleNotFound, None))
    ensures MapException(ApplicationException(Sales.SaleIsCancelled)) ==
              (BadRequest, ApiResponse(false, Sales.SaleIsCancelled, None))
    ensures MapException(ApplicationException(ProductNotFoundMessage(productId))) ==
              (BadRequest, ApiResponse(false, ProductNotFoundMessage(productId), None))
  {
    NotAllWhiteSpace(Ports.SaleNotFound);
    NotAllWhiteSpace(Sales.SaleIsCancelled);
    NotAllWhiteSpace(ProductNotFoundMessage(productId));
  }
}
