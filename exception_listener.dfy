/**
 * ApiExceptionListener: turns an exception raised while serving an /api request into a JSON error
 * response, by kind of exception. The security token, the environment variable APP_ENV and
 * Symfony's table of status texts are inputs.
 */
module ExceptionListener {
  import opened Wrappers
  import opened Php

  datatype Violation = Violation(propertyPath: string, message: string)

  /** The exceptions the listener tells apart; every other Throwable is `Other`. */
  datatype Thrown =
    | AccessDeniedException
    | AuthenticationException
    | HttpException(statusCode: int, message: string)
    | ValidationFailedException(violations: seq<Violation>)
    | Other(className: string, message: string, file: string, line: int)

  /** The `details` member of ErrorResponse. */
  datatype Details =
    | NoDetails
    | Violations(entries: seq<(string, string)>)      // [{property, message}, ...]
    | Debug(exception: string, message: string, file: string, line: int)

  datatype ErrorResponse = ErrorResponse(error: string, message: string, details: Details)
  datatype JsonResponse = JsonResponse(status: int, body: ErrorResponse)

  const InternalServerError := 500
  const DefaultMessage := "An error occurred"
  const AuthenticationRequired := "Authentication required"

  /** The `match` on the status code of an HttpException. */
  function ErrorName(statusCode: int): string {
    match statusCode
    case 400 => "bad_request"
    case 401 => "unauthorized"
    case 403 => "forbidden"
    case 404 => "not_found"
    case 422 => "validation_failed"
    case _ => "http_error"
  }

  /** $exception->getMessage() ?: Response::$statusTexts[$statusCode] ?? 'An error occurred'. */
  function HttpMessage(message: string, statusCode: int, statusTexts: map<int, string>): string {
    if !IsEmptyString(message) then message
    else if statusCode in statusTexts then statusTexts[statusCode]
    else DefaultMessage
  }

  /** One `{property, message}` entry per violation, in order. */
  function ViolationEntries(violations: seq<Violation>): (entries: seq<(string, string)>)
    ensures |entries| == |violations|
    ensures forall i | 0 <= i < |violations| :: entries[i] == (violations[i].propertyPath, violations[i].message)
  {
    seq(|violations|, i requires 0 <= i < |violations| => (violations[i].propertyPath, violations[i].message))
  }

  /** str_starts_with($path, '/api'). */
  predicate IsApiPath(path: string) {
    "/api" <= path
  }

  /**
   * The response the listener sets, or None when it leaves the event alone. `authenticated` is
   * `$token !== null && $token->getUser() !== null`; `detailsEnabled` says whether an unexpected
   * exception's class, message, file and line go into the body.
   */
  function Classified(path: string, thrown: Thrown, authenticated: bool, detailsEnabled: bool,
                      statusTexts: map<int, string>): Option<JsonResponse> {
    if !IsApiPath(path) then None
    else
      match thrown
      case AccessDeniedException =>
        if authenticated then Some(JsonResponse(403, ErrorResponse("access_denied", "Access denied", NoDetails)))
        else Some(JsonResponse(401, ErrorResponse("unauthorized", AuthenticationRequired, NoDetails)))
      case AuthenticationException =>
        Some(JsonResponse(401, ErrorResponse("unauthorized", AuthenticationRequired, NoDetails)))
      case HttpException(code, message) =>
        Some(JsonResponse(code, ErrorResponse(ErrorName(code), HttpMessage(message, code, statusTexts), NoDetails)))
      case ValidationFailedException(violations) =>
        Some(JsonResponse(422, ErrorResponse("validation_failed", "Validation failed",
                                             Violations(ViolationEntries(violations)))))
      case Other(className, message, file, line) =>
        var details := if detailsEnabled then Debug(className, message, file, line) else NoDetails;
        Some(JsonResponse(InternalServerError, ErrorResponse("internal_server_error", DefaultMessage, details)))
  }

  /** `$_ENV['APP_ENV'] ?? 'prod' === 'dev'` as PHP parses it: `$_ENV['APP_ENV'] ?? ('prod' === 'dev')`. */
  predicate DetailsEnabledAsWritten(appEnv: Option<string>) {
    appEnv.Some? && !IsEmptyString(appEnv.value)
  }

  /** `($_ENV['APP_ENV'] ?? 'prod') === 'dev'`: details only in the development environment. */
  predicate DetailsEnabled(appEnv: Option<string>) {
    appEnv == Some("dev")
  }

  /** onKernelException, with the corrected environment test. */
  method OnKernelException(path: string, thrown: Thrown, authenticated: bool, appEnv: Option<string>,
                           statusTexts: map<int, string>) returns (response: Option<JsonResponse>)
    ensures response == Classified(path, thrown, authenticated, DetailsEnabled(appEnv), statusTexts)
  {
    if !IsApiPath(path) {
      return None;
    }
    var statusCode := InternalServerError;
    var error := "internal_server_error";
    var message := DefaultMessage;
    var body: Option<ErrorResponse> := None;
    if thrown.AccessDeniedException? {
      if authenticated {
        statusCode, error, message := 403, "access_denied", "Access denied";
      } else {
        statusCode, error, message := 401, "unauthorized", AuthenticationRequired;
      }
    } else if thrown.AuthenticationException? {
      statusCode, error, message := 401, "unauthorized", AuthenticationRequired;
    } else if thrown.HttpException? {
      statusCode := thrown.statusCode;
      message := HttpMessage(thrown.message, statusCode, statusTexts);
      error := ErrorName(statusCode);
    } else if thrown.ValidationFailedException? {
      statusCode, error, message := 422, "validation_failed", "Validation failed";
      var violations: seq<(string, string)> := [];
      var i := 0;
      while i < |thrown.violations|
        invariant 0 <= i <= |thrown.violations|
        invariant violations == ViolationEntries(thrown.violations[..i])
      {
        var violation := thrown.violations[i];
        violations := violations + [(violation.propertyPath, violation.message)];
        i := i + 1;
      }
      assert thrown.violations[..i] == thrown.violations;
      body := Some(ErrorResponse(error, message, Violations(violations)));
    } else {
      var details := NoDetails;
      if DetailsEnabled(appEnv) {
        details := Debug(thrown.className, thrown.message, thrown.file, thrown.line);
      }
      body := Some(ErrorResponse(error, message, details));
    }
    if body.None? {
      body := Some(ErrorResponse(error, message, NoDetails));
    }
    response := Some(JsonResponse(statusCode, body.value));
  }

  // ---------------------------------------------------------------- properties

  /** Only paths starting with /api get a response, and every such path gets one. */
  lemma ApiPathsOnly(path: string, thrown: Thrown, authenticated: bool, detailsEnabled: bool, statusTexts: map<int, string>)
    ensures Classified(path, thrown, authenticated, detailsEnabled, statusTexts).Some? <==> IsApiPath(path)
    ensures IsApiPath("/api/flashcards") && IsApiPath("/apix") && !IsApiPath("/learn") && !IsApiPath("/ap")
  {
    assert "/api" <= "/api/flashcards";
    assert "/api" <= "/apix";
    assert "/learn"[1] != "/api"[1];
  }

  /** Denied access is 403 for a signed-in user and 401 otherwise; failed authentication is always 401. */
  lemma AccessDeniedDependsOnUser(path: string, authenticated: bool, detailsEnabled: bool, statusTexts: map<int, string>)
    requires IsApiPath(path)
    ensures var r := Classified(path, AccessDeniedException, authenticated, detailsEnabled, statusTexts).value;
            (r.status == 403 <==> authenticated) && (r.status == 401 <==> !authenticated)
            && (r.body.error == "access_denied" <==> authenticated)
    ensures Classified(path, AuthenticationException, authenticated, detailsEnabled, statusTexts)
            == Some(JsonResponse(401, ErrorResponse("unauthorized", AuthenticationRequired, NoDetails)))
  {
  }

  /**
   * An HttpException keeps its status; its error name follows the status, and its message is its
   * own unless empty(), in which case the status text stands in.
   */
  lemma HttpStatusPassesThrough(path: string, code: int, message: string, authenticated: bool, detailsEnabled: bool,
                                statusTexts: map<int, string>)
    requires IsApiPath(path)
    ensures var r := Classified(path, HttpException(code, message), authenticated, detailsEnabled, statusTexts).value;
            r.status == code
            && (code == 400 ==> r.body.error == "bad_request")
            && (code == 401 ==> r.body.error == "unauthorized")
            && (code == 403 ==> r.body.error == "forbidden")
            && (code == 404 ==> r.body.error == "not_found")
            && (code == 422 ==> r.body.error == "validation_failed")
            && (code !in {400, 401, 403, 404, 422} ==> r.body.error == "http_error")
            && (!IsEmptyString(message) ==> r.body.message == message)
            && (IsEmptyString(message) && code in statusTexts ==> r.body.message == statusTexts[code])
            && r.body.details == NoDetails
  {
  }

  /** A failed validation is 422 with one entry per violation, in order. */
  lemma ValidationListsEveryViolation(path: string, violations: seq<Violation>, authenticated: bool,
                                      detailsEnabled: bool, statusTexts: map<int, string>)
    requires IsApiPath(path)
    ensures var r := Classified(path, ValidationFailedException(violations), authenticated, detailsEnabled, statusTexts).value;
            r.status == 422 && r.body.details.Violations? && |r.body.details.entries| == |violations|
            && forall i | 0 <= i < |violations| ::
                 r.body.details.entries[i] == (violations[i].propertyPath, violations[i].message)
  {
  }

  /** Every other exception is a 500 that shows its particulars only when details are enabled. */
  lemma OtherIsInternalError(path: string, className: string, message: string, file: string, line: int,
                             authenticated: bool, detailsEnabled: bool, statusTexts: map<int, string>)
    requires IsApiPath(path)
    ensures var r := Classified(path, Other(className, message, file, line), authenticated, detailsEnabled, statusTexts).value;
            r.status == 500 && r.body.error == "internal_server_error" && r.body.message == DefaultMessage
            && (r.body.details.Debug? <==> detailsEnabled)
  {
  }

  /** The corrected test enables details in the development environment only. */
  lemma DetailsOnlyInDev(appEnv: Option<string>)
    ensures DetailsEnabled(appEnv) <==> appEnv == Some("dev")
    ensures !DetailsEnabled(None) && !DetailsEnabled(Some("prod")) && !DetailsEnabled(Some("test"))
  {
    assert "prod" != "dev" && "test" != "dev";
  }

  /**
   * As written, the test is true for every non-empty APP_ENV, so in production an unexpected
   * exception's class, message, file and line are sent to the client.
   */
  lemma ProductionLeaksDetailsAsWritten(path: string, className: string, message: string, file: string, line: int,
                                        authenticated: bool, statusTexts: map<int, string>)
    requires IsApiPath(path)
    ensures DetailsEnabledAsWritten(Some("prod")) && !DetailsEnabled(Some("prod"))
    ensures Classified(path, Other(className, message, file, line), authenticated,
                       DetailsEnabledAsWritten(Some("prod")), statusTexts).value.body.details
            == Debug(className, message, file, line)
    ensures Classified(path, Other(className, message, file, line), authenticated,
                       DetailsEnabled(Some("prod")), statusTexts).value.body.details == NoDetails
  {
    assert !IsEmptyString("prod") by {
      assert "prod" != "" && "prod" != "0";
    }
    DetailsOnlyInDev(Some("prod"));
  }
}
