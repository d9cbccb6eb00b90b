/** The error responses of the API: each failure the handlers report, the HTTP
    status it is sent with and the fixed `error` message of its JSON body. */
module Http {

  datatype Failure =
    | AccessDenied        // no bearer token in the Authorization header
    | InvalidToken        // the token does not verify
    | InvalidCredentials  // unknown email or wrong password at login
    | EmailExists         // registration hit the unique key on email_id
    | BookingNotFound     // no booking with that id owned by the caller
    | InvalidCategory     // /api/places with a tag outside the four categories
    | Internal            // any other thrown error; its message is the error's own

  /** The outcome of a handler: the success payload, or the failure sent back. */
  datatype Reply<+T> = Ok(value: T) | Err(failure: Failure)

  function StatusCode(f: Failure): (code: int)
    ensures 400 <= code < 600
    ensures code == 500 <==> f == Internal
    ensures code == 401 <==> f == AccessDenied || f == InvalidCredentials
  {
    match f
    case AccessDenied => 401
    case InvalidToken => 403
    case InvalidCredentials => 401
    case EmailExists => 400
    case BookingNotFound => 404
    case InvalidCategory => 400
    case Internal => 500
  }

  /** The fixed message of every failure except `Internal`, whose message is
      that of the underlying exception. */
  function Message(f: Failure): (m: string)
    requires f != Internal
    ensures m != ""
  {
    match f
    case AccessDenied => "Access denied"
    case InvalidToken => "Invalid token"
    case InvalidCredentials => "Invalid credentials"
    case EmailExists => "Email already exists"
    case BookingNotFound => "Booking not found"
    case InvalidCategory => "Invalid category"
  }

  /** Two failures that share a status code still differ in their message,
      so a client can tell them apart: a missing token and bad credentials
      are both 401, an existing email and an unknown category both 400. */
  lemma MessagesDistinct(f: Failure, g: Failure)
    requires f != Internal && g != Internal && f != g
    ensures Message(f) != Message(g)
  {
  }
}
