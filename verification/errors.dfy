/** The application error of helpers/error.go: an internal cause that is
    logged, and the message and HTTP status that the client is shown. */
module Errors {

  import opened Prelude

  /** A Go `error` value.  `Wrapped` is the annotation `errors.Wrapf` adds
      around an inner error; the others are the leaf errors the core sees. */
  datatype Cause =
    | NoRows                                  // sql.ErrNoRows
    | RedisNil                                // redis.ErrNil: the key holds no value
    | Plain(text: string)                     // errors.New(text), or any driver error
    | Wrapped(context: string, inner: Cause)  // errors.Wrapf(inner, "%s/%s", ...)

  /** The innermost error of a chain, as `errors.Cause` finds it. */
  function Root(c: Cause): (r: Cause)
    ensures !r.Wrapped?
  {
    if c.Wrapped? then Root(c.inner) else c
  }

  /** User-facing message constants.  Only the first two are spelled out in
      helpers/error.go; the others are defined in a helpers file that is not
      part of this model, so they are kept as names. */
  datatype Msg =
    | InternalServerError
    | BadRequestMessage
    | UnauthorizedMessage
    | ForbiddenMessage
    | IncorrectPasswordMessage
    | IncorrectEmailMessage
    | IncorrectStudentCodeMessage
    | IncorrectMonthMessage

  /** The wording of the two constants that helpers/error.go defines. */
  function Wording(m: Msg): (w: string)
    requires m == InternalServerError || m == BadRequestMessage
    ensures m == InternalServerError <==> w == "Internal Server Error"
    ensures m == BadRequestMessage <==> w == "Bad Request"
  {
    if m == InternalServerError then "Internal Server Error" else "Bad Request"
  }

  const StatusOK: int := 200
  const StatusBadRequest: int := 400
  const StatusUnauthorized: int := 401
  const StatusForbidden: int := 403
  const StatusInternalServerError: int := 500

  /** `helpers.Error`: `err` may be nil, hence the option. */
  datatype Error = Error(err: Option<Cause>, statusCode: int, message: Msg)

  /** `(*Error).Error()`: the text the client sees is the message alone. */
  function Text(e: Error): Msg {
    e.message
  }

  /** `ErrorWrap(err, prefix, suffix, message, status)`.  `errors.Wrapf`
      of a nil error is nil, so a missing cause stays missing. */
  function ErrorWrap(err: Option<Cause>, prefix: string, suffix: string, message: Msg, status: int): (e: Error)
    ensures e.message == message && e.statusCode == status
    ensures e.err.Some? <==> err.Some?
    ensures err.Some? ==> Root(e.err.value) == Root(err.value)
    ensures err.Some? ==> e.err.value.Wrapped? && e.err.value.context == prefix + "/" + suffix
  {
    match err
    case None => Error(None, status, message)
    case Some(c) => Error(Some(Wrapped(prefix + "/" + suffix, c)), status, message)
  }

  /** Whatever the cause, the client is shown exactly the message passed to
      `ErrorWrap`: two wrapped errors that differ only in their cause or
      tag look the same from outside. */
  lemma CauseNeverShown(c1: Option<Cause>, c2: Option<Cause>, p1: string, p2: string, s1: string, s2: string, m: Msg, st: int)
    ensures Text(ErrorWrap(c1, p1, s1, m, st)) == Text(ErrorWrap(c2, p2, s2, m, st)) == m
  {
  }

  /** The "prefix/suffix" tag `ErrorWrap` put on the cause, which names
      the step that failed; empty for an error without a cause. */
  function Tag(e: Error): string {
    if e.err.Some? && e.err.value.Wrapped? then e.err.value.context else ""
  }

  /** Shorthand for the ubiquitous `ErrorWrap(err, name, suffix,
      InternalServerError, 500)`. */
  function Internal(err: Cause, prefix: string, suffix: string): (e: Error)
    ensures e.message == InternalServerError && e.statusCode == StatusInternalServerError
    ensures e.err.Some? && Root(e.err.value) == Root(err)
  {
    ErrorWrap(Some(err), prefix, suffix, InternalServerError, StatusInternalServerError)
  }
}
