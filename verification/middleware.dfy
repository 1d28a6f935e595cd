/** middleware/middleware.go: the three wrappers a handler can sit
    behind, each a decision on the incoming request — pass it on, possibly
    with `user_id` set in its context, or answer with a status and a
    message and stop. */
module Middleware {

  import opened Prelude
  import opened Errors
  import opened Sessions

  /** The parts of an `*http.Request` the wrappers use: its headers and
      the `user_id` context value. */
  datatype Request = Request(headers: map<string, string>, userId: Option<Uuid>)

  /** What a wrapper does with the request. */
  datatype Decision =
    | Pass(request: Request)                 // next.ServeHTTP(w, r)
    | Reject(status: int, message: Msg)      // helpers.ErrorResponse(w, message, status)

  /** `r.Header.Get("session")`: the empty string when absent. */
  function Token(req: Request): (t: string)
    ensures "session" in req.headers ==> t == req.headers["session"]
    ensures "session" !in req.headers ==> t == ""
  {
    if "session" in req.headers then req.headers["session"] else ""
  }

  /** The shared error split: `redis.ErrNil` itself is 401; any other
      error, a decode failure included, is 500. */
  function Refusal(err: Cause): (d: Decision)
    ensures d.Reject?
    ensures err == RedisNil <==> d.status == StatusUnauthorized
    ensures err == RedisNil ==> d.message == UnauthorizedMessage
    ensures err != RedisNil ==> d == Reject(StatusInternalServerError, InternalServerError)
  {
    if err == RedisNil then Reject(StatusUnauthorized, UnauthorizedMessage)
    else Reject(StatusInternalServerError, InternalServerError)
  }

  /** `SessionMiddleware`: resolve the token; on success record the
      session's user in the context. */
  function SessionMiddleware(cache: Cache, now: int, req: Request, fault: Option<Cause>): (d: Decision)
    ensures d.Pass? <==> Get(cache, now, Token(req), fault).Ok?
    ensures d.Pass? ==> d.request == req.(userId := Some(Get(cache, now, Token(req), fault).value.userId))
    ensures fault.None? && !Live(cache, now, Token(req)) ==> d == Reject(StatusUnauthorized, UnauthorizedMessage)
    ensures d.Reject? ==> d.status == StatusUnauthorized || d.status == StatusInternalServerError
  {
    match Get(cache, now, Token(req), fault)
    case Err(e) => Refusal(e)
    case Ok(data) => Pass(req.(userId := Some(data.userId)))
  }

  /** `RolesMiddleware(next, roles...)`: resolve the token again, then let
      the request through unchanged exactly when its role is listed. */
  function RolesMiddleware(cache: Cache, now: int, req: Request, roles: seq<string>, fault: Option<Cause>): (d: Decision)
    ensures d.Pass? <==> Get(cache, now, Token(req), fault).Ok? && Get(cache, now, Token(req), fault).value.role in roles
    ensures d.Pass? ==> d.request == req
    ensures Get(cache, now, Token(req), fault).Ok? && Get(cache, now, Token(req), fault).value.role !in roles ==>
              d == Reject(StatusForbidden, ForbiddenMessage)
    ensures Get(cache, now, Token(req), fault).Err? ==> d == Refusal(Get(cache, now, Token(req), fault).error)
  {
    match Get(cache, now, Token(req), fault)
    case Err(e) => Refusal(e)
    case Ok(data) =>
      if Listed(data.role, roles) then Pass(req) else Reject(StatusForbidden, ForbiddenMessage)
  }

  /** The loop over `roles` that sets `validRole`. */
  function Listed(role: string, roles: seq<string>): (b: bool)
    ensures b <==> role in roles
  {
    if |roles| == 0 then false
    else if roles[0] == role then true
    else Listed(role, roles[1..])
  }

  /** `BasicAuthMiddleware`; `user` is what `basicAuth` found (the
      credential check itself is not part of this model). */
  function BasicAuthMiddleware(req: Request, user: Option<Uuid>): (d: Decision)
    ensures d.Pass? <==> user.Some?
    ensures d.Pass? ==> d.request == req.(userId := Some(user.value))
    ensures d.Reject? ==> d == Reject(StatusUnauthorized, UnauthorizedMessage)
  {
    match user
    case None => Reject(StatusUnauthorized, UnauthorizedMessage)
    case Some(id) => Pass(req.(userId := Some(id)))
  }

  // ------------------------------------------------------------ lemmas

  /** An empty role list refuses every resolvable session. */
  lemma EmptyRolesForbid(cache: Cache, now: int, req: Request, fault: Option<Cause>)
    requires Get(cache, now, Token(req), fault).Ok?
    ensures RolesMiddleware(cache, now, req, [], fault) == Reject(StatusForbidden, ForbiddenMessage)
  {
  }

  /** A session freshly stored under the request's token passes
      `SessionMiddleware` with its user id for as long as it lives. */
  lemma StoredSessionPasses(cache: Cache, now: int, s: Session, req: Request, later: int)
    requires s.expiry > 0 && now <= later < now + s.expiry
    requires Token(req) == s.sessionKey
    ensures SessionMiddleware(Store(cache, now, s, None).0, later, req, None) == Pass(req.(userId := Some(s.userId)))
  {
    StoreThenGet(cache, now, s, later);
  }

  /** A wrapped `redis.ErrNil` is not `redis.ErrNil`: the comparison is by
      identity, so such an error is reported as 500, not 401. */
  lemma WrappedNilIsInternal(cache: Cache, now: int, req: Request, context: string)
    ensures SessionMiddleware(cache, now, req, Some(Wrapped(context, RedisNil)))
         == Reject(StatusInternalServerError, InternalServerError)
  {
  }
}
