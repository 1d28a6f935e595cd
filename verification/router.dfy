/** routers/handlers.go: the response envelope every handler's result
    is written in, and the table of routes `InitHandlers` registers, each
    with the wrappers guarding it. */
module Router {

  import opened Prelude
  import opened Errors
  import opened Sessions
  import opened Middleware

  // ------------------------------------------------------------ envelope

  /** The written response: the status, and the body
      `{"data": …, "errors": […]}`. */
  datatype Envelope<D> = Envelope(status: int, data: D, errors: seq<Msg>)

  /** `HandlerFunc.ServeHTTP`: an error sets the status and is reported
      by its message alone; without one the status stays 200, the error
      list stays nil and the data is whatever the handler returned. */
  function ServeHTTP<D>(data: D, err: Option<Error>): (r: Envelope<D>)
    ensures r.data == data
    ensures err.Some? ==> r.status == err.value.statusCode && r.errors == [Text(err.value)]
    ensures err.None? ==> r.status == StatusOK && r.errors == []
  {
    match err
    case None => Envelope(StatusOK, data, [])
    case Some(e) => Envelope(e.statusCode, data, [Text(e)])
  }

  /** What the client reads about a failure is the message given to
      `ErrorWrap` and its status, never the cause or its tag. */
  lemma EnvelopeHidesCause<D>(data: D, c1: Cause, c2: Cause, p1: string, p2: string, s1: string, s2: string, m: Msg, st: int)
    ensures ServeHTTP(data, Some(ErrorWrap(Some(c1), p1, s1, m, st)))
         == ServeHTTP(data, Some(ErrorWrap(Some(c2), p2, s2, m, st)))
    ensures ServeHTTP(data, Some(ErrorWrap(Some(c1), p1, s1, m, st))) == Envelope(st, data, [m])
  {
    CauseNeverShown(Some(c1), Some(c2), p1, p2, s1, s2, m, st);
  }

  // ------------------------------------------------------------ routes

  datatype Verb = MethodGet | MethodPost | MethodPut | MethodDelete

  /** The wrappers around a handler. */
  datatype Guard =
    | Open                            // no wrapper
    | SessionOnly                     // SessionMiddleware(handler)
    | SessionRoles(roles: seq<string>) // SessionMiddleware(RolesMiddleware(handler, roles...))

  datatype Route = Route(verb: Verb, path: string, guard: Guard)

  const Admin: Guard := SessionRoles([AdminRole])
  const Lecturer: Guard := SessionRoles([LecturerRole])
  const Student: Guard := SessionRoles([StudentRole])

  /** The five routes of an entity with the usual CRUD layout: reads need
      a session, writes need the admin role. */
  function Crud(base: string): (rs: seq<Route>)
    ensures |rs| == 5
    ensures forall i :: 0 <= i < 5 ==> (rs[i].verb == MethodGet <==> rs[i].guard == SessionOnly)
    ensures forall i :: 0 <= i < 5 && rs[i].verb != MethodGet ==> rs[i].guard == Admin
  {
    [ Route(MethodGet, base, SessionOnly),
      Route(MethodGet, base + "/{id}", SessionOnly),
      Route(MethodPost, base, Admin),
      Route(MethodPut, base + "/{id}", Admin),
      Route(MethodDelete, base + "/{id}", Admin) ]
  }


  /** The routes before the CRUD blocks: first those under `/admin`,
      `/lecturer` and `/student`, for one role each ... */
  const PersonalRoutes: seq<Route> := [
    Route(MethodPut, "/admin/password-update", Admin),
    Route(MethodPut, "/lecturer/password-update", Lecturer),
    Route(MethodPut, "/student/password-update", Student),
    Route(MethodGet, "/student/student-enrolls", Student),
    Route(MethodGet, "/student/results", Student),
    Route(MethodPut, "/lecturer/attendances/{id}", Lecturer),
    Route(MethodGet, "/lecturer/classes/{id}/attendances", Lecturer),
    Route(MethodGet, "/lecturer/sessions/{id}/classes", Lecturer),
    Route(MethodPut, "/lecturer/results/{id}", Lecturer),
    Route(MethodGet, "/lecturer/student-enrolls/{id}/results", Lecturer),
    Route(MethodGet, "/lecturer/sessions/{id}/student-enrolls", Lecturer),
    Route(MethodGet, "/lecturer/sessions", Lecturer)
  ]

  /** ... then the attendance, class and enrolment routes. */
  const SharedRoutes: seq<Route> := [
    Route(MethodGet, "/attendances", SessionRoles([AdminRole, LecturerRole])),
    Route(MethodPost, "/classes", Admin),
    Route(MethodPost, "/student-enrolls", Student),
    Route(MethodDelete, "/student-enrolls/{id}", Admin)
  ]

  const RoleRoutes: seq<Route> := PersonalRoutes + SharedRoutes

  /** Results have no POST route, classrooms no listing. */
  const ResultRoutes: seq<Route> := [
    Route(MethodGet, "/results", SessionOnly),
    Route(MethodGet, "/results/{id}", SessionOnly),
    Route(MethodPut, "/results/{id}", Admin),
    Route(MethodDelete, "/results/{id}", Admin)
  ]

  const ClassroomRoutes: seq<Route> := [
    Route(MethodGet, "/classrooms/{id}", SessionOnly),
    Route(MethodPost, "/classrooms", Admin),
    Route(MethodPut, "/classrooms/{id}", Admin),
    Route(MethodDelete, "/classrooms/{id}", Admin)
  ]

  /** The three login routes, the only ones without any wrapper. */
  const LoginRoutes: seq<Route> := [
    Route(MethodPost, "/lecturer/login", Open),
    Route(MethodPost, "/admin/login", Open),
    Route(MethodPost, "/student/login", Open)
  ]

  /** The CRUD blocks, with the result and classroom routes between
      them in registration order. */
  function EntityRoutes(): (rs: seq<Route>)
    ensures |rs| == 35 + |ResultRoutes| + |ClassroomRoutes|
  {
    Crud("/lecturers") + Crud("/students") + Crud("/sessions")
    + ResultRoutes
    + Crud("/programs") + Crud("/intakes") + Crud("/subjects")
    + ClassroomRoutes
    + Crud("/faculties")
  }

  /** Every route `InitHandlers` registers under `/api/v1`. */
  function Routes(): (rs: seq<Route>)
    ensures |rs| == |RoleRoutes| + |EntityRoutes()| + |LoginRoutes|
  {
    RoleRoutes + EntityRoutes() + LoginRoutes
  }

  /** The guard of the first route registered for the verb and path. */
  function GuardOf(rs: seq<Route>, verb: Verb, path: string): (g: Option<Guard>)
    ensures g.Some? <==> exists i :: 0 <= i < |rs| && rs[i].verb == verb && rs[i].path == path
    ensures g.Some? ==> exists i :: 0 <= i < |rs| && rs[i].verb == verb && rs[i].path == path && rs[i].guard == g.value
  {
    if |rs| == 0 then None
    else if rs[0].verb == verb && rs[0].path == path then Some(rs[0].guard)
    else
      var rest := GuardOf(rs[1..], verb, path);
      assert forall i :: 0 <= i < |rs| - 1 ==> rs[1..][i] == rs[i + 1];
      rest
  }

  /** The wrappers run in order on a request.  `SessionMiddleware` is the
      outer one, so its 401/500 comes before any role check; each wrapper
      resolves the token itself, hence one fault per lookup. */
  function Guarded(g: Guard, cache: Cache, now: int, req: Request, outer: Option<Cause>, inner: Option<Cause>): (d: Decision)
    ensures g.Open? ==> d == Pass(req)
    ensures !g.Open? && Get(cache, now, Token(req), outer).Err? ==> d == SessionMiddleware(cache, now, req, outer)
    ensures g.SessionOnly? ==> d == SessionMiddleware(cache, now, req, outer)
    ensures g.SessionRoles? && d.Pass? ==>
              Get(cache, now, Token(req), inner).Ok? && Get(cache, now, Token(req), inner).value.role in g.roles
  {
    match g
    case Open => Pass(req)
    case SessionOnly => SessionMiddleware(cache, now, req, outer)
    case SessionRoles(roles) =>
      match SessionMiddleware(cache, now, req, outer)
      case Reject(s, m) => Reject(s, m)
      case Pass(r1) => RolesMiddleware(cache, now, r1, roles, inner)
  }

  // ------------------------------------------------------------ lemmas

  /** No route of `rs` goes without a wrapper. */
  predicate AllGuarded(rs: seq<Route>) {
    forall i :: 0 <= i < |rs| ==> rs[i].guard != Open
  }

  lemma {:induction false} AllGuardedAppend(a: seq<Route>, b: seq<Route>)
    requires AllGuarded(a) && AllGuarded(b)
    ensures AllGuarded(a + b)
  {
    forall i | 0 <= i < |a + b|
      ensures (a + b)[i].guard != Open
    {
      if i < |a| { assert (a + b)[i] == a[i]; } else { assert (a + b)[i] == b[i - |a|]; }
    }
  }

  /** Only the three login routes are unguarded. */
  lemma OnlyLoginIsOpen(i: nat)
    requires i < |Routes()|
    ensures Routes()[i].guard == Open <==> Routes()[i] in LoginRoutes
  {
    var c1, c2, c3 := Crud("/lecturers"), Crud("/students"), Crud("/sessions");
    var c4, c5, c6 := Crud("/programs"), Crud("/intakes"), Crud("/subjects");
    var c7 := Crud("/faculties");
    assert AllGuarded(RoleRoutes);
    assert AllGuarded(ResultRoutes);
    assert AllGuarded(ClassroomRoutes);
    AllGuardedAppend(c1, c2);
    AllGuardedAppend(c1 + c2, c3);
    AllGuardedAppend(c1 + c2 + c3, ResultRoutes);
    AllGuardedAppend(c1 + c2 + c3 + ResultRoutes, c4);
    AllGuardedAppend(c1 + c2 + c3 + ResultRoutes + c4, c5);
    AllGuardedAppend(c1 + c2 + c3 + ResultRoutes + c4 + c5, c6);
    AllGuardedAppend(c1 + c2 + c3 + ResultRoutes + c4 + c5 + c6, ClassroomRoutes);
    AllGuardedAppend(c1 + c2 + c3 + ResultRoutes + c4 + c5 + c6 + ClassroomRoutes, c7);
    var guarded := RoleRoutes + EntityRoutes();
    AllGuardedAppend(RoleRoutes, EntityRoutes());
    var rs := Routes();
    if i < |guarded| {
      assert rs[i] == guarded[i];
      assert forall k :: 0 <= k < |LoginRoutes| ==> LoginRoutes[k].guard == Open;
    } else {
      assert rs[i] == LoginRoutes[i - |guarded|];
    }
  }

  /** A token that resolves to nothing gets 401 on every guarded route,
      whatever roles the route wants. */
  lemma UnknownTokenIs401(g: Guard, cache: Cache, now: int, req: Request, inner: Option<Cause>)
    requires !g.Open? && !Live(cache, now, Token(req))
    ensures Guarded(g, cache, now, req, None, inner) == Reject(StatusUnauthorized, UnauthorizedMessage)
  {
  }

  /** Looking a route up in a concatenation finds it in the first part
      when it is registered there. */
  lemma {:induction false} GuardOfAppend(a: seq<Route>, b: seq<Route>, verb: Verb, path: string)
    ensures GuardOf(a + b, verb, path) == if GuardOf(a, verb, path).Some? then GuardOf(a, verb, path) else GuardOf(b, verb, path)
    decreases |a|
  {
    if |a| > 0 {
      assert (a + b)[0] == a[0];
      assert (a + b)[1..] == a[1..] + b;
      GuardOfAppend(a[1..], b, verb, path);
    } else {
      assert a + b == b;
    }
  }

  /** The enrolment and class routes: a student enrols, an admin
      withdraws and schedules classes, admins and lecturers list
      attendance. */
  lemma CoreRouteGuards()
    ensures GuardOf(Routes(), MethodPost, "/student-enrolls") == Some(Student)
    ensures GuardOf(Routes(), MethodDelete, "/student-enrolls/{id}") == Some(Admin)
    ensures GuardOf(Routes(), MethodPost, "/classes") == Some(Admin)
    ensures GuardOf(Routes(), MethodGet, "/attendances") == Some(SessionRoles([AdminRole, LecturerRole]))
  {
    SharedRouteGuards();
    RoleRouteGuard(MethodGet, "/attendances", SessionRoles([AdminRole, LecturerRole]));
    RoleRouteGuard(MethodPost, "/classes", Admin);
    RoleRouteGuard(MethodPost, "/student-enrolls", Student);
    RoleRouteGuard(MethodDelete, "/student-enrolls/{id}", Admin);
  }

  /** The first entry registered for a verb and path decides its guard. */
  lemma {:induction false} GuardOfFirst(rs: seq<Route>, i: nat)
    requires i < |rs|
    requires forall j :: 0 <= j < i ==> rs[j].path != rs[i].path
    ensures GuardOf(rs, rs[i].verb, rs[i].path) == Some(rs[i].guard)
  {
    if i > 0 {
      assert rs[0].path != rs[i].path;
      assert rs[1..][i - 1] == rs[i];
      GuardOfFirst(rs[1..], i - 1);
    }
  }

  /** The four shared paths have four different lengths, so each route of
      the group is the first with its path. */
  lemma SharedRouteGuards()
    ensures GuardOf(SharedRoutes, MethodGet, "/attendances") == Some(SessionRoles([AdminRole, LecturerRole]))
    ensures GuardOf(SharedRoutes, MethodPost, "/classes") == Some(Admin)
    ensures GuardOf(SharedRoutes, MethodPost, "/student-enrolls") == Some(Student)
    ensures GuardOf(SharedRoutes, MethodDelete, "/student-enrolls/{id}") == Some(Admin)
  {
    var rs := SharedRoutes;
    assert |rs[0].path| == 12 && |rs[1].path| == 8 && |rs[2].path| == 16 && |rs[3].path| == 21;
    GuardOfFirst(rs, 0);
    GuardOfFirst(rs, 1);
    GuardOfFirst(rs, 2);
    GuardOfFirst(rs, 3);
  }

  /** A route found among the role-specific ones is found there in the
      whole table, which registers them first. */
  lemma RoleRouteGuard(verb: Verb, path: string, g: Guard)
    requires path in ["/attendances", "/classes", "/student-enrolls", "/student-enrolls/{id}"]
    requires GuardOf(SharedRoutes, verb, path) == Some(g)
    ensures GuardOf(Routes(), verb, path) == Some(g)
  {
    EarlyRoutesElsewhere(verb, path);
    GuardOfAppend(PersonalRoutes, SharedRoutes, verb, path);
    GuardOfAppend(RoleRoutes, EntityRoutes(), verb, path);
    GuardOfAppend(RoleRoutes + EntityRoutes(), LoginRoutes, verb, path);
  }

  /** The routes under `/admin`, `/lecturer` and `/student` have longer
      paths than the top-level attendance and class routes; of the two
      enrolment paths only the 16-character one shares a length with one
      of them, `/student/results`, and the two differ at position 8. */
  lemma EarlyRoutesElsewhere(verb: Verb, path: string)
    requires path in ["/attendances", "/classes", "/student-enrolls", "/student-enrolls/{id}"]
    ensures GuardOf(PersonalRoutes, verb, path).None?
  {
    var early := PersonalRoutes;
    forall i | 0 <= i < |early|
      ensures |early[i].path| >= 16 && |early[i].path| != 21
      ensures |early[i].path| == 16 ==> early[i].path[8] == '/'
    {
      if i == 0 {} else if i == 1 {} else if i == 2 {} else if i == 3 {} else if i == 4 {} else if i == 5 {}
      else if i == 6 {} else if i == 7 {} else if i == 8 {} else if i == 9 {} else if i == 10 {} else {}
    }
    assert "/student-enrolls"[8] == '-';
  }

  /** A lecturer's session is let through `GET /attendances`, a
      student's is refused with 403. */
  lemma AttendanceListingRoles(cache: Cache, now: int, req: Request, d: SessionData)
    requires Live(cache, now, Token(req)) && cache[Token(req)].value == Payload(d)
    ensures d.role == LecturerRole || d.role == AdminRole ==>
              Guarded(SessionRoles([AdminRole, LecturerRole]), cache, now, req, None, None).Pass?
    ensures d.role == StudentRole ==>
              Guarded(SessionRoles([AdminRole, LecturerRole]), cache, now, req, None, None)
              == Reject(StatusForbidden, ForbiddenMessage)
  {
    RolesDistinct();
  }
}
