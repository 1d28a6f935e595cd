/** api/api.student.go, api/api.lecturer.go and api/api.admin.go: the
    three kinds of account share one login and one password-change
    procedure and differ only in the lookup column, the role, a few tags
    and messages, and whether a response step can fail after the session
    is stored.  bcrypt is the uninterpreted `matches(hash, password)`; a
    fresh UUID is a parameter. */
module Accounts {

  import opened Prelude
  import opened Errors
  import opened Decimal
  import opened Seqs
  import opened Sessions
  import Util
  import Middleware
  import Tables = Store

  datatype Kind = StudentKind | LecturerKind | AdminKind

  /** A row of `student`, `lecturer` or `admin` as the handlers see it.
      `login` is the student code, the e-mail address or the username;
      `hash` is the stored bcrypt hash; `isActive` is only consulted for
      students. */
  datatype Account = Account(
    id: Uuid,
    login: string,
    hash: string,
    isActive: bool,
    createdBy: Uuid,
    updatedBy: Option<Uuid>)

  /** The module name that prefixes every error tag. */
  function Name(k: Kind): string {
    match k
    case StudentKind => "module/student"
    case LecturerKind => "module/lecturer"
    case AdminKind => "module/admin"
  }

  /** The role a login of this kind is stored with. */
  function RoleOf(k: Kind): (role: string)
    ensures role == StudentRole <==> k == StudentKind
    ensures role == LecturerRole <==> k == LecturerKind
    ensures role == AdminRole <==> k == AdminKind
  {
    RolesDistinct();
    match k
    case StudentKind => StudentRole
    case LecturerKind => LecturerRole
    case AdminKind => AdminRole
  }

  /** What an unknown student code, e-mail address or username is told. */
  function UnknownLoginMessage(k: Kind): Msg {
    if k == StudentKind then IncorrectStudentCodeMessage else IncorrectEmailMessage
  }

  /** The tags of the two lookup failures and of the response step. */
  function UnknownLoginTag(k: Kind): string {
    match k
    case StudentKind => "Login/StudentCode"
    case LecturerKind => "Login/Email"
    case AdminKind => "Session/Login"
  }

  function LookupTag(k: Kind): string {
    match k
    case StudentKind => "Login/GetOneStudentByCode"
    case LecturerKind => "Login/GetOneLecturerByEmail"
    case AdminKind => "Login/GetOneAdminByUsername"
  }

  /** Admin login has no response step that can fail; its tag is unused. */
  function ResponseTag(k: Kind): string {
    match k
    case StudentKind => "Login/StudentResponse"
    case LecturerKind => "Login/LecturerResponse"
    case AdminKind => ""
  }

  function GetOneTag(k: Kind): string {
    match k
    case StudentKind => "PasswordUpdate/GetOneStudent"
    case LecturerKind => "PasswordUpdate/GetOneLecturer"
    case AdminKind => "PasswordUpdate/GetOneAdmin"
  }

  /** The time-to-live of a login session: one day. */
  const SessionExpiry: int := 86400

  const PasswordChanged: string := "Password Successfully Changed"

  /** The WHERE clause of `GetOneStudentByCode` (which also asks for an
      active student), `GetOneLecturerByEmail` and `GetOneAdminByUsername`. */
  predicate LoginMatches(k: Kind, a: Account, login: string) {
    a.login == login && (k == StudentKind ==> a.isActive)
  }

  /** The row `QueryRow` returns for the login: the first matching one in
      table order.  The login queries have no ORDER BY, so when several
      rows match, the database may return any of them. */
  function ByLogin(k: Kind, accounts: seq<Account>, login: string): (r: Option<nat>)
    ensures r.Some? ==> r.value < |accounts| && LoginMatches(k, accounts[r.value], login)
    ensures r.Some? ==> forall j :: 0 <= j < r.value ==> !LoginMatches(k, accounts[j], login)
    ensures r.None? <==> forall j :: 0 <= j < |accounts| ==> !LoginMatches(k, accounts[j], login)
  {
    Find(accounts, (a: Account) => LoginMatches(k, a, login))
  }

  /** The row `GetOneStudent`, `GetOneLecturer` or `GetOneAdmin` returns. */
  function ById(accounts: seq<Account>, id: Uuid): (r: Option<nat>)
    ensures r.Some? ==> r.value < |accounts| && accounts[r.value].id == id
    ensures r.None? <==> forall j :: 0 <= j < |accounts| ==> accounts[j].id != id
  {
    Find(accounts, (a: Account) => a.id == id)
  }

  /** Two tables whose rows agree on the login columns answer every login
      lookup alike. */
  lemma ByLoginAgrees(k: Kind, a: seq<Account>, b: seq<Account>, login: string)
    requires |a| == |b|
    requires forall j :: 0 <= j < |a| ==> a[j].login == b[j].login && a[j].isActive == b[j].isActive
    ensures ByLogin(k, a, login) == ByLogin(k, b, login)
  {
    assert forall j :: 0 <= j < |a| ==> (LoginMatches(k, a[j], login) <==> LoginMatches(k, b[j], login));
  }

  // ------------------------------------------------------------ login

  /** Driver failures along a login: the lookup, the cache write and the
      response assembly. */
  datatype LoginFaults = LoginFaults(lookup: Option<Cause>, store: Option<Cause>, response: Option<Cause>)

  /** The account id and the session key handed back on success. */
  datatype LoginReply = LoginReply(userId: Uuid, session: string)

  /** The session a successful login of account `id` stores. */
  function LoginSession(k: Kind, id: Uuid, generated: Uuid): (s: Session)
    ensures s.sessionKey == KeyFor(generated) && s.userId == id
    ensures s.expiry == SessionExpiry && s.role == RoleOf(k)
  {
    Session(id, KeyFor(generated), SessionExpiry, RoleOf(k))
  }

  /** `StudentModule.Login`, `LecturerModule.Login` and `AdminModule.Login`.
      The lookup error is compared with `sql.ErrNoRows` by identity; the
      error of `Session.Store` is overwritten before it is looked at. */
  function Login(k: Kind, accounts: seq<Account>, login: string, password: string,
                 matches: (string, string) -> bool, generated: Uuid, cache: Cache, now: int,
                 faults: LoginFaults): (r: (Cache, Result<LoginReply, Error>))
    ensures var found := ByLogin(k, accounts, login);
            r.1.Ok? <==> faults.lookup.None? && found.Some? && matches(accounts[found.value].hash, password)
                         && (k == AdminKind || faults.response.None?)
    ensures r.1.Err? ==> r.1.error.statusCode == StatusInternalServerError
    ensures faults.lookup == Some(NoRows) || (faults.lookup.None? && ByLogin(k, accounts, login).None?) ==>
              r == (cache, Err(ErrorWrap(Some(NoRows), Name(k), UnknownLoginTag(k), UnknownLoginMessage(k), StatusInternalServerError)))
    ensures faults.lookup.Some? && faults.lookup.value != NoRows ==>
              r == (cache, Err(Internal(faults.lookup.value, Name(k), LookupTag(k))))
    ensures var found := ByLogin(k, accounts, login);
            faults.lookup.None? && found.Some? && !matches(accounts[found.value].hash, password) ==>
              r == (cache, Err(ErrorWrap(Some(Plain("Invalid Password")), Name(k), "Login/CompareHashAndPassword",
                                         IncorrectPasswordMessage, StatusInternalServerError)))
    ensures var found := ByLogin(k, accounts, login);
            faults.lookup.None? && found.Some? && matches(accounts[found.value].hash, password) ==>
              r.0 == Store(cache, now, LoginSession(k, accounts[found.value].id, generated), faults.store).0
    ensures r.1.Ok? ==> r.1.value == LoginReply(accounts[ByLogin(k, accounts, login).value].id, KeyFor(generated))
  {
    var found := ByLogin(k, accounts, login);
    var err := if faults.lookup.Some? then faults.lookup else if found.None? then Some(NoRows) else None;
    if err.Some? then
      if err.value == NoRows then
        (cache, Err(ErrorWrap(err, Name(k), UnknownLoginTag(k), UnknownLoginMessage(k), StatusInternalServerError)))
      else
        (cache, Err(Internal(err.value, Name(k), LookupTag(k))))
    else
      var a := accounts[found.value];
      if !matches(a.hash, password) then
        (cache, Err(ErrorWrap(Some(Plain("Invalid Password")), Name(k), "Login/CompareHashAndPassword",
                              IncorrectPasswordMessage, StatusInternalServerError)))
      else
        var s := LoginSession(k, a.id, generated);
        var stored := Store(cache, now, s, faults.store).0;
        if k != AdminKind && faults.response.Some? then
          (stored, Err(Internal(faults.response.value, Name(k), ResponseTag(k))))
        else
          (stored, Ok(LoginReply(a.id, s.sessionKey)))
  }

  /** With no driver failure, a login that finds its row succeeds exactly
      when bcrypt accepts the password, as that row's id. */
  lemma LoginOutcome(k: Kind, accounts: seq<Account>, login: string, password: string,
                     matches: (string, string) -> bool, generated: Uuid, cache: Cache, now: int)
    requires ByLogin(k, accounts, login).Some?
    ensures var i := ByLogin(k, accounts, login).value;
            var reply := Login(k, accounts, login, password, matches, generated, cache, now, LoginFaults(None, None, None)).1;
            && (matches(accounts[i].hash, password) ==> reply == Ok(LoginReply(accounts[i].id, KeyFor(generated))))
            && (!matches(accounts[i].hash, password) ==> reply.Err? && reply.error.message == IncorrectPasswordMessage)
  {
  }

  /** The `is_active = true` condition of the student code lookup: a
      student whose every row with the code is inactive is told the code
      is unknown, whatever the password; lecturer and admin logins do not
      look at the flag. */
  lemma InactiveStudentCannotLogIn(accounts: seq<Account>, login: string, password: string,
                                   matches: (string, string) -> bool, generated: Uuid, cache: Cache, now: int)
    requires forall j :: 0 <= j < |accounts| && accounts[j].login == login ==> !accounts[j].isActive
    ensures Login(StudentKind, accounts, login, password, matches, generated, cache, now, LoginFaults(None, None, None))
         == (cache, Err(ErrorWrap(Some(NoRows), "module/student", "Login/StudentCode",
                                  IncorrectStudentCodeMessage, StatusInternalServerError)))
    ensures forall k :: k != StudentKind ==> (ByLogin(k, accounts, login).None? <==> forall j :: 0 <= j < |accounts| ==> accounts[j].login != login)
  {
    assert ByLogin(StudentKind, accounts, login).None?;
  }

  /** A request carrying `token` in its `session` header. */
  function WithToken(req: Middleware.Request, token: string): (r: Middleware.Request)
    ensures Middleware.Token(r) == token && r.userId == req.userId
  {
    req.(headers := req.headers["session" := token])
  }

  /** The key a successful login returns opens every session-guarded route
      for a day, as the account's own user, and passes exactly the role
      checks that list the kind's role. */
  lemma LoginGrantsAccess(k: Kind, accounts: seq<Account>, login: string, password: string,
                          matches: (string, string) -> bool, generated: Uuid, cache: Cache, now: int,
                          faults: LoginFaults, req: Middleware.Request, roles: seq<string>, later: int)
    requires faults.store.None?
    requires now <= later < now + SessionExpiry
    ensures var (c1, reply) := Login(k, accounts, login, password, matches, generated, cache, now, faults);
            reply.Ok? ==>
              var r := WithToken(req, reply.value.session);
              && Middleware.SessionMiddleware(c1, later, r, None) == Middleware.Pass(r.(userId := Some(reply.value.userId)))
              && (Middleware.RolesMiddleware(c1, later, r, roles, None).Pass? <==> RoleOf(k) in roles)
  {
    var (c1, reply) := Login(k, accounts, login, password, matches, generated, cache, now, faults);
    if reply.Ok? {
      var found := ByLogin(k, accounts, login);
      var s := LoginSession(k, accounts[found.value].id, generated);
      var r := WithToken(req, reply.value.session);
      StoreThenGet(cache, now, s, later);
      assert Get(c1, later, Middleware.Token(r), None) == Ok(SessionData(s.userId, s.role));
    }
  }

  /** A login touches no other key, so every earlier session, of this
      account or any other, stays valid until its own expiry. */
  lemma LoginKeepsOtherSessions(k: Kind, accounts: seq<Account>, login: string, password: string,
                                matches: (string, string) -> bool, generated: Uuid, cache: Cache, now: int,
                                faults: LoginFaults, key: string, later: int)
    requires key != KeyFor(generated)
    ensures Get(Login(k, accounts, login, password, matches, generated, cache, now, faults).0, later, key, None)
         == Get(cache, later, key, None)
  {
    var found := ByLogin(k, accounts, login);
    if faults.lookup.None? && found.Some? && matches(accounts[found.value].hash, password) {
      StoreIsolated(cache, now, LoginSession(k, accounts[found.value].id, generated), key, later, faults.store);
    }
  }

  /** The error of `Session.Store` never reaches the client: the reply is
      the same whether the cache write failed or not. */
  lemma StoreFailureNeverSurfaces(k: Kind, accounts: seq<Account>, login: string, password: string,
                                  matches: (string, string) -> bool, generated: Uuid, cache: Cache, now: int,
                                  faults: LoginFaults, c: Cause)
    ensures Login(k, accounts, login, password, matches, generated, cache, now, faults.(store := Some(c))).1
         == Login(k, accounts, login, password, matches, generated, cache, now, faults.(store := None)).1
  {
  }

  /** So a login whose cache write failed still hands out a key, and that
      key is refused with 401 by the very next guarded request. */
  lemma LostSessionKeyIsRefused(k: Kind, accounts: seq<Account>, login: string, password: string,
                                matches: (string, string) -> bool, generated: Uuid, cache: Cache, now: int,
                                faults: LoginFaults, req: Middleware.Request)
    requires faults.store.Some? && KeyFor(generated) !in cache
    ensures var (c1, reply) := Login(k, accounts, login, password, matches, generated, cache, now, faults);
            reply.Ok? ==>
              Middleware.SessionMiddleware(c1, now, WithToken(req, reply.value.session), None)
                == Middleware.Reject(StatusUnauthorized, UnauthorizedMessage)
  {
    var (c1, reply) := Login(k, accounts, login, password, matches, generated, cache, now, faults);
    if reply.Ok? {
      assert c1 == cache;
      assert !Live(c1, now, KeyFor(generated));
    }
  }

  /** A student or lecturer whose response assembly fails gets an error,
      yet the session was already stored and its key is live. */
  lemma FailedResponseLeavesLiveSession(k: Kind, accounts: seq<Account>, login: string, password: string,
                                        matches: (string, string) -> bool, generated: Uuid, cache: Cache, now: int,
                                        faults: LoginFaults)
    requires k != AdminKind && faults.lookup.None? && faults.store.None? && faults.response.Some?
    requires ByLogin(k, accounts, login).Some?
    requires matches(accounts[ByLogin(k, accounts, login).value].hash, password)
    ensures var (c1, reply) := Login(k, accounts, login, password, matches, generated, cache, now, faults);
            reply == Err(Internal(faults.response.value, Name(k), ResponseTag(k)))
            && Live(c1, now, KeyFor(generated))
  {
  }

  // ------------------------------------------------------------ password change

  /** The request body of the three `PasswordUpdate` handlers. */
  datatype PasswordChange = PasswordChange(id: Uuid, current: string, next: string, confirm: string)

  /** Driver failures of the lookup and of the write. */
  datatype ChangeFaults = ChangeFaults(lookup: Option<Cause>, write: Option<Cause>)

  /** `PasswordUpdate` of the model: `password` and `updated_by` of the
      rows with the id change, and nothing else. */
  function SetPassword(accounts: seq<Account>, id: Uuid, hash: string, actor: Uuid): (r: seq<Account>)
    ensures |r| == |accounts|
    ensures forall j :: 0 <= j < |accounts| && accounts[j].id == id ==>
              r[j] == accounts[j].(hash := hash, updatedBy := Some(actor))
    ensures forall j :: 0 <= j < |accounts| && accounts[j].id != id ==> r[j] == accounts[j]
  {
    Map(accounts, (a: Account) => if a.id == id then a.(hash := hash, updatedBy := Some(actor)) else a)
  }

  /** The three checks of a password change, in their order, after the
      lookup: the current password is right, the new one differs from it,
      and it is confirmed. */
  predicate ChangeAllowed(p: PasswordChange, matches: (string, string) -> bool, hash: string) {
    matches(hash, p.current) && p.next != p.current && p.next == p.confirm
  }

  /** The password column as the id lookup of each kind scans it.
      `GetOneStudent` does not select `password`, so the student it
      returns carries Go's zero value, the empty string; `GetOneLecturer`
      and `GetOneAdmin` select the stored hash. */
  function ScannedHash(k: Kind, a: Account): (h: string)
    ensures k == StudentKind ==> h == ""
    ensures k != StudentKind ==> h == a.hash
  {
    if k == StudentKind then "" else a.hash
  }

  /** The password change of every kind, comparing the current password
      with `hashOf` of the row the lookup found.  `newHash` is what
      `bcrypt.GenerateFromPassword` produced for the new password (its
      error is ignored); `caller` is the `user_id` of the context. */
  function ChangeWith(k: Kind, accounts: seq<Account>, caller: Uuid, p: PasswordChange,
                      matches: (string, string) -> bool, newHash: string, faults: ChangeFaults,
                      hashOf: Account -> string): (r: (seq<Account>, Result<string, Error>))
    ensures var found := ById(accounts, p.id);
            r.1.Ok? <==> faults.lookup.None? && found.Some? && ChangeAllowed(p, matches, hashOf(accounts[found.value]))
                         && faults.write.None?
    ensures r.1.Err? ==> r.0 == accounts && r.1.error.statusCode == StatusInternalServerError
    ensures r.1.Ok? ==> r.0 == SetPassword(accounts, p.id, newHash, caller) && r.1.value == PasswordChanged
    ensures var found := ById(accounts, p.id);
            faults.lookup.None? && found.Some? && !matches(hashOf(accounts[found.value]), p.current) ==>
              r.1 == Err(WrongPassword(k))
  {
    var found := ById(accounts, p.id);
    var err := if faults.lookup.Some? then faults.lookup else if found.None? then Some(NoRows) else None;
    if err.Some? then
      (accounts, Err(Internal(err.value, Name(k), GetOneTag(k))))
    else if !matches(hashOf(accounts[found.value]), p.current) then
      (accounts, Err(WrongPassword(k)))
    else if p.next == p.current then
      (accounts, Err(Internal(Plain("New Password Cannot Be Same With Current Password"), Name(k),
                              "PasswordUpdate/CurrentPasswordComparison")))
    else if p.next != p.confirm then
      (accounts, Err(Internal(Plain("New Password Does Not Match"), Name(k), "PasswordUpdate/NewPassword")))
    else if faults.write.Some? then
      (accounts, Err(Internal(faults.write.value, Name(k), "PasswordUpdate/Update")))
    else
      (SetPassword(accounts, p.id, newHash, caller), Ok(PasswordChanged))
  }

  /** The refusal of a current password that does not match. */
  function WrongPassword(k: Kind): (e: Error)
    ensures e.message == IncorrectPasswordMessage && e.statusCode == StatusInternalServerError
  {
    ErrorWrap(Some(Plain("Current Password Is Incorrect!")), Name(k),
              "PasswordUpdate/CompareHashAndPassword", IncorrectPasswordMessage, StatusInternalServerError)
  }

  /** `PasswordUpdate` of each handler, with the current password compared
      against the stored hash, as the lecturer and admin handlers do.  For
      students this is the intended behaviour rather than the code as
      written (see `PasswordUpdateAsWritten`). */
  function PasswordUpdate(k: Kind, accounts: seq<Account>, caller: Uuid, p: PasswordChange,
                          matches: (string, string) -> bool, newHash: string, faults: ChangeFaults): (r: (seq<Account>, Result<string, Error>))
    ensures var found := ById(accounts, p.id);
            r.1.Ok? <==> faults.lookup.None? && found.Some? && ChangeAllowed(p, matches, accounts[found.value].hash)
                         && faults.write.None?
    ensures r.1.Err? ==> r.0 == accounts && r.1.error.statusCode == StatusInternalServerError
    ensures r.1.Ok? ==> r.0 == SetPassword(accounts, p.id, newHash, caller) && r.1.value == PasswordChanged
    ensures faults.lookup.Some? ==> r.1 == Err(Internal(faults.lookup.value, Name(k), GetOneTag(k)))
    ensures faults.lookup.None? && ById(accounts, p.id).None? ==> r.1 == Err(Internal(NoRows, Name(k), GetOneTag(k)))
    ensures var found := ById(accounts, p.id);
            faults.lookup.None? && found.Some? && !matches(accounts[found.value].hash, p.current) ==>
              r.1 == Err(ErrorWrap(Some(Plain("Current Password Is Incorrect!")), Name(k),
                                   "PasswordUpdate/CompareHashAndPassword", IncorrectPasswordMessage, StatusInternalServerError))
    ensures var found := ById(accounts, p.id);
            faults.lookup.None? && found.Some? && matches(accounts[found.value].hash, p.current) && p.next == p.current ==>
              r.1 == Err(Internal(Plain("New Password Cannot Be Same With Current Password"), Name(k),
                                  "PasswordUpdate/CurrentPasswordComparison"))
    ensures var found := ById(accounts, p.id);
            faults.lookup.None? && found.Some? && matches(accounts[found.value].hash, p.current)
            && p.next != p.current && p.next != p.confirm ==>
              r.1 == Err(Internal(Plain("New Password Does Not Match"), Name(k), "PasswordUpdate/NewPassword"))
    ensures var found := ById(accounts, p.id);
            faults.lookup.None? && found.Some? && ChangeAllowed(p, matches, accounts[found.value].hash) && faults.write.Some? ==>
              r.1 == Err(Internal(faults.write.value, Name(k), "PasswordUpdate/Update"))
  {
    ChangeWith(k, accounts, caller, p, matches, newHash, faults, (a: Account) => a.hash)
  }

  /** `PasswordUpdate` as the handlers are written: the current password is
      compared with the hash the id lookup scanned.  For lecturers and
      admins that is the stored hash; a student's lookup leaves it empty,
      and bcrypt accepts no password against an empty hash, so every
      student's change is refused as an incorrect password. */
  function PasswordUpdateAsWritten(k: Kind, accounts: seq<Account>, caller: Uuid, p: PasswordChange,
                                   matches: (string, string) -> bool, newHash: string, faults: ChangeFaults): (r: (seq<Account>, Result<string, Error>))
    ensures k != StudentKind ==> r == PasswordUpdate(k, accounts, caller, p, matches, newHash, faults)
    ensures k == StudentKind && faults.lookup.None? && ById(accounts, p.id).Some? && !matches("", p.current) ==>
              r == (accounts, Err(WrongPassword(k)))
    ensures k == StudentKind && r.1.Ok? ==> matches("", p.current)
  {
    ChangeWith(k, accounts, caller, p, matches, newHash, faults, (a: Account) => ScannedHash(k, a))
  }

  /** A student whose stored hash accepts the current password, asking for
      a confirmed new password, is refused as written and served by the
      intended handler. */
  lemma StudentPasswordChangeRefused()
    ensures var accounts := [Account(1, "1050100000", "h", true, 0, None)];
            var p := PasswordChange(1, "old", "new", "new");
            var matches := (h: string, pw: string) => h == "h" && pw == "old";
            && PasswordUpdateAsWritten(StudentKind, accounts, 1, p, matches, "h2", ChangeFaults(None, None))
                 == (accounts, Err(WrongPassword(StudentKind)))
            && PasswordUpdate(StudentKind, accounts, 1, p, matches, "h2", ChangeFaults(None, None))
                 == (SetPassword(accounts, 1, "h2", 1), Ok(PasswordChanged))
  {
    var accounts := [Account(1, "1050100000", "h", true, 0, None)];
    var p := PasswordChange(1, "old", "new", "new");
    var matches := (h: string, pw: string) => h == "h" && pw == "old";
    assert ById(accounts, 1) == Some(0);
    assert !matches("", "old");
    assert "new" != "old";
  }

  /** The client is told "incorrect password" exactly when the lookup
      succeeded and the current password is wrong, whatever the new and
      confirmed passwords are. */
  lemma WrongCurrentPasswordReportedFirst(k: Kind, accounts: seq<Account>, caller: Uuid, p: PasswordChange,
                                          matches: (string, string) -> bool, newHash: string, faults: ChangeFaults)
    ensures var r := PasswordUpdate(k, accounts, caller, p, matches, newHash, faults);
            var found := ById(accounts, p.id);
            (r.1.Err? && r.1.error.message == IncorrectPasswordMessage)
              <==> faults.lookup.None? && found.Some? && !matches(accounts[found.value].hash, p.current)
  {
    var r := PasswordUpdate(k, accounts, caller, p, matches, newHash, faults);
    var found := ById(accounts, p.id);
    if faults.lookup.None? && found.Some? && matches(accounts[found.value].hash, p.current) {
      if p.next == p.current {
        assert r.1.error.message == InternalServerError;
      } else if p.next != p.confirm {
        assert r.1.error.message == InternalServerError;
      }
    }
  }

  /** After the write of a successful change, with a hash that bcrypt
      accepts for the new password, the account logs in with the new
      password; the old one is refused unless the new hash happens to
      accept it too. */
  lemma PasswordChangeThenLogin(k: Kind, accounts: seq<Account>, caller: Uuid, p: PasswordChange,
                                matches: (string, string) -> bool, newHash: string,
                                login: string, generated: Uuid, cache: Cache, now: int)
    requires ByLogin(k, accounts, login).Some? && accounts[ByLogin(k, accounts, login).value].id == p.id
    ensures var updated := SetPassword(accounts, p.id, newHash, caller);
            && (matches(newHash, p.next) ==>
                  Login(k, updated, login, p.next, matches, generated, cache, now, LoginFaults(None, None, None)).1
                    == Ok(LoginReply(p.id, KeyFor(generated))))
            && (!matches(newHash, p.current) ==>
                  Login(k, updated, login, p.current, matches, generated, cache, now, LoginFaults(None, None, None)).1.error.message
                    == IncorrectPasswordMessage)
  {
    var updated := SetPassword(accounts, p.id, newHash, caller);
    ByLoginAgrees(k, accounts, updated, login);
    var i := ByLogin(k, accounts, login).value;
    assert updated[i].hash == newHash && updated[i].id == p.id;
    LoginOutcome(k, updated, login, p.next, matches, generated, cache, now);
    LoginOutcome(k, updated, login, p.current, matches, generated, cache, now);
  }

  // ------------------------------------------------------------ adding accounts

  /** `util.RandomString(12)`: the initial password of a new student or
      lecturer; `draws` are the random source's picks. */
  method InitialPassword(draws: seq<int>) returns (password: string)
    requires |draws| == 12
    requires forall i :: 0 <= i < 12 ==> 0 <= draws[i] < 62
    ensures |password| == 12
    ensures forall i :: 0 <= i < 12 ==> password[i] in Util.Letters
  {
    password := Util.RandomString(12, draws);
  }

  /** The program columns `StudentModule.Add` reads. */
  datatype Program = Program(code: int, facultyId: Uuid)

  /** `fmt.Sprintf("%d%d%d%d%d%s", 1, yearCode, programCode, 0,
      facultyCode, "000")`. */
  function StudentCode(yearCode: int, programCode: int, facultyCode: int): (c: string)
    ensures |c| == 5 + |IntToDec(yearCode)| + |IntToDec(programCode)| + |IntToDec(facultyCode)|
    ensures c[0] == '1' && c[1..1 + |IntToDec(yearCode)|] == IntToDec(yearCode)
    ensures c[|c| - 3..] == "000"
  {
    var y, p, f := IntToDec(yearCode), IntToDec(programCode), IntToDec(facultyCode);
    var c := "1" + y + p + "0" + f + "000";
    assert c[1..1 + |y|] == y;
    assert c[|c| - 3..] == "000";
    c
  }

  /** Year codes lose their leading zero, so the code does not determine
      its parts: year code 5 with program 12 reads like year code 51 with
      program 2. */
  lemma StudentCodeAmbiguous(facultyCode: int)
    ensures StudentCode(5, 12, facultyCode) == StudentCode(51, 2, facultyCode)
  {
    assert NatToDec(12) == NatToDec(1) + [DigitChar(2)];
    assert NatToDec(51) == NatToDec(5) + [DigitChar(1)];
    assert IntToDec(5) + IntToDec(12) == IntToDec(51) + IntToDec(2);
  }

  /** Driver failures along `StudentModule.Add`.  `insert` also covers a
      failing `bcrypt.GenerateFromPassword`, which `Insert` returns. */
  datatype StudentFaults = StudentFaults(program: Option<Cause>, faculty: Option<Cause>, insert: Option<Cause>, response: Option<Cause>)

  /** `StudentModule.Add` for the clock's `year`.  The program and faculty
      are looked up, the code is built, and one row is appended holding
      `hash`, bcrypt's hash of the generated `password`; its `is_active` is
      the column default the insert reads back, `activeDefault`.  A year
      with fewer than four characters would make `GetYearCode` panic, so
      the clock is required to be past year 999. */
  function AddStudent(accounts: seq<Account>, programs: map<Uuid, Program>, faculties: map<Uuid, int>,
                      year: int, caller: Uuid, programId: Uuid, newId: Uuid, hash: string,
                      activeDefault: bool, faults: StudentFaults): (r: (seq<Account>, Result<Account, Error>))
    requires Util.GetYearCode(year).Some?
    ensures r.1.Ok? <==> faults.program.None? && programId in programs && faults.faculty.None?
                         && programs[programId].facultyId in faculties && faults.insert.None? && faults.response.None?
    ensures r.1.Err? ==> r.1.error.statusCode == StatusInternalServerError && r.1.error.message == InternalServerError
    ensures r.0 == accounts || (faults.insert.None? && |r.0| == |accounts| + 1 && r.0[..|accounts|] == accounts)
    ensures faults.program.None? && programId in programs && faults.faculty.None?
            && programs[programId].facultyId in faculties && faults.insert.None? ==>
              var pr := programs[programId];
              r.0 == accounts + [Account(newId, StudentCode(Util.GetYearCode(year).value, pr.code, faculties[pr.facultyId]),
                                         hash, activeDefault, caller, None)]
    ensures r.1.Ok? ==> r.1.value == r.0[|accounts|]
  {
    var program := Tables.Lookup(programs, programId, faults.program);
    if program.Err? then (accounts, Err(Internal(program.error, "module/student", "Add/GetOneProgram")))
    else
      var faculty := Tables.Lookup(faculties, program.value.facultyId, faults.faculty);
      if faculty.Err? then (accounts, Err(Internal(faculty.error, "module/student", "Add/GetOneFaculty")))
      else
        var code := StudentCode(Util.GetYearCode(year).value, program.value.code, faculty.value);
        var row := Account(newId, code, hash, activeDefault, caller, None);
        if faults.insert.Some? then (accounts, Err(Internal(faults.insert.value, "module/student", "Add/Insert")))
        else if faults.response.Some? then (accounts + [row], Err(Internal(faults.response.value, "module/student", "Add/Response")))
        else (accounts + [row], Ok(row))
  }

  /** The code depends on nothing about the student: two students added
      in the same year to the same program get the same code. */
  lemma SameProgramSameCode(accounts: seq<Account>, programs: map<Uuid, Program>, faculties: map<Uuid, int>,
                            year: int, caller1: Uuid, caller2: Uuid, programId: Uuid,
                            id1: Uuid, id2: Uuid, hash1: string, hash2: string, active: bool)
    requires Util.GetYearCode(year).Some?
    requires AddStudent(accounts, programs, faculties, year, caller1, programId, id1, hash1, active, StudentFaults(None, None, None, None)).1.Ok?
    ensures var first := AddStudent(accounts, programs, faculties, year, caller1, programId, id1, hash1, active, StudentFaults(None, None, None, None));
            var second := AddStudent(first.0, programs, faculties, year, caller2, programId, id2, hash2, active, StudentFaults(None, None, None, None));
            second.1.Ok? && second.1.value.login == first.1.value.login
  {
  }

  /** So once a student is in, a second student of the same program and
      year shares the first one's code: both rows match the code lookup
      (when the `is_active` default makes new rows active), so the lookup
      cannot tell the two students apart.  `GetOneStudentByCode` has no
      ORDER BY; in the table order this model gives `QueryRow`, the lookup
      finds the earlier row, and a login with the second student's
      password either fails or opens a session for the first student. */
  lemma SecondStudentLogsInAsFirst(accounts: seq<Account>, programs: map<Uuid, Program>, faculties: map<Uuid, int>,
                                   year: int, caller: Uuid, programId: Uuid, id1: Uuid, id2: Uuid,
                                   hash1: string, hash2: string, password: string,
                                   matches: (string, string) -> bool, generated: Uuid, cache: Cache, now: int,
                                   active: bool)
    requires Util.GetYearCode(year).Some? && active
    requires AddStudent(accounts, programs, faculties, year, caller, programId, id1, hash1, active, StudentFaults(None, None, None, None)).1.Ok?
    ensures var first := AddStudent(accounts, programs, faculties, year, caller, programId, id1, hash1, active, StudentFaults(None, None, None, None));
            var second := AddStudent(first.0, programs, faculties, year, caller, programId, id2, hash2, active, StudentFaults(None, None, None, None));
            var reply := Login(StudentKind, second.0, second.1.value.login, password, matches, generated, cache, now,
                               LoginFaults(None, None, None)).1;
            && |second.0| == |accounts| + 2
            && second.0[|accounts|].id == id1 && second.0[|accounts| + 1].id == id2
            && LoginMatches(StudentKind, second.0[|accounts|], second.1.value.login)
            && LoginMatches(StudentKind, second.0[|accounts| + 1], second.1.value.login)
            && (ByLogin(StudentKind, accounts, second.1.value.login).None? ==>
              && ByLogin(StudentKind, second.0, second.1.value.login) == Some(|accounts|)
              && (reply.Ok? ==> reply.value.userId == id1))
  {
    var first := AddStudent(accounts, programs, faculties, year, caller, programId, id1, hash1, active, StudentFaults(None, None, None, None));
    var second := AddStudent(first.0, programs, faculties, year, caller, programId, id2, hash2, active, StudentFaults(None, None, None, None));
    var code := second.1.value.login;
    if ByLogin(StudentKind, accounts, code).None? {
      var n := |accounts|;
      assert second.0 == first.0 + [second.1.value];
      assert second.0[n] == first.1.value;
      assert LoginMatches(StudentKind, second.0[n], code);
      var found := ByLogin(StudentKind, second.0, code);
      assert found.value <= n;
      assert forall j :: 0 <= j < n ==> second.0[j] == accounts[j];
      assert found.value == n;
    }
  }

  /** A new student whose code nobody active holds yet logs in with the
      generated password, as the new row's id, provided the `is_active`
      default makes the row active. */
  lemma AddedStudentCanLogIn(accounts: seq<Account>, programs: map<Uuid, Program>, faculties: map<Uuid, int>,
                             year: int, caller: Uuid, programId: Uuid, newId: Uuid, hash: string, password: string,
                             matches: (string, string) -> bool, generated: Uuid, cache: Cache, now: int,
                             active: bool)
    requires Util.GetYearCode(year).Some? && active
    requires AddStudent(accounts, programs, faculties, year, caller, programId, newId, hash, active, StudentFaults(None, None, None, None)).1.Ok?
    requires matches(hash, password)
    ensures var added := AddStudent(accounts, programs, faculties, year, caller, programId, newId, hash, active, StudentFaults(None, None, None, None));
            ByLogin(StudentKind, accounts, added.1.value.login).None? ==>
              Login(StudentKind, added.0, added.1.value.login, password, matches, generated, cache, now,
                    LoginFaults(None, None, None)).1 == Ok(LoginReply(newId, KeyFor(generated)))
  {
    var added := AddStudent(accounts, programs, faculties, year, caller, programId, newId, hash, active, StudentFaults(None, None, None, None));
    var code := added.1.value.login;
    if ByLogin(StudentKind, accounts, code).None? {
      var n := |accounts|;
      assert added.0[n] == added.1.value;
      assert forall j :: 0 <= j < n ==> added.0[j] == accounts[j];
      assert ByLogin(StudentKind, added.0, code) == Some(n);
    }
  }

  /** Driver failures along `LecturerModule.Add`. */
  datatype LecturerFaults = LecturerFaults(insert: Option<Cause>, response: Option<Cause>)

  /** `LecturerModule.Add`: one row keyed by the e-mail address, holding
      `hash`, bcrypt's hash of the generated password, created by the
      caller.  Only a failing insert leaves the table unchanged. */
  function AddLecturer(accounts: seq<Account>, caller: Uuid, email: string, newId: Uuid, hash: string,
                       activeDefault: bool, faults: LecturerFaults): (r: (seq<Account>, Result<Account, Error>))
    ensures r.1.Ok? <==> faults.insert.None? && faults.response.None?
    ensures faults.insert.Some? ==> r == (accounts, Err(Internal(faults.insert.value, "module/lecturer", "Add/Insert")))
    ensures faults.insert.None? ==> r.0 == accounts + [Account(newId, email, hash, activeDefault, caller, None)]
    ensures faults.insert.None? && faults.response.Some? ==>
              r.1 == Err(Internal(faults.response.value, "module/lecturer", "Add/LecturerResponse"))
    ensures r.1.Ok? ==> r.1.value.login == email && r.1.value.hash == hash && r.1.value.createdBy == caller
  {
    var row := Account(newId, email, hash, activeDefault, caller, None);
    if faults.insert.Some? then (accounts, Err(Internal(faults.insert.value, "module/lecturer", "Add/Insert")))
    else if faults.response.Some? then (accounts + [row], Err(Internal(faults.response.value, "module/lecturer", "Add/LecturerResponse")))
    else (accounts + [row], Ok(row))
  }

  /** A new lecturer whose address is not taken logs in with the generated
      password; lecturer login does not look at `is_active`. */
  lemma AddedLecturerCanLogIn(accounts: seq<Account>, caller: Uuid, email: string, newId: Uuid, hash: string,
                              activeDefault: bool, password: string, matches: (string, string) -> bool,
                              generated: Uuid, cache: Cache, now: int)
    requires matches(hash, password)
    requires ByLogin(LecturerKind, accounts, email).None?
    ensures var added := AddLecturer(accounts, caller, email, newId, hash, activeDefault, LecturerFaults(None, None));
            Login(LecturerKind, added.0, email, password, matches, generated, cache, now, LoginFaults(None, None, None)).1
              == Ok(LoginReply(newId, KeyFor(generated)))
  {
    var added := AddLecturer(accounts, caller, email, newId, hash, activeDefault, LecturerFaults(None, None));
    var n := |accounts|;
    assert added.0[n] == Account(newId, email, hash, activeDefault, caller, None);
    assert forall j :: 0 <= j < n ==> added.0[j] == accounts[j];
    assert ByLogin(LecturerKind, added.0, email) == Some(n);
  }
}
