/** session/session.go over helpers/cache.go: a login session is a
    cache entry keyed by the session key, holding the user id and role,
    with a time-to-live.  The cache is a map from key to entry; an entry
    whose deadline has passed is gone.  The payload is kept as what its
    JSON text decodes to. */
module Sessions {

  import opened Prelude
  import opened Errors
  import opened Decimal

  /** `USER_SESSION`, the key prefix of every login. */
  const UserSession: string := "USER_SESSION"

  /** The three role constants. */
  const StudentRole: string := "student"
  const AdminRole: string := "admin"
  const LecturerRole: string := "lecturer"

  /** `SessionData`: what the cache holds for a session. */
  datatype SessionData = SessionData(userId: Uuid, role: string)

  /** `Session`: the data, the cache key and the time-to-live in seconds. */
  datatype Session = Session(userId: Uuid, sessionKey: string, expiry: int, role: string)

  /** A cached string, as `json.Unmarshal` into `SessionData` sees it. */
  datatype Payload = Payload(data: SessionData) | Undecodable

  /** A cache entry and the instant, in seconds, from which it is gone. */
  datatype Entry = Entry(value: Payload, deadline: int)

  type Cache = map<string, Entry>

  /** The error redis answers to a SETEX whose time-to-live is not
      positive. */
  const InvalidExpire: Cause := Plain("ERR invalid expire time in 'setex' command")

  /** The error `json.Unmarshal` reports for text that is not a session. */
  const BadPayload: Cause := Plain("invalid character looking for beginning of value")

  /** `fmt.Sprintf("%s:%s", USER_SESSION, id)`: the key of a new login. */
  function KeyFor(id: Uuid): (k: string)
    ensures |k| > |UserSession| + 1 && k[..|UserSession| + 1] == UserSession + ":"
    ensures AllDigits(k[|UserSession| + 1..]) && ParseNat(k[|UserSession| + 1..]) == id
  {
    ParseNatOfNatToDec(id);
    var k := UserSession + ":" + NatToDec(id);
    assert k[|UserSession| + 1..] == NatToDec(id);
    k
  }

  /** Distinct ids give distinct keys, so a new login never lands on the
      key of another. */
  lemma KeyForInjective(a: Uuid, b: Uuid)
    requires a != b
    ensures KeyFor(a) != KeyFor(b)
  {
    var ka, kb := KeyFor(a), KeyFor(b);
    assert ParseNat(ka[|UserSession| + 1..]) == a;
    assert ParseNat(kb[|UserSession| + 1..]) == b;
  }

  /** Whether the key holds a value at `now`. */
  predicate Live(cache: Cache, now: int, key: string) {
    key in cache && now < cache[key].deadline
  }

  /** `SetDataToCacheWithExpiry` (SETEX); `fault` is a connection or
      command failure. */
  function SetWithExpiry(cache: Cache, now: int, key: string, value: Payload, ttl: int, fault: Option<Cause>): (r: (Cache, Option<Cause>))
    ensures r.1.None? <==> fault.None? && ttl > 0
    ensures r.1.Some? ==> r.0 == cache
    ensures r.1.None? ==> r.0 == cache[key := Entry(value, now + ttl)]
  {
    if fault.Some? then (cache, fault)
    else if ttl <= 0 then (cache, Some(InvalidExpire))
    else (cache[key := Entry(value, now + ttl)], None)
  }

  /** `GetDataFromCache` (GET): a missing or expired key is `redis.ErrNil`. */
  function GetFromCache(cache: Cache, now: int, key: string, fault: Option<Cause>): (r: Result<Payload, Cause>)
    ensures fault.Some? ==> r == Err(fault.value)
    ensures fault.None? ==> (r.Ok? <==> Live(cache, now, key))
    ensures fault.None? && r.Err? ==> r.error == RedisNil
    ensures r.Ok? ==> r.value == cache[key].value
  {
    if fault.Some? then Err(fault.value)
    else if Live(cache, now, key) then Ok(cache[key].value)
    else Err(RedisNil)
  }

  /** `Session.Store`: only the user id and role are written, under the
      session key, with the expiry as time-to-live. */
  function Store(cache: Cache, now: int, s: Session, fault: Option<Cause>): (r: (Cache, Option<Cause>))
    ensures r.1.None? <==> fault.None? && s.expiry > 0
    ensures r.1.None? ==> r.0 == cache[s.sessionKey := Entry(Payload(SessionData(s.userId, s.role)), now + s.expiry)]
    ensures r.1.Some? ==> r.0 == cache
    ensures forall k :: k != s.sessionKey && k in cache ==> k in r.0 && r.0[k] == cache[k]
  {
    SetWithExpiry(cache, now, s.sessionKey, Payload(SessionData(s.userId, s.role)), s.expiry, fault)
  }

  /** `Session.Get`: the cache error comes back unchanged; a value that
      does not decode is an error of its own. */
  function Get(cache: Cache, now: int, key: string, fault: Option<Cause>): (r: Result<SessionData, Cause>)
    ensures fault.Some? ==> r == Err(fault.value)
    ensures fault.None? && !Live(cache, now, key) ==> r == Err(RedisNil)
    ensures fault.None? && Live(cache, now, key) ==>
              match cache[key].value
              case Payload(d) => r == Ok(d)
              case Undecodable => r == Err(BadPayload)
  {
    match GetFromCache(cache, now, key, fault)
    case Err(e) => Err(e)
    case Ok(Payload(d)) => Ok(d)
    case Ok(Undecodable) => Err(BadPayload)
  }

  // ------------------------------------------------------------ lemmas

  /** A stored session reads back as its user id and role for as long as
      it lives, and is `redis.ErrNil` once its time-to-live has run out. */
  lemma StoreThenGet(cache: Cache, now: int, s: Session, later: int)
    requires s.expiry > 0 && now <= later
    ensures var (c1, err) := Store(cache, now, s, None);
            && err.None?
            && (later < now + s.expiry ==> Get(c1, later, s.sessionKey, None) == Ok(SessionData(s.userId, s.role)))
            && (later >= now + s.expiry ==> Get(c1, later, s.sessionKey, None) == Err(RedisNil))
  {
    var (c1, err) := Store(cache, now, s, None);
    assert c1[s.sessionKey] == Entry(Payload(SessionData(s.userId, s.role)), now + s.expiry);
  }

  /** Storing one session leaves what every other key reads unchanged. */
  lemma StoreIsolated(cache: Cache, now: int, s: Session, key: string, later: int, fault: Option<Cause>)
    requires key != s.sessionKey
    ensures Get(Store(cache, now, s, fault).0, later, key, None) == Get(cache, later, key, None)
  {
    var c1 := Store(cache, now, s, fault).0;
    if key in cache {
      assert c1[key] == cache[key];
    } else {
      assert key !in c1;
    }
  }

  /** The three roles are pairwise distinct. */
  lemma RolesDistinct()
    ensures StudentRole != AdminRole && AdminRole != LecturerRole && StudentRole != LecturerRole
  {
    assert StudentRole[0] == 's' && AdminRole[0] == 'a' && LecturerRole[0] == 'l';
  }
}
