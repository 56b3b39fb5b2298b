/** The session manager of session/session_manager.go. Each request-facing
    operation is a pure transition over the provider's store: it receives the
    value of the request's session cookie (None when `r.Cookie` reports no
    such cookie), returns the new store, the provider calls it made, and the
    cookies it wrote to the response. `url.QueryEscape` and
    `url.QueryUnescape` are library code, so they are parameters; the random
    source is the `RandomRead` input of the token generator. The manager's
    mutex makes each operation atomic, which is what a single transition is. */
module SessionManager {
  import opened Wrappers
  import opened GoTypes
  import opened Token
  import Registry
  import P = Provider

  /** A manager binds one cookie name, one provider and one lifetime (seconds). */
  datatype Manager = Manager(cookieName: string, provider: Registry.ProviderId, maxLifeTime: Int64)

  /** The one error `NewManager` reports. */
  datatype ConfigError = UnknownProvider(name: string)

  /** Whether the cookie carries an `Expires` attribute; the destroy cookie's
      is the current time, which the model does not represent. */
  datatype Expiry = NoExpiry | ExpiresNow

  /** The fields of `http.Cookie` that the manager sets. */
  datatype Cookie = Cookie(name: string, value: string, path: string, httpOnly: bool, maxAge: int, expires: Expiry)

  /** A call the manager makes on its provider, with its argument. */
  datatype ProviderCall = CallInit(sid: string) | CallRead(sid: string) | CallDestroy(sid: string) | CallGC(maxLifeTime: Int64)

  /** What `SessionStart` leaves behind: the store, the session it returns,
      the provider calls made and the cookies written. */
  datatype StartResult = StartResult(store: P.Store, session: P.SessionData, calls: seq<ProviderCall>, written: seq<Cookie>)

  /** What `SessionDestroy` leaves behind. */
  datatype DestroyResult = DestroyResult(store: P.Store, calls: seq<ProviderCall>, written: seq<Cookie>)

  /** What one `GC` step leaves behind. */
  datatype GCResult = GCResult(store: P.Store, calls: seq<ProviderCall>)

  /** The request carries the session cookie with a non-empty value. An absent
      cookie and an empty one are treated alike. */
  predicate HasSessionCookie(cookie: Option<string>) {
    cookie.Some? && cookie.value != ""
  }

  /** `NewManager`: fails exactly when no provider is registered under the
      name; otherwise the manager holds that provider and the given cookie
      name and lifetime. */
  function NewManager(reg: Registry.Bindings, providerName: string, cookieName: string, maxLifeTime: Int64): (r: Result<Manager, ConfigError>)
    ensures r.Failure? <==> providerName !in reg
    ensures r.Failure? ==> r.error == UnknownProvider(providerName)
    ensures r.Success? ==>
      && r.value.provider == reg[providerName]
      && r.value.cookieName == cookieName
      && r.value.maxLifeTime == maxLifeTime
  {
    if providerName in reg then Success(Manager(cookieName, reg[providerName], maxLifeTime))
    else Failure(UnknownProvider(providerName))
  }

  /** The cookie written when a session is created: it carries the escaped id
      and the manager's lifetime as its max-age. */
  function SessionCookie(m: Manager, value: string): Cookie {
    Cookie(m.cookieName, value, "/", true, m.maxLifeTime, NoExpiry)
  }

  /** The cookie written when a session is destroyed: empty, expiring now and
      with max-age -1, telling the client to drop it. */
  function ExpiredCookie(m: Manager): Cookie {
    Cookie(m.cookieName, "", "/", true, -1, ExpiresNow)
  }

  /** `SessionStart`. Without a session cookie it mints an id, creates an empty
      session under it and writes exactly one cookie carrying the escaped id.
      With a cookie it reads the session under the unescaped value (creating
      it if absent) and writes nothing. Only that one id of the store changes. */
  function SessionStart(m: Manager, store: P.Store, cookie: Option<string>, draw: RandomRead,
                        escape: string -> string, unescape: string -> string): (r: StartResult)
    requires ValidRead(draw)
    ensures !HasSessionCookie(cookie) ==>
      var sid := SessionId(draw);
      && r.calls == [CallInit(sid)]
      && |r.written| == 1
      && r.written[0].name == m.cookieName
      && r.written[0].value == escape(sid)
      && r.written[0].path == "/"
      && r.written[0].httpOnly
      && r.written[0].maxAge == m.maxLifeTime
      && r.written[0].expires == NoExpiry
      && sid in r.store && r.session == r.store[sid]
      && r.session.id == sid && r.session.values == map[]
      && P.AgreeExcept(store, r.store, sid)
    ensures HasSessionCookie(cookie) ==>
      var sid := unescape(cookie.value);
      && r.calls == [CallRead(sid)]
      && r.written == []
      && sid in r.store && r.session == r.store[sid]
      && (sid in store ==> r.store == store && r.session == store[sid])
      && (sid !in store ==> r.session.id == sid && r.session.values == map[])
      && P.AgreeExcept(store, r.store, sid)
    ensures P.WellFormed(store) ==> P.WellFormed(r.store)
  {
    if !HasSessionCookie(cookie) then
      var sid := SessionId(draw);
      var reply := P.SessionInit(store, sid);
      StartResult(reply.store, reply.session, [CallInit(sid)], [SessionCookie(m, escape(sid))])
    else
      var sid := unescape(cookie.value);
      var reply := P.SessionRead(store, sid);
      StartResult(reply.store, reply.session, [CallRead(sid)], [])
  }

  /** `SessionDestroy`, as written. Without a session cookie it does nothing.
      With one it destroys the session stored under the RAW cookie value (not
      unescaped, unlike `SessionStart`), and no other, and writes one expired
      cookie. */
  function SessionDestroy(m: Manager, store: P.Store, cookie: Option<string>): (r: DestroyResult)
    ensures !HasSessionCookie(cookie) ==> r.store == store && r.calls == [] && r.written == []
    ensures HasSessionCookie(cookie) ==>
      && r.calls == [CallDestroy(cookie.value)]
      && cookie.value !in r.store
      && P.AgreeExcept(store, r.store, cookie.value)
      && |r.written| == 1
      && r.written[0].name == m.cookieName
      && r.written[0].value == ""
      && r.written[0].path == "/"
      && r.written[0].httpOnly
      && r.written[0].maxAge == -1
      && r.written[0].expires == ExpiresNow
    ensures P.WellFormed(store) ==> P.WellFormed(r.store)
  {
    if !HasSessionCookie(cookie) then DestroyResult(store, [], [])
    else DestroyResult(P.SessionDestroy(store, cookie.value), [CallDestroy(cookie.value)], [ExpiredCookie(m)])
  }

  /** `SessionDestroy` corrected to unescape the cookie value first, as
      `SessionStart` does, so that it destroys the session the cookie names. */
  function SessionDestroyUnescaped(m: Manager, store: P.Store, cookie: Option<string>,
                                   unescape: string -> string): (r: DestroyResult)
    ensures !HasSessionCookie(cookie) ==> r.store == store && r.calls == [] && r.written == []
    ensures HasSessionCookie(cookie) ==>
      var sid := unescape(cookie.value);
      && r.calls == [CallDestroy(sid)]
      && sid !in r.store
      && P.AgreeExcept(store, r.store, sid)
      && r.written == [ExpiredCookie(m)]
    ensures P.WellFormed(store) ==> P.WellFormed(r.store)
  {
    if !HasSessionCookie(cookie) then DestroyResult(store, [], [])
    else
      var sid := unescape(cookie.value);
      DestroyResult(P.SessionDestroy(store, sid), [CallDestroy(sid)], [ExpiredCookie(m)])
  }

  /** One `GC` step: a single sweep call with the manager's lifetime. The
      backend's expiry judgement is the parameter `expired`; the rescheduling
      timer is not part of a step. */
  function GC(m: Manager, store: P.Store, expired: (P.SessionData, Int64) -> bool): (r: GCResult)
    ensures r.calls == [CallGC(m.maxLifeTime)]
    ensures forall sid :: sid in r.store ==> sid in store && r.store[sid] == store[sid]
    ensures forall sid :: sid in store ==> (sid in r.store <==> !expired(store[sid], m.maxLifeTime))
  {
    GCResult(P.SessionGC(store, m.maxLifeTime, expired), [CallGC(m.maxLifeTime)])
  }
}
