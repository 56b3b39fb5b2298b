/** The `Provider` interface of session/session_manager.go, given the behaviour
    its comments promise, on an abstract store from session id to session.
    No concrete backend exists in the package; this is the reference semantics
    every backend is expected to satisfy. A session's key/value content is kept
    as an opaque map, since `Set`/`Get`/`Delete` have no implementation here. */
module Provider {
  import opened GoTypes

  /** One stored session: the id `SessionID()` reports and its values. */
  datatype SessionData = SessionData(id: string, values: map<string, string>)

  type Store = map<string, SessionData>

  /** Every stored session reports the id it is stored under. */
  ghost predicate WellFormed(store: Store) {
    forall sid :: sid in store ==> store[sid].id == sid
  }

  /** `a` and `b` hold the same sessions under every id other than `sid`. */
  ghost predicate AgreeExcept(a: Store, b: Store, sid: string) {
    && (forall k :: k != sid ==> (k in a <==> k in b))
    && (forall k :: k != sid && k in a && k in b ==> a[k] == b[k])
  }

  /** A fresh session holding no values. */
  function NewSession(sid: string): SessionData {
    SessionData(sid, map[])
  }

  /** The store after a provider call and the session the call returned. */
  datatype Reply = Reply(store: Store, session: SessionData)

  /** `SessionInit`: stores a new, empty session under `sid` (replacing any
      session held there) and returns it; no other id is touched. */
  function SessionInit(store: Store, sid: string): (r: Reply)
    ensures sid in r.store && r.session == r.store[sid]
    ensures r.session.id == sid && r.session.values == map[]
    ensures AgreeExcept(store, r.store, sid)
    ensures WellFormed(store) ==> WellFormed(r.store)
  {
    var s := NewSession(sid);
    Reply(store[sid := s], s)
  }

  /** `SessionRead`: returns the session stored under `sid`; when there is
      none, it creates one exactly as `SessionInit` would ("read creates"). */
  function SessionRead(store: Store, sid: string): (r: Reply)
    ensures sid in r.store && r.session == r.store[sid]
    ensures sid in store ==> r.store == store && r.session == store[sid]
    ensures sid !in store ==> r == SessionInit(store, sid)
    ensures AgreeExcept(store, r.store, sid)
    ensures WellFormed(store) ==> WellFormed(r.store) && r.session.id == sid
  {
    if sid in store then Reply(store, store[sid]) else SessionInit(store, sid)
  }

  /** `SessionDestroy`: removes the session stored under `sid`, if any, and
      nothing else. */
  function SessionDestroy(store: Store, sid: string): (r: Store)
    ensures sid !in r
    ensures AgreeExcept(store, r, sid)
    ensures WellFormed(store) ==> WellFormed(r)
  {
    store - {sid}
  }

  /** `SessionGC(maxLifeTime)`: evicts every session the backend judges older
      than `maxLifeTime`, and only those. The judgement depends on the
      backend's clock and access times, so it is the parameter `expired`. */
  function SessionGC(store: Store, maxLifeTime: Int64, expired: (SessionData, Int64) -> bool): (r: Store)
    ensures forall sid :: sid in r ==> sid in store && r[sid] == store[sid]
    ensures forall sid :: sid in store ==> (sid in r <==> !expired(store[sid], maxLifeTime))
    ensures WellFormed(store) ==> WellFormed(r)
  {
    map sid | sid in store && !expired(store[sid], maxLifeTime) :: store[sid]
  }

  /** Destroying is idempotent: a second destroy of the same id changes nothing. */
  lemma DestroyIdempotent(store: Store, sid: string)
    ensures SessionDestroy(SessionDestroy(store, sid), sid) == SessionDestroy(store, sid)
  {
  }

  /** Reading twice returns the same session and leaves the store as the first
      read left it. */
  lemma ReadIdempotent(store: Store, sid: string)
    ensures var first := SessionRead(store, sid);
      SessionRead(first.store, sid) == first
  {
  }

  /** A sweep is idempotent: what survives one sweep survives the next. */
  lemma GCIdempotent(store: Store, maxLifeTime: Int64, expired: (SessionData, Int64) -> bool)
    ensures var once := SessionGC(store, maxLifeTime, expired);
      SessionGC(once, maxLifeTime, expired) == once
  {
  }

  /** Once an expired session has been swept, reading its id finds nothing and
      starts a new, empty session under that id: the old values are gone. */
  lemma ReadAfterGCStartsOver(store: Store, maxLifeTime: Int64, expired: (SessionData, Int64) -> bool, sid: string)
    requires sid in store && expired(store[sid], maxLifeTime)
    ensures var swept := SessionGC(store, maxLifeTime, expired);
      && sid !in swept
      && SessionRead(swept, sid).session == NewSession(sid)
  {
  }
}
