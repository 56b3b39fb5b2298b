/** Properties that relate several manager operations: a configured manager
    follows its registration, a cookie handed out by `SessionStart` resumes
    the same session, destroying is idempotent, and what happens to the
    session behind a cookie when that cookie is destroyed. */
module Lifecycle {
  import opened Wrappers
  import opened GoTypes
  import opened Token
  import opened SessionManager
  import Registry
  import P = Provider
  import Base64
  import UrlEscape

  /** A manager built after a successful registration uses exactly the
      provider that registration bound. */
  lemma RegisterThenNewManager(reg: Registry.Bindings, name: string, p: Registry.ProviderRef,
                               cookieName: string, maxLifeTime: Int64)
    requires Registry.Register(reg, name, p).panic.None?
    ensures NewManager(Registry.Register(reg, name, p).registry, name, cookieName, maxLifeTime)
            == Success(Manager(cookieName, p.id, maxLifeTime))
  {
  }

  /** Escaping functions under which the cookie written by `SessionStart`
      names the session it created: unescaping undoes escaping and escaping
      never shortens a string. */
  ghost predicate EscapeRoundTrips(escape: string -> string, unescape: string -> string) {
    && (forall s :: unescape(escape(s)) == s)
    && (forall s :: |escape(s)| >= |s|)
  }

  /** The cookie minted for a new session is a session cookie: it is not empty. */
  lemma MintedCookieIsSessionCookie(m: Manager, store: P.Store, draw: RandomRead,
                                    escape: string -> string, unescape: string -> string)
    requires ValidRead(draw) && draw.ReadBytes?
    requires forall s :: |escape(s)| >= |s|
    ensures HasSessionCookie(Some(SessionStart(m, store, None, draw, escape, unescape).written[0].value))
  {
    var sid := SessionId(draw);
    assert |escape(sid)| >= SidLength;
  }

  /** Sending back the cookie of a new session resumes that very session:
      nothing is written, the store is unchanged and the same session, with
      its values, is returned. */
  lemma StartThenResume(m: Manager, store: P.Store, draw: RandomRead, next: RandomRead,
                        escape: string -> string, unescape: string -> string)
    requires ValidRead(draw) && draw.ReadBytes? && ValidRead(next)
    requires EscapeRoundTrips(escape, unescape)
    ensures var first := SessionStart(m, store, None, draw, escape, unescape);
      var second := SessionStart(m, first.store, Some(first.written[0].value), next, escape, unescape);
      && second.written == []
      && second.calls == [CallRead(SessionId(draw))]
      && second.store == first.store
      && second.session == first.session
  {
    MintedCookieIsSessionCookie(m, store, draw, escape, unescape);
    var first := SessionStart(m, store, None, draw, escape, unescape);
    assert unescape(first.written[0].value) == SessionId(draw);
  }

  /** Destroying twice with the same cookie: the second call finds nothing
      more to remove, and both calls write the expired cookie. */
  lemma DestroyTwice(m: Manager, store: P.Store, cookie: Option<string>)
    ensures var once := SessionDestroy(m, store, cookie);
      var twice := SessionDestroy(m, once.store, cookie);
      && twice.store == once.store
      && twice.written == once.written
      && (HasSessionCookie(cookie) ==> twice.written == [ExpiredCookie(m)])
  {
  }

  /** As written, destroying with the cookie `SessionStart` handed out leaves
      the session in the store. A minted id always ends in `=`, which
      `url.QueryEscape` writes as `%3D`; `SessionDestroy` passes the raw
      cookie value, so it destroys an id that was never stored. The client is
      told to drop its cookie while the session lives on until a sweep. */
  lemma StartThenDestroyKeepsSession(m: Manager, store: P.Store, draw: RandomRead, unescape: string -> string)
    requires ValidRead(draw) && draw.ReadBytes?
    ensures var first := SessionStart(m, store, None, draw, UrlEscape.QueryEscape, unescape);
      var sid := SessionId(draw);
      var destroyed := SessionDestroy(m, first.store, Some(first.written[0].value));
      && destroyed.written == [ExpiredCookie(m)]
      && sid in destroyed.store
      && destroyed.store[sid] == first.session
  {
    var sid := SessionId(draw);
    var value := UrlEscape.QueryEscape(sid);
    UrlEscape.EscapedPadEndsInPercent3D(sid);
    assert value[|value| - 1] == 'D';
    assert sid[|sid| - 1] == Base64.Pad;
  }

  /** With the corrected destroy, start followed by destroy removes the new
      session and leaves every other session as it was before the start. */
  lemma StartThenDestroyRemovesSession(m: Manager, store: P.Store, draw: RandomRead,
                                       escape: string -> string, unescape: string -> string)
    requires ValidRead(draw) && draw.ReadBytes?
    requires EscapeRoundTrips(escape, unescape)
    ensures var first := SessionStart(m, store, None, draw, escape, unescape);
      var destroyed := SessionDestroyUnescaped(m, first.store, Some(first.written[0].value), unescape);
      && destroyed.written == [ExpiredCookie(m)]
      && destroyed.store == store - {SessionId(draw)}
  {
    MintedCookieIsSessionCookie(m, store, draw, escape, unescape);
    var sid := SessionId(draw);
    var first := SessionStart(m, store, None, draw, escape, unescape);
    var destroyed := SessionDestroyUnescaped(m, first.store, Some(first.written[0].value), unescape);
    assert unescape(first.written[0].value) == sid;
    assert destroyed.store == store - {sid} by {
      assert destroyed.store.Keys == (store - {sid}).Keys;
    }
  }

  /** A sweep that judges a session expired ends it for its client: presenting
      the same cookie after the `GC` step reads the id again and, under the
      read-creates policy, gets a new empty session; the old values are gone. */
  lemma GCThenResumeStartsOver(m: Manager, store: P.Store, sid: string, next: RandomRead,
                               expired: (P.SessionData, Int64) -> bool,
                               escape: string -> string, unescape: string -> string)
    requires ValidRead(next)
    requires sid != "" && sid in store && expired(store[sid], m.maxLifeTime)
    requires EscapeRoundTrips(escape, unescape)
    ensures var swept := GC(m, store, expired);
      var resumed := SessionStart(m, swept.store, Some(escape(sid)), next, escape, unescape);
      && sid !in swept.store
      && resumed.calls == [CallRead(sid)]
      && resumed.written == []
      && resumed.session == P.NewSession(sid)
  {
    assert |escape(sid)| >= |sid| > 0;
    assert unescape(escape(sid)) == sid;
  }

  /** When the random source fails, the new session is stored under the empty
      id and the cookie written carries an empty value, which the next request
      does not present as a session cookie: every such client lands on the
      same id "" and is re-initialised there on each request. */
  lemma FailedDrawUsesEmptyId(m: Manager, store: P.Store, unescape: string -> string)
    ensures var first := SessionStart(m, store, None, ReadFailed, UrlEscape.QueryEscape, unescape);
      && first.calls == [CallInit("")]
      && first.session.id == ""
      && first.written[0].value == ""
      && !HasSessionCookie(Some(first.written[0].value))
  {
  }
}
