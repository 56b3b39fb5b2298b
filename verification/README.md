# Session lifecycle manager, modelled in Dafny

This project models the session manager of the Go package `session`. The manager binds a server-side session to a client through an opaque id carried in a cookie. It covers:

- the **provider registry**: a process-wide, write-once map from backend name to provider;
- **`NewManager`**: picks a registered provider by name, with a cookie name and a lifetime;
- **`SessionStart`**: with no session cookie, it mints an id, creates a session and writes a cookie. With one, it resumes the session the cookie names;
- **`SessionDestroy`**: removes the session and writes an expired cookie;
- **one `GC` step**: a sweep request passed to the provider with the manager's lifetime;
- the **id generator**: 32 random bytes in padded URL-safe base 64, as in section 5 of RFC 4648;
- the **`Provider` interface**: the behaviour its comments promise. Most importantly, reading an unknown id creates the session.

Each manager operation is a pure transition. It takes the provider's store (`map<string, SessionData>`) and the value of the request's session cookie (`Option<string>`). It returns the new store, the provider calls it made, and the cookies it wrote to the response. The environment is passed in as data or parameters:

- The random source is a `RandomRead` input: `ReadFailed`, or the 32 bytes read.
- `url.QueryEscape` and `url.QueryUnescape` are function parameters. Nothing is assumed about them, except in the lemmas that state their assumption.
- The backend's clock-based expiry test is a parameter of the sweep.

Modules:

| file | module | contents |
|---|---|---|
| wrappers.dfy | `Wrappers` | `Option`, `Result` |
| go_types.dfy | `GoTypes` | Go `byte` and `int64` as bounded integers |
| base64.dfy | `Base64` | padded URL-safe encoding, a reference decoder, the round trip |
| token.dfy | `Token` | `sessionId` |
| registry.dfy | `Registry` | `Register`, with its panics as data |
| provider.dfy | `Provider` | reference semantics of the `Provider` interface |
| url_escape.dfy | `UrlEscape` | a model of Go's `url.QueryEscape`, used for the finding below |
| session_manager.dfy | `SessionManager` | `NewManager`, `SessionStart`, `SessionDestroy`, `GC` |
| lifecycle.dfy | `Lifecycle` | properties that relate several operations |

The model follows the code as written, including where it departs from what a hardened design would do:

- When the random source fails, the code returns the empty id, and `SessionStart` goes on to create session `""` and write a cookie. It does not fail. `Lifecycle.FailedDrawUsesEmptyId` states what follows from that.
- The interface comment for `SessionInit` does not say what happens when the id already exists. The reference provider replaces the session stored under it; it does not fail.
- `SessionDestroy` passes the raw cookie value to the provider without unescaping it (see Findings).

## Model

| member | source | states |
|---|---|---|
| `Base64.EncodeSextet` | session/session_manager.go:88 | Each 6-bit value maps to a character of the URL-safe alphabet `A-Z a-z 0-9 - _`. |
| `Base64.EncodeSextetFollowsTable` | session/session_manager.go:88 | The character for value i is entry i of the URL-safe alphabet of Table 2 in section 5 of RFC 4648, `A`–`Z`, `a`–`z`, `0`–`9`, `-`, `_` (64 entries, listed independently of the encoder). |
| `Base64.DecodeSextet` | session/session_manager.go:88 | Every alphabet character is the encoding of the 6-bit value it decodes to, so the alphabet table is a bijection. |
| `Base64.Encode` | session/session_manager.go:88 | n input bytes give 4·⌈n/3⌉ characters. |
| `Base64.EncodePadding` | session/session_manager.go:88 | The encoding is alphabet characters followed by exactly as many `=` as the input length calls for (0, 1 or 2). `=` appears nowhere else. |
| `Base64.DecodeEncode` | session/session_manager.go:88 | The encoding is lossless: an independent decoder recovers every byte string from it. |
| `Base64.Decode` | session/session_manager.go:88 | An independent, strict reference decoder for padded URL-safe base 64 (RFC 4648), against which the encoding is checked: it accepts only strings whose length is a multiple of four, and `DecodeEncode` and `EncodeDecode` show it is exactly the inverse of `Encode`. |
| `Base64.DecodeQuad` | session/session_manager.go:88 | An accepted group of four characters gives one, two or three bytes. When it gives three, all four characters are from the alphabet. The decoder is strict, as section 3.5 of RFC 4648 allows: the `QuadRoundTrip` lemmas show it accepts only canonical groups, so a final group whose unused bits are not zero is rejected. |
| `Base64.QuadRoundTrip3` | session/session_manager.go:88 | A full group the decoder accepts is exactly the encoding of the three bytes it decodes to. |
| `Base64.QuadRoundTrip2` | session/session_manager.go:88 | A final group with one `=` that the decoder accepts is exactly the encoding of its two bytes. |
| `Base64.QuadRoundTrip1` | session/session_manager.go:88 | A final group with two `=` that the decoder accepts is exactly the encoding of its one byte. |
| `Base64.EncodeDecode` | session/session_manager.go:88 | Every string the decoder accepts is the encoding of what it decodes to. With `DecodeEncode`, encoding and strict decoding are inverse bijections, so each byte string has exactly one accepted encoding. |
| `Base64.EncodeInjective` | session/session_manager.go:88 | Two byte strings have the same encoding exactly when they are equal. |
| `Token.SessionId` | session/session_manager.go:83-89 | A failed read gives `""`. Otherwise the id is 44 characters: 43 from the URL-safe alphabet and a final `=`. The 32 bytes drawn can be decoded back from it. By `Token.SessionIdCanonical`, it is the only string that decodes to them. |
| `Token.DrawnIdShape` | session/session_manager.go:84-88 | The encoding of a 32-byte buffer is 44 characters: 43 from the alphabet and a final `=`. |
| `Token.SessionIdCanonical` | session/session_manager.go:83-89 | For a successful draw, a string decodes to the drawn bytes exactly when it is the id. The id is the one canonical encoding of the draw. |
| `Token.SessionIdInjective` | session/session_manager.go:83-89 | Two successful draws give the same id exactly when they drew the same bytes, so distinct randomness never collides. |
| `Registry.Register` | session/session_manager.go:28-36 | Panics exactly when the provider is nil or the name is already bound. The nil check comes first. A panic leaves the registry unchanged. Success binds the name to the provider and keeps every other binding. |
| `Registry.PanicMessage` | session/session_manager.go:29-34 | Both panic texts start with `session: Register `. The duplicate-name text ends with the name registered twice. |
| `Registry.PanicMessageInjective` | session/session_manager.go:29-34 | Two panics carry the same text exactly when they are the same panic, down to the duplicated name. |
| `Registry.RegisterKeepsBindings` | session/session_manager.go:28-35 | No call, successful or not, rebinds or removes a name that is already registered. |
| `Registry.RegisterWriteOnce` | session/session_manager.go:32-35 | After a successful registration, registering the same name again panics for any provider, and the first binding stays. For a non-nil provider, the panic text ends with the name. |
| `SessionManager.NewManager` | session/session_manager.go:61-67 | Fails with an unknown-provider error exactly when the name is not registered. On success, the manager holds the registered provider and the given cookie name and lifetime. |
| `SessionManager.SessionStart` | session/session_manager.go:91-105 | With no cookie or an empty one: exactly one `SessionInit` call, with the minted id, and exactly one cookie written (the manager's name, the escaped id, path `/`, HttpOnly, max-age = lifetime). The result is a new empty session stored under that id. With a cookie: exactly one `SessionRead` call, with the unescaped value, and no cookie written. That id is present afterwards, the store is unchanged if it was already there, and the session returned is the stored one. In both cases no other id changes and store well-formedness is preserved. |
| `SessionManager.SessionDestroy` | session/session_manager.go:39-51 | As written. With no cookie or an empty one: store unchanged, no call, no cookie. Otherwise: one `SessionDestroy` call with the raw cookie value. The entry under that raw value, and no other, is gone. One cookie is written: the manager's name, empty value, path `/`, HttpOnly, max-age -1, expires now. |
| `SessionManager.SessionDestroyUnescaped` | session/session_manager.go:39-51 | Corrected destroy: the same, except that the id destroyed is the unescaped cookie value, as `SessionStart` reads it. |
| `SessionManager.GC` | session/session_manager.go:18-23 | One step makes exactly one sweep call, with the manager's lifetime. Afterwards the store keeps exactly the sessions the backend does not judge expired, unchanged. |
| `Provider.SessionInit` | session/session_manager.go:70 | Stores and returns a new empty session under the id. No other id is touched. |
| `Provider.SessionRead` | session/session_manager.go:71 | The id is present afterwards and the stored session is returned. A live session is returned without changing the store. An absent id is created exactly as `SessionInit` would ("read creates"). |
| `Provider.SessionDestroy` | session/session_manager.go:72 | The id is absent afterwards and every other id is unchanged. |
| `Provider.SessionGC` | session/session_manager.go:73 | Keeps exactly the sessions not judged older than the lifetime, unchanged. It never adds one. |
| `Provider.DestroyIdempotent` | session/session_manager.go:72 | Destroying an id twice is the same as destroying it once. |
| `Provider.ReadIdempotent` | session/session_manager.go:71 | A second read of the same id returns the same session and leaves the store as the first read left it. |
| `Provider.GCIdempotent` | session/session_manager.go:73 | A second sweep with the same lifetime and the same expiry judgement (the same instant of the backend's clock) removes nothing more. |
| `Provider.ReadAfterGCStartsOver` | session/session_manager.go:71-73 | After an expired session is swept, reading its id yields a new empty session under that id: the old values are gone. |
| `UrlEscape.QueryEscape` | session/session_manager.go:98 | Escaping never shortens a string, and leaves a string of unreserved characters unchanged. |
| `UrlEscape.EscapedPadEndsInPercent3D` | session/session_manager.go:98 | A string ending in `=` escapes to one ending in `%3D`. |
| `Lifecycle.RegisterThenNewManager` | session/session_manager.go:61-67 | A manager built by name after that name registered successfully holds exactly the provider registered. |
| `Lifecycle.MintedCookieIsSessionCookie` | session/session_manager.go:95-99 | For an escaping that never shortens a string: after a successful draw, the cookie written for a new session is non-empty, so sending it back counts as presenting a session cookie. |
| `Lifecycle.StartThenResume` | session/session_manager.go:91-105 | When unescaping undoes escaping and escaping never shortens a string, sending back the cookie of a new session resumes that session. Nothing is written, the only call is a read of the minted id, and the store and the returned session are unchanged. |
| `Lifecycle.DestroyTwice` | session/session_manager.go:39-51 | Destroying twice with the same cookie leaves the store as the first destroy did. Both calls write the same cookie: the expired one whenever a session cookie was present. |
| `Lifecycle.StartThenDestroyKeepsSession` | session/session_manager.go:39-51 | As written, with `url.QueryEscape`: destroying with the cookie `SessionStart` handed out writes the expired cookie but leaves the new session in the store, unchanged. |
| `Lifecycle.StartThenDestroyRemovesSession` | session/session_manager.go:39-51 | With the corrected destroy, and an escaping that unescaping undoes and that never shortens a string: start then destroy leaves exactly the original store minus the minted id. |
| `Lifecycle.GCThenResumeStartsOver` | session/session_manager.go:18-23 | Take a non-empty id the `GC` step judges expired, and an escaping that unescaping undoes and that never shortens a string. After the step, that id is gone from the store. Presenting its cookie again makes exactly one read of the id and writes nothing. It returns a new empty session under the same id, so the old values are gone. |
| `Lifecycle.FailedDrawUsesEmptyId` | session/session_manager.go:83-99 | When the random read fails, `SessionStart` creates session `""` and writes a cookie with an empty value. A request that sends that value back is not presenting a session cookie. |

## Left out

- Locking (`sync.Mutex` in `Manager`, held by `SessionStart`, `SessionDestroy` and `GC`): each operation is one atomic transition. Concurrency is not modelled.
- The self-rescheduling `time.AfterFunc` in `GC`: only one sweep step is modelled. The timer's duration is not modelled either; it passes the lifetime as a raw `time.Duration`, i.e. nanoseconds.
- The `Expires` time of the destroy cookie (`time.Now()`): recorded only as `ExpiresNow`.
- `crypto/rand`: replaced by the `RandomRead` input. That `rand.Read` fills the whole buffer on success is the `ValidRead` precondition.
- `url.QueryEscape`, `url.QueryUnescape`, `r.Cookie` and `http.SetCookie`: escaping is a parameter, and the request is the looked-up cookie value. The response is the list of cookies written. How a cookie is serialised into a header (for instance max-age -1 written as `Max-Age=0`) is not modelled. `UrlEscape.QueryEscape` models Go's escaping only so the finding can be stated.
- The error of `url.QueryUnescape` is discarded, as in the source. What the unescaping parameter returns for malformed input is up to that parameter.
- The error of the provider's `SessionDestroy` (session/session_manager.go:46) is discarded by the source. `Provider.SessionDestroy` reports none, so a failed destroy that still writes the expired cookie is not modelled.
- Errors from the provider's `SessionInit` and `SessionRead` are discarded by the source. The reference provider never reports one, so the nil session Go would then return is not modelled.
- `Provider.SessionRead`: a backend may record an access time when it reads a session; such bookkeeping is not modelled. So "the store is unchanged" in `Provider.SessionRead`, `Provider.ReadIdempotent` and `Lifecycle.StartThenResume` holds for the model's store, not for a backend's access times.
- `Provider.GCIdempotent`: a second sweep removes nothing more only under the same expiry judgement. With a clock-based backend, a later sweep may judge more sessions expired, so the lemma speaks about one instant of the clock.
- `Provider.SessionGC`: which sessions count as expired depends on the backend's clock and access times. That judgement is a parameter, so the contract says what is kept given the judgement, not how the judgement is made.
- The text of `NewManager`'s error (`fmt.Errorf` with `%q` quoting): the error carries the provider name instead.
- `int(manager.maxLifeTime)` for the cookie's max-age: taken as value-preserving, i.e. a 64-bit Go `int`.
- The `Session` interface (`Set`, `Get`, `Delete`, `SessionID`): no implementation exists. A session's values are an opaque map, and `SessionID` is the stored id.
- The package `init`, which builds a global manager for an unregistered `"memory"` provider: there is no such backend.
- sockets/tcp_sockets.go: a command-line TCP client that shares nothing with the session package.

## Findings

| source | as written | input that shows it | evidently intended | confidence | as-written member | corrected member |
|---|---|---|---|---|---|---|
| session/session_manager.go:46 | `SessionDestroy` destroys the raw cookie value. `SessionStart` stores the new session under the unescaped id and escapes the id into the cookie. Every id minted from a successful draw ends in `=`, which `url.QueryEscape` writes as `%3D`, so the destroy removes an id that was never stored. The client is told to drop its cookie while the session stays until a sweep. | Any successful draw. For 32 zero bytes: id `AAAAAAAAAAAAAAAAAAAAAAAAAAAAAAAAAAAAAAAAAAA=`, cookie `AAAAAAAAAAAAAAAAAAAAAAAAAAAAAAAAAAAAAAAAAAA%3D`. | Destroy the session stored under the unescaped cookie value, as `SessionStart` reads it. | medium (not executed; relies on Go's documented escaping of `=`) | `Lifecycle.StartThenDestroyKeepsSession` | `SessionManager.SessionDestroyUnescaped` |
