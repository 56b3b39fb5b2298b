/** The provider registry (`provides` and `Register` in session/session_manager.go):
    a process-wide map from backend name to provider, written at most once per
    name and never shrunk. Providers are identified by an opaque id; the Go nil
    interface value is `NilProvider`. */
module Registry {
  import opened Wrappers

  type ProviderId = nat

  /** A provider argument as Go sees it: nil, or a provider value. */
  datatype ProviderRef = NilProvider | SomeProvider(id: ProviderId)

  /** The registered providers by name (`provides`). */
  type Bindings = map<string, ProviderId>

  /** The two panics `Register` can raise. */
  datatype RegisterPanic = NilRegistered | RegisteredTwice(name: string)

  /** The part every panic text of `Register` starts with. */
  const PanicPrefix: string := "session: Register "

  /** The text the panic carries: both start with the package's
      `session: Register ` prefix, and the duplicate-name panic ends with the
      name that was registered twice. */
  function PanicMessage(p: RegisterPanic): (m: string)
    ensures |PanicPrefix| <= |m| && m[..|PanicPrefix|] == PanicPrefix
    ensures p.RegisteredTwice? ==> |p.name| <= |m| && m[|m| - |p.name|..] == p.name
  {
    match p
    case NilRegistered => PanicPrefix + "provider is nil"
    case RegisteredTwice(name) => PanicPrefix + "called twice for provider " + name
  }

  /** The panic text identifies the panic: two panics carry the same text
      exactly when they are the same panic, including the name. */
  lemma PanicMessageInjective(p: RegisterPanic, q: RegisterPanic)
    ensures PanicMessage(p) == PanicMessage(q) <==> p == q
  {
    var head := PanicPrefix + "called twice for provider ";
    if PanicMessage(p) == PanicMessage(q) && p.RegisteredTwice? && q.RegisteredTwice? {
      assert p.name == PanicMessage(p)[|head|..];
      assert q.name == PanicMessage(q)[|head|..];
    }
  }

  /** The registry after a `Register` call, and the panic it raised, if any. */
  datatype RegisterOutcome = RegisterOutcome(registry: Bindings, panic: Option<RegisterPanic>)

  /** Registration is write-once: a nil provider or a name already present
      panics and leaves the registry as it was; otherwise the name is bound to
      the provider and every other binding is kept. The nil check comes first. */
  function Register(reg: Bindings, name: string, p: ProviderRef): (r: RegisterOutcome)
    ensures r.panic.Some? <==> p.NilProvider? || name in reg
    ensures p.NilProvider? ==> r.panic == Some(NilRegistered)
    ensures p.SomeProvider? && name in reg ==> r.panic == Some(RegisteredTwice(name))
    ensures r.panic.Some? ==> r.registry == reg
    ensures r.panic.None? ==>
      && r.registry.Keys == reg.Keys + {name}
      && r.registry[name] == p.id
      && (forall n :: n in reg ==> r.registry[n] == reg[n])
  {
    if p.NilProvider? then RegisterOutcome(reg, Some(NilRegistered))
    else if name in reg then RegisterOutcome(reg, Some(RegisteredTwice(name)))
    else RegisterOutcome(reg[name := p.id], None)
  }

  /** No call to `Register` ever rebinds or removes a name that is already bound. */
  lemma RegisterKeepsBindings(reg: Bindings, name: string, p: ProviderRef, n: string)
    requires n in reg
    ensures n in Register(reg, name, p).registry
    ensures Register(reg, name, p).registry[n] == reg[n]
  {
  }

  /** Once a name has been registered, registering it again always panics,
      whatever provider is offered, and the first binding stays. A non-nil
      provider gets the duplicate-name panic, whose text ends with the name. */
  lemma RegisterWriteOnce(reg: Bindings, name: string, p: ProviderRef, q: ProviderRef)
    requires Register(reg, name, p).panic.None?
    ensures var second := Register(Register(reg, name, p).registry, name, q);
      && second.panic.Some?
      && second.registry[name] == p.id
      && (q.SomeProvider? ==> var m := PanicMessage(second.panic.value);
            |name| <= |m| && m[|m| - |name|..] == name)
  {
  }
}
