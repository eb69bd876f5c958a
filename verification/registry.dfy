/**
 The process-wide broadcast registry: a map from storage key to the one
 handler registered for it, plus the one-shot flag recording that the
 single platform `storage` listener has been attached. Both source files
 keep their own copy of this structure with the same register, unregister
 and attach-once operations; they differ only in what dispatch does with
 a key nobody registered, which each file's module decides from `Route`.
 */
module Registry {
  import opened Platform

  /**
   `listeners` is the key-to-handler map; `enabled` is the attach-once
   flag; `attached` counts how many platform listeners were actually added
   to `window`, so that "exactly once" can be stated.
   */
  datatype Registry<H> = Registry(listeners: map<Key, H>, enabled: bool, attached: nat)

  /** The flag is faithful: one platform listener once enabled, none before. */
  predicate Valid<H>(r: Registry<H>) {
    r.attached == if r.enabled then 1 else 0
  }

  /** The registry at module load: an empty map and a cleared flag. */
  function Empty<H>(): (r: Registry<H>)
    ensures Valid(r) && !r.enabled
    ensures forall k :: k !in r.listeners
  {
    Registry(map[], false, 0)
  }

  /** `map.set(key, handler)`: overwrites whatever handler held the slot. */
  function Register<H>(r: Registry<H>, k: Key, h: H): (r': Registry<H>)
    ensures k in r'.listeners && r'.listeners[k] == h
    ensures forall k' :: k' != k ==> (k' in r'.listeners <==> k' in r.listeners)
    ensures forall k' :: k' != k && k' in r.listeners ==> r'.listeners[k'] == r.listeners[k']
    ensures r'.enabled == r.enabled && r'.attached == r.attached
  {
    r.(listeners := r.listeners[k := h])
  }

  /** `map.delete(key)`: removes the slot whichever handler is in it; absent keys are fine. */
  function Unregister<H>(r: Registry<H>, k: Key): (r': Registry<H>)
    ensures k !in r'.listeners
    ensures forall k' :: k' != k ==> (k' in r'.listeners <==> k' in r.listeners)
    ensures forall k' :: k' != k && k' in r.listeners ==> r'.listeners[k'] == r.listeners[k']
    ensures r'.enabled == r.enabled && r'.attached == r.attached
  {
    r.(listeners := r.listeners - {k})
  }

  /**
   `ensureRootListener`: attach the platform listener only when the flag is
   clear and a window exists, then set the flag. The flag never goes back.
   */
  function EnsureListener<H>(r: Registry<H>, hasWindow: bool): (r': Registry<H>)
    ensures r'.listeners == r.listeners
    ensures r'.enabled <==> r.enabled || hasWindow
    ensures r.enabled ==> r' == r
    ensures Valid(r) ==> Valid(r')
  {
    if !r.enabled && hasWindow then
      r.(enabled := true, attached := r.attached + 1)
    else
      r
  }

  /** Where a platform event goes: nowhere (falsy key), to no handler (unknown key), or to one handler. */
  datatype Route<H> = Ignored | Unknown(key: Key) | Found(handler: H, raw: Option<string>)

  /** The shared front half of both `onStorageChange` functions: the falsy-key guard and the lookup. */
  function RouteEvent<H>(r: Registry<H>, e: StorageEvent): (rt: Route<H>)
    ensures rt.Ignored? <==> !Truthy(e.key)
    ensures rt.Unknown? <==> Truthy(e.key) && e.key.value !in r.listeners
    ensures rt.Unknown? ==> rt.key == e.key.value
    ensures rt.Found? ==> Truthy(e.key) && e.key.value in r.listeners
                          && rt.handler == r.listeners[e.key.value] && rt.raw == e.newValue
  {
    if !Truthy(e.key) then Ignored
    else if e.key.value !in r.listeners then Unknown(e.key.value)
    else Found(r.listeners[e.key.value], e.newValue)
  }

  /** Attaching twice is attaching once. */
  lemma EnsureListenerIdempotent<H>(r: Registry<H>, hasWindow: bool)
    ensures EnsureListener(EnsureListener(r, hasWindow), hasWindow) == EnsureListener(r, hasWindow)
    ensures EnsureListener(r, hasWindow).attached <= r.attached + 1
  {
  }

  /** Last writer wins: a second registration for a key replaces the first entirely. */
  lemma RegisterOverwrites<H>(r: Registry<H>, k: Key, h1: H, h2: H)
    ensures Register(Register(r, k, h1), k, h2) == Register(r, k, h2)
  {
  }

  /** Unregistering is idempotent, and undoes a registration for the same key whichever handler it held. */
  lemma UnregisterIdempotent<H>(r: Registry<H>, k: Key, h: H)
    ensures Unregister(Unregister(r, k), k) == Unregister(r, k)
    ensures Unregister(Register(r, k, h), k) == Unregister(r, k)
  {
    assert Unregister(Register(r, k, h), k).listeners == Unregister(r, k).listeners;
  }
}
