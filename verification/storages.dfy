/**
 The storage adapter of `src/lib/storages.ts`: the no-op fallback, the
 Web Storage adapter built by `createStorage`, its `set`, its two event
 sources (`event.root` through the process-wide registry, `event.component`
 as a per-subscriber key filter), and this file's registry dispatch, which
 silently ignores keys nobody registered.
 */
module Storages {
  import opened Platform
  import Registry

  /** `Partial<BrowserStorageOptions<T>>`: `None` is an option left undefined. */
  datatype StorageOptions<!T> = StorageOptions(
    serialize: Option<T -> string>,
    deserialize: Option<Option<string> -> T>,
    initialize: Option<T -> T>)

  /** The `{}` that `createLocalStorage` and `createSessionStorage` pass. */
  function NoOptions<T>(): StorageOptions<T> {
    StorageOptions(None, None, None)
  }

  /** The options after their defaults are filled in. */
  datatype Codec<!T> = Codec(serialize: T -> string, deserialize: Option<string> -> T, initialize: T -> T)

  /** The default `deserialize`: parse a truthy string, otherwise fall back to the default value. */
  function DefaultDeserialize<T>(json: Json<T>, defaultValue: T): (d: Option<string> -> T)
    ensures forall v :: !Truthy(v) ==> d(v) == defaultValue
    ensures forall v :: Truthy(v) ==> d(v) == json.parse(v.value)
  {
    v => if Truthy(v) then json.parse(v.value) else defaultValue
  }

  /** Fill each undefined option with its default: JSON encoding, default-falling JSON decoding, identity. */
  function ResolveOptions<T>(o: StorageOptions<T>, json: Json<T>, defaultValue: T): (c: Codec<T>)
    ensures o.serialize.Some? ==> c.serialize == o.serialize.value
    ensures o.serialize.None? ==> c.serialize == json.stringify
    ensures o.deserialize.Some? ==> c.deserialize == o.deserialize.value
    ensures o.deserialize.None? ==>
              forall v :: c.deserialize(v) == if Truthy(v) then json.parse(v.value) else defaultValue
    ensures o.initialize.Some? ==> c.initialize == o.initialize.value
    ensures o.initialize.None? ==> c.initialize == Identity<T>
  {
    Codec(
      if o.serialize.Some? then o.serialize.value else json.stringify,
      if o.deserialize.Some? then o.deserialize.value else DefaultDeserialize(json, defaultValue),
      if o.initialize.Some? then o.initialize.value else Identity<T>)
  }

  /** What an adapter is backed by: nothing (the no-op adapter), or one key of one storage area. */
  datatype Backing<!T> = Detached | Backed(medium: Medium, key: Key, codec: Codec<T>)

  /**
   `PersistStorage<T>`. The adapter holds no mutable state of its own: its
   `set` and its event sources act on the environment and the registry,
   which are passed to them.
   */
  datatype Adapter<!T> = Adapter(defaultValue: T, initialValue: T, backing: Backing<T>) {
    /** Whether the adapter has an `event` field at all. */
    predicate HasEvents() {
      backing.Backed?
    }
  }

  /** `noop(defaultValue)`: starts at the default, has no event source. */
  function Noop<T>(defaultValue: T): (a: Adapter<T>)
    ensures a.defaultValue == defaultValue && a.initialValue == defaultValue
    ensures !a.HasEvents()
  {
    Adapter(defaultValue, defaultValue, Detached)
  }

  /**
   `createStorage`: the no-op adapter when there is no window; otherwise an
   adapter on `key` of area `medium` whose initial value is
   `initialize(deserialize(getItem(key)))`, read once at creation.
   */
  function CreateStorage<T>(env: Env, medium: Medium, key: Key, defaultValue: T,
                            o: StorageOptions<T>, json: Json<T>): (a: Adapter<T>)
    ensures !env.hasWindow ==> a == Noop(defaultValue)
    ensures env.hasWindow ==> a.HasEvents() && a.backing.medium == medium && a.backing.key == key
    ensures env.hasWindow ==> a.backing.codec == ResolveOptions(o, json, defaultValue)
    ensures env.hasWindow ==>
              a.initialValue == a.backing.codec.initialize(a.backing.codec.deserialize(GetItem(Area(env, medium), key)))
    ensures a.defaultValue == defaultValue
  {
    if !env.hasWindow then
      Noop(defaultValue)
    else
      var c := ResolveOptions(o, json, defaultValue);
      Adapter(defaultValue, c.initialize(c.deserialize(GetItem(Area(env, medium), key))), Backed(medium, key, c))
  }

  /** `createLocalStorage(key, defaultValue)`: every option at its default. */
  function CreateLocalStorage<T>(env: Env, key: Key, defaultValue: T, json: Json<T>): (a: Adapter<T>)
    ensures env.hasWindow ==> a.HasEvents() && a.backing.medium == LocalStorage && a.backing.key == key
    ensures env.hasWindow ==> a.backing.codec == ResolveOptions(NoOptions(), json, defaultValue)
    ensures env.hasWindow ==>
              a.initialValue ==
                a.backing.codec.initialize(a.backing.codec.deserialize(GetItem(Area(env, LocalStorage), key)))
    ensures a.defaultValue == defaultValue
    ensures !env.hasWindow ==> a == Noop(defaultValue)
  {
    CreateStorage(env, LocalStorage, key, defaultValue, NoOptions(), json)
  }

  /** `createSessionStorage(key, defaultValue)`: every option at its default. */
  function CreateSessionStorage<T>(env: Env, key: Key, defaultValue: T, json: Json<T>): (a: Adapter<T>)
    ensures env.hasWindow ==> a.HasEvents() && a.backing.medium == SessionStorage && a.backing.key == key
    ensures env.hasWindow ==> a.backing.codec == ResolveOptions(NoOptions(), json, defaultValue)
    ensures env.hasWindow ==>
              a.initialValue ==
                a.backing.codec.initialize(a.backing.codec.deserialize(GetItem(Area(env, SessionStorage), key)))
    ensures a.defaultValue == defaultValue
    ensures !env.hasWindow ==> a == Noop(defaultValue)
  {
    CreateStorage(env, SessionStorage, key, defaultValue, NoOptions(), json)
  }

  /**
   `set(value)`: the no-op adapter changes nothing; a backed adapter writes
   `serialize(value)` under its own key and nowhere else.
   */
  function Set<T>(a: Adapter<T>, env: Env, value: T): (env': Env)
    ensures !a.HasEvents() ==> env' == env
    ensures env'.hasWindow == env.hasWindow
    ensures a.HasEvents() ==>
              GetItem(Area(env', a.backing.medium), a.backing.key) == Some(a.backing.codec.serialize(value))
    ensures a.HasEvents() ==> forall m, k :: (m, k) != (a.backing.medium, a.backing.key) ==>
                                GetItem(Area(env', m), k) == GetItem(Area(env, m), k)
  {
    match a.backing
    case Detached => env
    case Backed(medium, key, codec) => WriteItem(env, medium, key, codec.serialize(value))
  }

  /** The handler `event.root` puts in the registry: the subscriber, and the adapter's `deserialize` it applies. */
  datatype RootHandler<!T> = RootHandler(listener: nat, deserialize: Option<string> -> T)

  type Roots<!T> = Registry.Registry<RootHandler<T>>

  /** A call of a subscriber's `listener` with a decoded value. */
  datatype Delivery<T> = Delivery(listener: nat, value: T)

  /**
   `event.root(listener)`: attach the platform listener once, then take over
   the registry slot of the adapter's key. `None` when the adapter has no
   event source. An adapter with an event source only exists when a window
   does, so the window check of `ensureRootListener` always passes here.
   */
  function SubscribeRoot<T>(a: Adapter<T>, reg: Roots<T>, listener: nat): (r: Option<Roots<T>>)
    ensures r.None? <==> !a.HasEvents()
    ensures r.Some? ==> a.backing.key in r.value.listeners
                        && r.value.listeners[a.backing.key] == RootHandler(listener, a.backing.codec.deserialize)
    ensures r.Some? ==> forall k :: k != a.backing.key ==>
                          (k in r.value.listeners <==> k in reg.listeners)
                          && (k in reg.listeners ==> r.value.listeners[k] == reg.listeners[k])
    ensures r.Some? ==> r.value.enabled
    ensures r.Some? && Registry.Valid(reg) ==> Registry.Valid(r.value)
  {
    if !a.HasEvents() then None
    else
      var attached := Registry.EnsureListener(reg, true);
      Some(Registry.Register(attached, a.backing.key, RootHandler(listener, a.backing.codec.deserialize)))
  }

  /** The unsubscribe function `event.root` returns: delete the key's slot, whoever holds it now. */
  function UnsubscribeRoot<T>(a: Adapter<T>, reg: Roots<T>): (r: Roots<T>)
    requires a.HasEvents()
    ensures a.backing.key !in r.listeners
    ensures forall k :: k != a.backing.key ==>
              (k in r.listeners <==> k in reg.listeners)
              && (k in reg.listeners ==> r.listeners[k] == reg.listeners[k])
    ensures r.enabled == reg.enabled && r.attached == reg.attached
  {
    Registry.Unregister(reg, a.backing.key)
  }

  /**
   This file's `onStorageChange`, once attached: a falsy key or a key with
   no handler is ignored; otherwise exactly the registered handler's
   listener is called with its `deserialize` of the new value. Before the
   platform listener is attached no event arrives at all.
   */
  function Dispatch<T>(reg: Roots<T>, e: StorageEvent): (d: Option<Delivery<T>>)
    ensures d.Some? <==> reg.enabled && Truthy(e.key) && e.key.value in reg.listeners
    ensures d.Some? ==> var h := reg.listeners[e.key.value];
                        d.value == Delivery(h.listener, h.deserialize(e.newValue))
  {
    if !reg.enabled then None
    else
      match Registry.RouteEvent(reg, e)
      case Ignored => None
      case Unknown(_) => None
      case Found(h, raw) => Some(Delivery(h.listener, h.deserialize(raw)))
  }

  /**
   The per-subscriber listener of `event.component`: it reacts to an event
   exactly when the event's key is the adapter's key, and hands on
   `deserialize(newValue)` (so a removal yields whatever `deserialize(null)` is).
   */
  function ComponentEvent<T>(a: Adapter<T>, e: StorageEvent): (r: Option<T>)
    ensures r.Some? <==> a.HasEvents() && e.key == Some(a.backing.key)
    ensures r.Some? ==> r.value == a.backing.codec.deserialize(e.newValue)
  {
    if a.HasEvents() && e.key == Some(a.backing.key) then
      Some(a.backing.codec.deserialize(e.newValue))
    else
      None
  }

  /** One `event.root` subscription per adapter, in order, the i-th subscriber being `next + i`. */
  function SubscribeEach<T>(adapters: seq<Adapter<T>>, reg: Roots<T>, next: nat): Roots<T>
    decreases |adapters|
  {
    if |adapters| == 0 then reg
    else
      var reg' := match SubscribeRoot(adapters[0], reg, next)
                  case None => reg
                  case Some(r) => r;
      SubscribeEach(adapters[1..], reg', next + 1)
  }

  // ---------------------------------------------------------------------------
  // Properties
  // ---------------------------------------------------------------------------

  /** The no-op adapter starts and stays at the default: `set` writes nothing and no event reaches it. */
  lemma NoopIsInert<T>(defaultValue: T, env: Env, value: T, reg: Roots<T>, listener: nat, e: StorageEvent)
    ensures Noop(defaultValue).initialValue == defaultValue
    ensures Set(Noop(defaultValue), env, value) == env
    ensures SubscribeRoot(Noop(defaultValue), reg, listener).None?
    ensures ComponentEvent(Noop(defaultValue), e).None?
  {
  }

  /** On an empty store the default `deserialize` yields the default value, passed through `initialize`. */
  lemma InitialValueOnEmptyStore<T>(env: Env, medium: Medium, key: Key, defaultValue: T,
                                    o: StorageOptions<T>, json: Json<T>)
    requires env.hasWindow && key !in Area(env, medium)
    requires o.deserialize.None?
    ensures CreateStorage(env, medium, key, defaultValue, o, json).initialValue
            == ResolveOptions(o, json, defaultValue).initialize(defaultValue)
    ensures o.initialize.None? ==> CreateStorage(env, medium, key, defaultValue, o, json).initialValue == defaultValue
  {
  }

  /** An empty string in the store counts as absent for the default `deserialize`. */
  lemma InitialValueOnEmptyString<T>(env: Env, key: Key, defaultValue: T, json: Json<T>)
    requires env.hasWindow && key in env.local && env.local[key] == ""
    ensures CreateLocalStorage(env, key, defaultValue, json).initialValue == defaultValue
  {
  }

  /** A non-empty stored string is parsed into the initial value. */
  lemma InitialValueFromStore<T>(env: Env, key: Key, defaultValue: T, json: Json<T>, s: string)
    requires env.hasWindow && key in env.local && env.local[key] == s && s != ""
    ensures CreateLocalStorage(env, key, defaultValue, json).initialValue == json.parse(s)
  {
  }

  /**
   Round trip: after `set(v)`, a fresh adapter on the same key and options
   starts at `v`, provided `deserialize` undoes `serialize` on `v` and
   `initialize` is the identity.
   */
  lemma SetThenCreateRoundTrip<T>(env: Env, medium: Medium, key: Key, defaultValue: T,
                                  o: StorageOptions<T>, json: Json<T>, v: T)
    requires env.hasWindow && o.initialize.None?
    requires var c := ResolveOptions(o, json, defaultValue); c.deserialize(Some(c.serialize(v))) == v
    ensures var a := CreateStorage(env, medium, key, defaultValue, o, json);
            CreateStorage(Set(a, env, v), medium, key, defaultValue, o, json).initialValue == v
  {
    var a := CreateStorage(env, medium, key, defaultValue, o, json);
    var env' := Set(a, env, v);
    assert GetItem(Area(env', medium), key) == Some(a.backing.codec.serialize(v));
  }

  /** The same round trip for `createLocalStorage`, whose codec is JSON with the default fallback. */
  lemma LocalStorageRoundTrip<T>(env: Env, key: Key, defaultValue: T, json: Json<T>, v: T)
    requires env.hasWindow
    requires json.stringify(v) != "" && json.parse(json.stringify(v)) == v
    ensures var a := CreateLocalStorage(env, key, defaultValue, json);
            CreateLocalStorage(Set(a, env, v), key, defaultValue, json).initialValue == v
  {
    SetThenCreateRoundTrip(env, LocalStorage, key, defaultValue, NoOptions(), json, v);
  }

  /** The same round trip for `createSessionStorage`, on the session area. */
  lemma SessionStorageRoundTrip<T>(env: Env, key: Key, defaultValue: T, json: Json<T>, v: T)
    requires env.hasWindow
    requires json.stringify(v) != "" && json.parse(json.stringify(v)) == v
    ensures var a := CreateSessionStorage(env, key, defaultValue, json);
            CreateSessionStorage(Set(a, env, v), key, defaultValue, json).initialValue == v
  {
    SetThenCreateRoundTrip(env, SessionStorage, key, defaultValue, NoOptions(), json, v);
  }

  /** A subscribed listener receives exactly the events for its key, decoded by its adapter. */
  lemma SubscribeThenDispatch<T>(a: Adapter<T>, reg: Roots<T>, listener: nat, raw: Option<string>)
    requires a.HasEvents() && a.backing.key != ""
    ensures var r := SubscribeRoot(a, reg, listener).value;
            Dispatch(r, StorageEvent(Some(a.backing.key), raw))
              == Some(Delivery(listener, a.backing.codec.deserialize(raw)))
  {
  }

  /** A root subscription on the empty key is registered but never delivered to: dispatch drops falsy keys. */
  lemma EmptyKeyNeverDelivered<T>(reg: Roots<T>, raw: Option<string>)
    ensures Dispatch(reg, StorageEvent(Some(""), raw)).None?
    ensures Dispatch(reg, StorageEvent(None, raw)).None?
  {
  }

  /** Two root subscriptions on one key: only the later listener is called. */
  lemma LaterSubscriptionWins<T>(a: Adapter<T>, b: Adapter<T>, reg: Roots<T>,
                                 first: nat, second: nat, raw: Option<string>)
    requires a.HasEvents() && b.HasEvents() && a.backing.key == b.backing.key != ""
    ensures var r1 := SubscribeRoot(a, reg, first).value;
            var r2 := SubscribeRoot(b, r1, second).value;
            Dispatch(r2, StorageEvent(Some(a.backing.key), raw))
              == Some(Delivery(second, b.backing.codec.deserialize(raw)))
  {
  }

  /** After unsubscribing (once or twice) events for the key are ignored, and other keys are undisturbed. */
  lemma UnsubscribeSilences<T>(a: Adapter<T>, reg: Roots<T>, raw: Option<string>, e: StorageEvent)
    requires a.HasEvents()
    ensures Dispatch(UnsubscribeRoot(a, reg), StorageEvent(Some(a.backing.key), raw)).None?
    ensures UnsubscribeRoot(a, UnsubscribeRoot(a, reg)) == UnsubscribeRoot(a, reg)
    ensures e.key != Some(a.backing.key) ==> Dispatch(UnsubscribeRoot(a, reg), e) == Dispatch(reg, e)
  {
    Registry.UnregisterIdempotent(reg, a.backing.key, RootHandler(0, a.backing.codec.deserialize));
  }

  /** With the default `deserialize`, a removal seen by a component subscriber yields the default value. */
  lemma ComponentRemovalYieldsDefault<T>(env: Env, key: Key, defaultValue: T, json: Json<T>)
    requires env.hasWindow
    ensures ComponentEvent(CreateLocalStorage(env, key, defaultValue, json), StorageEvent(Some(key), None))
            == Some(defaultValue)
  {
  }

  /**
   Any number of root subscriptions attach the platform listener at most
   once; once one adapter has events, exactly once.
   */
  lemma {:induction false} SubscribeEachAttachesOnce<T>(adapters: seq<Adapter<T>>, reg: Roots<T>, next: nat)
    requires Registry.Valid(reg)
    ensures var r := SubscribeEach(adapters, reg, next);
            Registry.Valid(r) && r.attached <= 1
            && (r.enabled <==> reg.enabled || exists i :: 0 <= i < |adapters| && adapters[i].HasEvents())
    decreases |adapters|
  {
    if |adapters| > 0 {
      var reg' := match SubscribeRoot(adapters[0], reg, next)
                  case None => reg
                  case Some(r) => r;
      assert Registry.Valid(reg') && (reg'.enabled <==> reg.enabled || adapters[0].HasEvents());
      SubscribeEachAttachesOnce(adapters[1..], reg', next + 1);
      forall i | 0 <= i < |adapters[1..]| ensures adapters[1..][i] == adapters[i + 1] { }
      if (exists i :: 0 <= i < |adapters| && adapters[i].HasEvents()) && !adapters[0].HasEvents() {
        var i :| 0 <= i < |adapters| && adapters[i].HasEvents();
        assert adapters[1..][i - 1].HasEvents();
      }
    }
  }
}
