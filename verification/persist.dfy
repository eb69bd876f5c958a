/**
 The persisted-value binding of `src/lib/persist.svelte.ts`. A world holds
 the storage environment, this file's own copy of the root registry (whose
 handlers are binding handles), and every binding `persist` has created.
 The Svelte runtime is replaced by one synchronous rule: each assignment to
 a binding's state is followed, while its effects are alive, by the sync
 effect writing `serializer(state)` under its key.
 */
module PersistRune {
  import opened Platform
  import Registry

  /** `Partial<PersistOptions<T>>`: `None` is an option left undefined. */
  datatype PersistOptions<!T> = PersistOptions(
    storage: Option<Medium>,
    serializer: Option<T -> string>,
    deserializer: Option<string -> T>,
    afterInit: Option<T -> T>,
    syncTabs: Option<bool>,
    root: Option<bool>)

  /** The `{}` default of the `options` parameter. */
  function NoOptions<T>(): PersistOptions<T> {
    PersistOptions(None, None, None, None, None, None)
  }

  /** The options after destructuring with defaults. */
  datatype Config<!T> = Config(
    storage: Medium,
    serializer: T -> string,
    deserializer: string -> T,
    afterInit: T -> T,
    syncTabs: bool,
    root: bool)

  /** Destructuring with defaults: a given option is kept, an undefined one takes its default. */
  function Resolve<T>(o: PersistOptions<T>, json: Json<T>): (c: Config<T>)
    ensures o.storage.Some? ==> c.storage == o.storage.value
    ensures o.serializer.Some? ==> c.serializer == o.serializer.value
    ensures o.deserializer.Some? ==> c.deserializer == o.deserializer.value
    ensures o.afterInit.Some? ==> c.afterInit == o.afterInit.value
    ensures o.syncTabs.Some? ==> c.syncTabs == o.syncTabs.value
    ensures o.root.Some? ==> c.root == o.root.value
    ensures o.storage.None? ==> c.storage == LocalStorage
    ensures o.serializer.None? ==> c.serializer == json.stringify
    ensures o.deserializer.None? ==> c.deserializer == json.parse
    ensures o.afterInit.None? ==> c.afterInit == Identity<T>
    ensures o.syncTabs.None? ==> c.syncTabs
    ensures o.root.None? ==> !c.root
  {
    Config(
      if o.storage.Some? then o.storage.value else LocalStorage,
      if o.serializer.Some? then o.serializer.value else json.stringify,
      if o.deserializer.Some? then o.deserializer.value else json.parse,
      if o.afterInit.Some? then o.afterInit.value else Identity<T>,
      if o.syncTabs.Some? then o.syncTabs.value else true,
      if o.root.Some? then o.root.value else false)
  }

  /**
   `afterGet`: a stored string becomes a value by `deserializer`, except that
   a missing item (null) and the empty string both mean "use `initialValue`".
   */
  function AfterGet<T>(initialValue: T, deserializer: string -> T, v: Option<string>): (r: T)
    ensures v.None? ==> r == initialValue
    ensures v == Some("") ==> r == initialValue
    ensures Truthy(v) ==> r == deserializer(v.value)
  {
    if !Truthy(v) then initialValue else deserializer(v.value)
  }

  /**
   One `persist(key, initialValue, options)` rune. `alive` is whether its
   effects are installed: the sync effect in both modes, and in component
   mode also the window `storage` listener. Root mode loses them at
   `cleanup`, component mode when its component is destroyed.
   */
  datatype Binding<!T> = Binding(key: Key, initialValue: T, config: Config<T>, state: T, alive: bool)

  /** The value binding `b`'s own `afterGet` yields for the stored string `v`. */
  function Decode<T>(b: Binding<T>, v: Option<string>): T {
    AfterGet(b.initialValue, b.config.deserializer, v)
  }

  /** Everything `persist` touches: storage, this file's registry (handler = binding handle), the bindings. */
  datatype World<!T> = World(env: Env, registry: Registry.Registry<nat>, bindings: seq<Binding<T>>)

  /** The registry slot for `k` belongs to an alive root binding with tab sync on that key. */
  predicate Owns<T>(w: World<T>, k: Key)
    requires k in w.registry.listeners
  {
    var id := w.registry.listeners[k];
    id < |w.bindings| && w.bindings[id].key == k && w.bindings[id].alive
    && w.bindings[id].config.root && w.bindings[id].config.syncTabs
  }

  /** The world invariant: the attach-once flag is faithful and every registry slot has its owner. */
  predicate Valid<T>(w: World<T>) {
    Registry.Valid(w.registry) && forall k :: k in w.registry.listeners ==> Owns(w, k)
  }

  /** Module load: no bindings, an empty registry, the flag cleared. */
  function Start<T>(env: Env): (w: World<T>)
    ensures Valid(w) && w.bindings == [] && w.env == env
    ensures !w.registry.enabled && w.registry.attached == 0 && w.registry.listeners == map[]
  {
    World(env, Registry.Empty(), [])
  }

  /** The sync effect: while alive, write `serializer(state)` under the binding's key. */
  function Synced<T>(env: Env, b: Binding<T>): Env {
    if b.alive then WriteItem(env, b.config.storage, b.key, b.config.serializer(b.state)) else env
  }

  /**
   `state = v` followed by the sync effect (the setter of `value`, and every
   other assignment to `state`): the value reads back as `v`; while the
   binding is alive storage holds `serializer(v)` under its key and nothing
   else in storage changes; once it is not alive storage is untouched.
   */
  function Assign<T>(w: World<T>, i: nat, v: T): (w': World<T>)
    requires i < |w.bindings|
    ensures |w'.bindings| == |w.bindings| && w'.bindings[i].state == v
    ensures w'.bindings[i] == w.bindings[i].(state := v)
    ensures forall j :: 0 <= j < |w.bindings| && j != i ==> w'.bindings[j] == w.bindings[j]
    ensures w'.registry == w.registry && w'.env.hasWindow == w.env.hasWindow
    ensures var b := w.bindings[i];
            b.alive ==> GetItem(Area(w'.env, b.config.storage), b.key) == Some(b.config.serializer(v))
    ensures var b := w.bindings[i];
            b.alive ==> forall m, k :: (m, k) != (b.config.storage, b.key) ==>
                          GetItem(Area(w'.env, m), k) == GetItem(Area(w.env, m), k)
    ensures !w.bindings[i].alive ==> w'.env == w.env
    ensures Valid(w) ==> Valid(w')
  {
    var b := w.bindings[i].(state := v);
    w.(env := Synced(w.env, b), bindings := w.bindings[i := b])
  }

  /**
   `persist(key, initialValue, options)`: seed the state from storage
   through `afterGet` and `afterInit`, run the sync effect once, and in root
   mode with tab sync take the registry slot for `key` and attach the
   platform listener once. The new binding's handle is the old binding count.
   Both storage areas are properties of `window`, so without one the call
   throws a `ReferenceError` before it does anything; callers need a window.
   */
  function Persist<T>(w: World<T>, key: Key, initialValue: T, o: PersistOptions<T>, json: Json<T>): (w': World<T>)
    requires w.env.hasWindow
    ensures |w'.bindings| == |w.bindings| + 1 && w'.bindings[..|w.bindings|] == w.bindings
    ensures var b := w'.bindings[|w.bindings|];
            b.key == key && b.initialValue == initialValue && b.alive && b.config == Resolve(o, json)
    ensures var b := w'.bindings[|w.bindings|];
            GetItem(Area(w'.env, b.config.storage), key) == Some(b.config.serializer(b.state))
    ensures var c := Resolve(o, json);
            c.root && c.syncTabs ==> key in w'.registry.listeners && w'.registry.listeners[key] == |w.bindings|
                                     && w'.registry.enabled
    ensures var c := Resolve(o, json);
            c.root && c.syncTabs ==> forall k :: k != key ==>
              (k in w'.registry.listeners <==> k in w.registry.listeners)
              && (k in w.registry.listeners ==> w'.registry.listeners[k] == w.registry.listeners[k])
    ensures var c := Resolve(o, json);
            !(c.root && c.syncTabs) ==> w'.registry == w.registry
    ensures w'.env.hasWindow == w.env.hasWindow
    ensures var c := Resolve(o, json);
            forall m, k :: (m, k) != (c.storage, key) ==> GetItem(Area(w'.env, m), k) == GetItem(Area(w.env, m), k)
    ensures Valid(w) ==> Valid(w')
  {
    var c := Resolve(o, json);
    var seeded := c.afterInit(AfterGet(initialValue, c.deserializer, GetItem(Area(w.env, c.storage), key)));
    var b := Binding(key, initialValue, c, seeded, true);
    var id := |w.bindings|;
    var registry :=
      if c.root && c.syncTabs then
        Registry.EnsureListener(Registry.Register(w.registry, key, id), w.env.hasWindow)
      else
        w.registry;
    World(Synced(w.env, b), registry, w.bindings + [b])
  }

  /** `reset()`: assign `initialValue`; storage follows only through the sync effect. */
  function Reset<T>(w: World<T>, i: nat): (w': World<T>)
    requires i < |w.bindings|
    ensures |w'.bindings| == |w.bindings| && w'.bindings[i].state == w.bindings[i].initialValue
    ensures w' == Assign(w, i, w.bindings[i].initialValue)
  {
    Assign(w, i, w.bindings[i].initialValue)
  }

  /**
   `cleanup()`: in root mode, tear down the effect root once: the sync
   effect stops, and with tab sync the key's registry slot is deleted
   (whoever holds it). In component mode it is the empty function.
   */
  function Cleanup<T>(w: World<T>, i: nat): (w': World<T>)
    requires i < |w.bindings|
    ensures w'.env == w.env && |w'.bindings| == |w.bindings|
    ensures var b := w.bindings[i];
            b.config.root && b.alive ==> w'.bindings[i] == b.(alive := false)
    ensures var b := w.bindings[i];
            b.config.root && b.alive && b.config.syncTabs ==> b.key !in w'.registry.listeners
    ensures forall k :: k != w.bindings[i].key ==>
              (k in w'.registry.listeners <==> k in w.registry.listeners)
              && (k in w.registry.listeners ==> w'.registry.listeners[k] == w.registry.listeners[k])
    ensures w'.registry.enabled == w.registry.enabled && w'.registry.attached == w.registry.attached
    ensures !w.bindings[i].config.syncTabs ==> w'.registry == w.registry
    ensures !(w.bindings[i].config.root && w.bindings[i].alive) ==> w' == w
    ensures forall j :: 0 <= j < |w.bindings| && j != i ==> w'.bindings[j] == w.bindings[j]
    ensures Valid(w) ==> Valid(w')
  {
    var b := w.bindings[i];
    if b.config.root && b.alive then
      var registry := if b.config.syncTabs then Registry.Unregister(w.registry, b.key) else w.registry;
      w.(registry := registry, bindings := w.bindings[i := b.(alive := false)])
    else
      w
  }

  /** The owning component is destroyed: a component-mode binding loses its sync effect and its listener. */
  function Unmount<T>(w: World<T>, i: nat): (w': World<T>)
    requires i < |w.bindings|
    ensures w'.env == w.env && w'.registry == w.registry && |w'.bindings| == |w.bindings|
    ensures !w.bindings[i].config.root ==> w'.bindings[i] == w.bindings[i].(alive := false)
    ensures w.bindings[i].config.root ==> w' == w
    ensures forall j :: 0 <= j < |w.bindings| && j != i ==> w'.bindings[j] == w.bindings[j]
    ensures Valid(w) ==> Valid(w')
  {
    var b := w.bindings[i];
    if !b.config.root then w.(bindings := w.bindings[i := b.(alive := false)]) else w
  }

  /**
   This file's platform `storage` listener (`onStorageChange`), once
   attached: a falsy key is ignored, a key with a handler assigns that
   binding `afterGet(newValue)`, and any other key THROWS. Before the
   listener is attached nothing happens.
   */
  function RootDispatch<T>(w: World<T>, e: StorageEvent): (r: Result<World<T>>)
    ensures r.Err? <==> w.registry.enabled && Truthy(e.key) && e.key.value !in w.registry.listeners
    ensures r.Ok? && !(w.registry.enabled && Truthy(e.key)) ==> r.value == w
    ensures r.Ok? && w.registry.enabled && Truthy(e.key) && Valid(w) ==>
              var id := w.registry.listeners[e.key.value];
              id < |w.bindings| && r.value == Assign(w, id, Decode(w.bindings[id], e.newValue))
    ensures r.Ok? && Valid(w) ==> Valid(r.value)
  {
    if !w.registry.enabled then Ok(w)
    else
      match Registry.RouteEvent(w.registry, e)
      case Ignored => Ok(w)
      case Unknown(k) => Err("No listener found for key " + k)
      case Found(id, raw) =>
        // In a valid world the slot's owner always exists (see `Owns`).
        if id < |w.bindings| then Ok(Assign(w, id, Decode(w.bindings[id], raw))) else Ok(w)
  }

  /** Whether binding `b`'s component-mode window listener is installed. */
  predicate Listening<T>(b: Binding<T>) {
    b.alive && !b.config.root && b.config.syncTabs
  }

  /**
   The component-mode window listener of binding `i`: it assigns
   `afterGet(newValue)` exactly when it is installed, the event's key is the
   binding's key and `newValue` is not null; every other event changes nothing.
   */
  function ComponentListener<T>(w: World<T>, i: nat, e: StorageEvent): (w': World<T>)
    requires i < |w.bindings|
    ensures var b := w.bindings[i];
            Listening(b) && e.key == Some(b.key) && e.newValue.Some? ==> w' == Assign(w, i, Decode(b, e.newValue))
    ensures var b := w.bindings[i];
            Listening(b) && e.key == Some(b.key) && Truthy(e.newValue) ==>
              w'.bindings[i].state == b.config.deserializer(e.newValue.value)
    ensures var b := w.bindings[i];
            Listening(b) && e.key == Some(b.key) && e.newValue == Some("") ==> w'.bindings[i].state == b.initialValue
    ensures var b := w.bindings[i];
            !(Listening(b) && e.key == Some(b.key) && e.newValue.Some?) ==> w' == w
    ensures Valid(w) ==> Valid(w')
  {
    var b := w.bindings[i];
    if Listening(b) && e.key == Some(b.key) && e.newValue.Some? then
      Assign(w, i, Decode(b, e.newValue))
    else
      w
  }
}
