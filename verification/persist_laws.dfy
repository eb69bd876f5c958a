/**
 Properties of the persisted-value binding: seeding, the round trip
 through storage, reset, the two tab-sync modes, cleanup, the echo write,
 and the world invariant over any sequence of operations.
 */
module PersistLaws {
  import opened Platform
  import Registry
  import Storages
  import opened PersistRune

  /** `persist` with the `{}` options: local storage, JSON, identity `afterInit`, tab sync on, component mode. */
  lemma ResolveDefaults<T>(json: Json<T>)
    ensures var c := Resolve(NoOptions<T>(), json);
            c.storage == LocalStorage && c.serializer == json.stringify && c.deserializer == json.parse
            && c.afterInit == Identity<T> && c.syncTabs && !c.root
  {
  }

  /** The handle of the binding a `persist` call creates. */
  function Newest<T>(w: World<T>): nat
    requires |w.bindings| > 0
  {
    |w.bindings| - 1
  }

  /** Nothing stored under the key: the binding starts at `afterInit(initialValue)`, i.e. `initialValue` by default. */
  lemma SeedFromEmptyStore<T>(w: World<T>, key: Key, initialValue: T, o: PersistOptions<T>, json: Json<T>)
    requires w.env.hasWindow && key !in Area(w.env, Resolve(o, json).storage)
    ensures var w' := Persist(w, key, initialValue, o, json);
            w'.bindings[Newest(w')].state == Resolve(o, json).afterInit(initialValue)
    ensures o.afterInit.None? ==>
              var w' := Persist(w, key, initialValue, o, json);
              w'.bindings[Newest(w')].state == initialValue
  {
  }

  /** An empty string under the key counts as nothing stored. */
  lemma SeedFromEmptyString<T>(w: World<T>, key: Key, initialValue: T, o: PersistOptions<T>, json: Json<T>)
    requires w.env.hasWindow && GetItem(Area(w.env, Resolve(o, json).storage), key) == Some("")
    ensures var w' := Persist(w, key, initialValue, o, json);
            w'.bindings[Newest(w')].state == Resolve(o, json).afterInit(initialValue)
  {
  }

  /** A non-empty stored string seeds the binding with `afterInit(deserializer(s))`. */
  lemma SeedFromStoredValue<T>(w: World<T>, key: Key, initialValue: T, o: PersistOptions<T>, json: Json<T>, s: string)
    requires w.env.hasWindow && GetItem(Area(w.env, Resolve(o, json).storage), key) == Some(s) && s != ""
    ensures var c := Resolve(o, json);
            var w' := Persist(w, key, initialValue, o, json);
            w'.bindings[Newest(w')].state == c.afterInit(c.deserializer(s))
  {
  }

  /**
   Round trip through storage: after `value = v` on an alive binding, a new
   binding with the same key and options starts at `v`, provided
   `serializer(v)` is non-empty, `deserializer` undoes it and `afterInit` is
   the identity.
   */
  lemma AssignThenPersistRoundTrip<T>(w: World<T>, i: nat, v: T, o: PersistOptions<T>, json: Json<T>)
    requires w.env.hasWindow && i < |w.bindings| && w.bindings[i].alive && w.bindings[i].config == Resolve(o, json)
    requires o.afterInit.None?
    requires var c := Resolve(o, json); c.serializer(v) != "" && c.deserializer(c.serializer(v)) == v
    ensures var w1 := Assign(w, i, v);
            var w2 := Persist(w1, w.bindings[i].key, w.bindings[i].initialValue, o, json);
            w2.bindings[Newest(w2)].state == v
  {
    var c := Resolve(o, json);
    var w1 := Assign(w, i, v);
    assert GetItem(Area(w1.env, c.storage), w.bindings[i].key) == Some(c.serializer(v));
  }

  /** `reset()` twice is `reset()` once, and it persists only while the sync effect is alive. */
  lemma ResetIdempotent<T>(w: World<T>, i: nat)
    requires i < |w.bindings|
    ensures Reset(Reset(w, i), i) == Reset(w, i)
    ensures var b := w.bindings[i];
            b.alive ==>
              GetItem(Area(Reset(w, i).env, b.config.storage), b.key) == Some(b.config.serializer(b.initialValue))
    ensures !w.bindings[i].alive ==> Reset(w, i).env == w.env
  {
    var b := w.bindings[i];
    var w1 := Reset(w, i);
    var w2 := Reset(w1, i);
    assert w1.bindings[i] == w2.bindings[i];
    assert w1.bindings == w2.bindings;
    if b.alive {
      var v := b.config.serializer(b.initialValue);
      match b.config.storage
      case LocalStorage =>
        assert w2.env.local == w1.env.local[b.key := v] == w1.env.local;
      case SessionStorage =>
        assert w2.env.session == w1.env.session[b.key := v] == w1.env.session;
    }
  }

  /**
   Root mode with tab sync: once created (with a window and a non-empty
   key), a `storage` event for the key assigns the binding `afterGet(newValue)`.
   */
  lemma RootEventUpdatesBinding<T>(w: World<T>, key: Key, initialValue: T, o: PersistOptions<T>, json: Json<T>,
                                   raw: Option<string>)
    requires Valid(w) && w.env.hasWindow && key != ""
    requires Resolve(o, json).root && Resolve(o, json).syncTabs
    ensures var w' := Persist(w, key, initialValue, o, json);
            var r := RootDispatch(w', StorageEvent(Some(key), raw));
            r.Ok? && r.value.bindings[Newest(w')].state == AfterGet(initialValue, Resolve(o, json).deserializer, raw)
  {
  }

  /** The two registries part ways on a key nobody registered: this one throws, the adapter's ignores it. */
  lemma UnknownKeyThrowsOnlyHere<T, U>(w: World<T>, reg: Storages.Roots<U>, e: StorageEvent)
    requires w.registry.enabled && Truthy(e.key)
    requires e.key.value !in w.registry.listeners && e.key.value !in reg.listeners
    ensures RootDispatch(w, e).Err?
    ensures Storages.Dispatch(reg, e).None?
  {
  }

  /**
   After a root binding's `cleanup()`: no event changes it any more (an
   event for its key now throws once the platform listener is attached),
   later writes no longer reach storage, and a second `cleanup()` changes
   nothing.
   */
  lemma CleanupDetaches<T>(w: World<T>, i: nat, e: StorageEvent, v: T)
    requires Valid(w) && i < |w.bindings| && w.bindings[i].config.root && w.bindings[i].alive
    ensures var w' := Cleanup(w, i);
            var r := RootDispatch(w', e);
            r.Ok? ==> r.value.bindings[i] == w'.bindings[i]
    ensures var w' := Cleanup(w, i);
            (w.bindings[i].config.syncTabs && w'.registry.enabled && e.key == Some(w.bindings[i].key) && Truthy(e.key))
              ==> RootDispatch(w', e).Err?
    ensures Assign(Cleanup(w, i), i, v).env == Cleanup(w, i).env
    ensures Cleanup(Cleanup(w, i), i) == Cleanup(w, i)
  {
    var w' := Cleanup(w, i);
    assert Valid(w');
    var r := RootDispatch(w', e);
    if r.Ok? && w'.registry.enabled && Truthy(e.key) {
      var id := w'.registry.listeners[e.key.value];
      assert Owns(w', e.key.value);
      assert id != i;
    }
  }

  /**
   A root binding's `cleanup()` only silences its own key: a binding that
   owns the slot of another key still receives that key's events.
   */
  lemma CleanupSparesOtherKeys<T>(w: World<T>, i: nat, j: nat, raw: Option<string>)
    requires Valid(w) && w.registry.enabled && i < |w.bindings| && j < |w.bindings|
    requires var k := w.bindings[j].key;
             k != w.bindings[i].key && k != "" && k in w.registry.listeners && w.registry.listeners[k] == j
    ensures var w' := Cleanup(w, i);
            var r := RootDispatch(w', StorageEvent(Some(w.bindings[j].key), raw));
            r.Ok? && r.value.bindings[j].state == Decode(w.bindings[j], raw)
  {
    var w' := Cleanup(w, i);
    assert j != i;
    assert w'.bindings[j] == w.bindings[j];
  }

  /**
   Component mode: `cleanup()` is the empty function, and once the component
   is destroyed its binding is deaf and no longer persists.
   */
  lemma ComponentTeardown<T>(w: World<T>, i: nat, e: StorageEvent, v: T)
    requires i < |w.bindings| && !w.bindings[i].config.root
    ensures Cleanup(w, i) == w
    ensures ComponentListener(Unmount(w, i), i, e) == Unmount(w, i)
    ensures Assign(Unmount(w, i), i, v).env == Unmount(w, i).env
  {
  }

  /** With `syncTabs` off no event, through either listener, ever changes the binding. */
  lemma NoSyncTabsIsDeaf<T>(w: World<T>, i: nat, e: StorageEvent)
    requires Valid(w) && i < |w.bindings| && !w.bindings[i].config.syncTabs
    ensures ComponentListener(w, i, e) == w
    ensures var r := RootDispatch(w, e);
            r.Ok? ==> r.value.bindings[i] == w.bindings[i]
  {
    var r := RootDispatch(w, e);
    if r.Ok? && w.registry.enabled && Truthy(e.key) {
      assert Owns(w, e.key.value);
    }
  }

  /**
   No echo: when storage already holds the string `s` that the event
   carries (as it does after another tab's write) and
   `serializer(deserializer(s)) == s`, applying the event rewrites the same
   string, so storage is unchanged.
   */
  lemma EchoWriteIsNoop<T>(w: World<T>, i: nat, s: string)
    requires i < |w.bindings|
    requires var b := w.bindings[i];
             Listening(b) && s != "" && GetItem(Area(w.env, b.config.storage), b.key) == Some(s)
             && b.config.serializer(b.config.deserializer(s)) == s
    ensures var w' := ComponentListener(w, i, StorageEvent(Some(w.bindings[i].key), Some(s)));
            w'.env == w.env && w'.bindings[i].state == w.bindings[i].config.deserializer(s)
  {
    var b := w.bindings[i];
    var w' := ComponentListener(w, i, StorageEvent(Some(b.key), Some(s)));
    match b.config.storage
    case LocalStorage =>
      assert w'.env.local == w.env.local[b.key := s] == w.env.local;
    case SessionStorage =>
      assert w'.env.session == w.env.session[b.key := s] == w.env.session;
  }

  /**
   No echo in root mode either: when binding `i` owns the registry slot of
   its key, storage already holds the event's string `s` and
   `serializer(deserializer(s)) == s`, the dispatched event sets the value
   to `deserializer(s)` and rewrites the same string.
   */
  lemma RootEchoWriteIsNoop<T>(w: World<T>, i: nat, s: string)
    requires Valid(w) && w.registry.enabled && i < |w.bindings|
    requires var b := w.bindings[i];
             b.key != "" && b.key in w.registry.listeners && w.registry.listeners[b.key] == i
             && s != "" && GetItem(Area(w.env, b.config.storage), b.key) == Some(s)
             && b.config.serializer(b.config.deserializer(s)) == s
    ensures var r := RootDispatch(w, StorageEvent(Some(w.bindings[i].key), Some(s)));
            r.Ok? && r.value.env == w.env && r.value.bindings[i].state == w.bindings[i].config.deserializer(s)
  {
    var b := w.bindings[i];
    var r := RootDispatch(w, StorageEvent(Some(b.key), Some(s)));
    assert Owns(w, b.key);
    match b.config.storage
    case LocalStorage =>
      assert r.value.env.local == w.env.local[b.key := s] == w.env.local;
    case SessionStorage =>
      assert r.value.env.session == w.env.session[b.key := s] == w.env.session;
  }

  /**
   Two root bindings on one key: the later one owns the slot, and the
   earlier one's `cleanup()` deletes it anyway, so afterwards an event for
   the key throws although the later binding is still alive.
   */
  lemma StaleCleanupDropsSuccessor<T>(w: World<T>, key: Key, a: T, b: T, o: PersistOptions<T>, json: Json<T>,
                                      raw: Option<string>)
    requires Valid(w) && w.env.hasWindow && key != ""
    requires Resolve(o, json).root && Resolve(o, json).syncTabs
    ensures var w1 := Persist(w, key, a, o, json);
            var w2 := Persist(w1, key, b, o, json);
            var w3 := Cleanup(w2, Newest(w1));
            w2.registry.listeners[key] == Newest(w2) && w3.bindings[Newest(w2)].alive
            && RootDispatch(w3, StorageEvent(Some(key), raw)).Err?
  {
  }

  /** One step a program can take with the library. Handles are binding indices. */
  datatype Action<!T> =
    | Create(key: Key, initialValue: T, options: PersistOptions<T>)
    | SetValue(handle: nat, value: T)
    | ResetValue(handle: nat)
    | CleanupBinding(handle: nat)
    | DestroyComponent(handle: nat)
    | RootEvent(event: StorageEvent)
    | ComponentStorageEvent(handle: nat, event: StorageEvent)

  /**
   Take one step. A handle that no `Create` returned names nothing. A thrown
   call (a dispatch to an unregistered key, or `persist` without a window)
   leaves the world as it was.
   */
  function Step<T>(w: World<T>, a: Action<T>, json: Json<T>): (w': World<T>)
    ensures Valid(w) ==> Valid(w') && (w.registry.enabled ==> w'.registry.enabled)
  {
    match a
    case Create(key, initialValue, o) => if w.env.hasWindow then Persist(w, key, initialValue, o, json) else w
    case SetValue(i, v) => if i < |w.bindings| then Assign(w, i, v) else w
    case ResetValue(i) => if i < |w.bindings| then Reset(w, i) else w
    case CleanupBinding(i) => if i < |w.bindings| then Cleanup(w, i) else w
    case DestroyComponent(i) => if i < |w.bindings| then Unmount(w, i) else w
    case RootEvent(e) => (match RootDispatch(w, e) case Ok(w') => w' case Err(_) => w)
    case ComponentStorageEvent(i, e) => if i < |w.bindings| then ComponentListener(w, i, e) else w
  }

  /** Take the steps in order. */
  function Run<T>(w: World<T>, actions: seq<Action<T>>, json: Json<T>): World<T>
    decreases |actions|
  {
    if |actions| == 0 then w else Run(Step(w, actions[0], json), actions[1..], json)
  }

  /**
   Whatever the program does, every registry slot keeps an alive root owner
   on its key (so dispatch never reaches a dead binding), and at most one
   platform listener is ever attached; with a window and one root binding
   with tab sync, exactly one.
   */
  lemma {:induction false} RunPreservesValid<T>(w: World<T>, actions: seq<Action<T>>, json: Json<T>)
    requires Valid(w)
    ensures var w' := Run(w, actions, json);
            Valid(w') && w'.registry.attached <= 1 && (w.registry.enabled ==> w'.registry.attached == 1)
    decreases |actions|
  {
    if |actions| > 0 {
      RunPreservesValid(Step(w, actions[0], json), actions[1..], json);
    }
  }

  /** The options of the root-mode tests: `{ root: true }`, everything else at its default. */
  function RootOptions<T>(): PersistOptions<T> {
    NoOptions<T>().(root := Some(true))
  }

  /**
   The scenario of the library's tests: key "test", initial value 0, empty
   local storage. The value starts at 0; `value = 5` reads back 5 and stores
   "5"; a `storage` event carrying "10" makes it 10; `reset()` brings back
   0; after `cleanup()` the same event throws.
   */
  lemma TestScenario(json: Json<int>)
    requires json.stringify(5) == "5" && json.parse("10") == 10
    ensures var w0 := Start<int>(Env(true, map[], map[]));
            var w1 := Persist(w0, "test", 0, RootOptions(), json);
            var w2 := Assign(w1, 0, 5);
            var e := StorageEvent(Some("test"), Some("10"));
            var r3 := RootDispatch(w2, e);
            && w1.bindings[0].state == 0
            && w2.bindings[0].state == 5 && GetItem(w2.env.local, "test") == Some("5")
            && r3.Ok? && r3.value.bindings[0].state == 10
            && Reset(r3.value, 0).bindings[0].state == 0
            && RootDispatch(Cleanup(Reset(r3.value, 0), 0), e).Err?
  {
  }

  /** The component test: "15" already stored under the key seeds the binding with 15. */
  lemma ComponentSeedScenario(json: Json<int>)
    requires json.parse("15") == 15
    ensures var w := Persist(Start<int>(Env(true, map["test" := "15"], map[])), "test", 10, NoOptions(), json);
            w.bindings[0].state == 15 && !w.bindings[0].config.root
  {
  }
}
