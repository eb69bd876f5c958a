# svelte-persist-rune, modelled in Dafny

This project models the persistence and tab-sync core of `svelte-persist-rune`. The library keeps one reactive
value mirrored in Web Storage (`localStorage` or `sessionStorage`). It can also follow changes that other tabs make
to the same key.

The model is sequential and functional. It has three parts.

- **Storage adapter** (`storages.dfy`, module `Storages`). This covers the no-op fallback adapter and the Web
  Storage adapter that `createStorage` builds. It includes how the adapter's `initialValue` is derived, its `set`,
  the `event.root` subscription through the process-wide registry, and the `event.component` key filter.
- **Broadcast registry** (`registry.dfy`, module `Registry`). This is a key-to-handler map plus the one-shot flag
  that says the single platform `storage` listener has been attached. Both source files keep their own copy of
  it. The shared front half of their dispatch is `Registry.RouteEvent`. The two copies differ on a key that
  nobody registered:
  - `Storages.Dispatch` ignores it (`src/lib/storages.ts:97`).
  - `PersistRune.RootDispatch` returns `Err`, because the source throws (`src/lib/persist.svelte.ts:37`).
- **Persisted-value binding** (`persist.dfy`, module `PersistRune`; laws in `persist_laws.dfy`, module
  `PersistLaws`). A `World` holds three things: the storage environment, the binding file's own registry (whose
  handlers are binding handles), and every binding created so far. The functions are:
  - `Persist`: seeds the state with `afterInit(afterGet(getItem(key)))`.
  - `Assign`: the `value` setter.
  - `Reset`.
  - `Cleanup`: the root-mode teardown.
  - `Unmount`: the teardown of a component-mode binding's owning component.
  - `RootDispatch` and `ComponentListener`: the two ways a `storage` event reaches a binding.

`platform.dfy` (module `Platform`) holds the shared vocabulary:
- A storage area is a `map<string, string>`.
- A `storage` event is a pair `(key: Option<string>, newValue: Option<string>)`.
- JSON is an abstract `Json(stringify, parse)` pair supplied by the caller.
- JavaScript truthiness of `string | null` is `Truthy`. Null and `""` are falsy.

The Svelte runtime is replaced by one synchronous rule. Every assignment to a binding's state is followed by the
sync effect, which writes `serializer(state)` under the binding's key. This happens only while the binding's
effects are alive. The effect also runs once when the binding is created. So persistence happens only through
this step: `reset` writes to storage only because it assigns the state.

## Model

| member | source | states |
|---|---|---|
| Registry.Empty | src/lib/storages.ts:89-90 | The registry starts with no handlers and the attach flag cleared, which satisfies the "one listener iff flag" invariant |
| Registry.Register | src/lib/storages.ts:109-111 | Registering puts the handler in the key's slot whatever held it before; every other slot and the flag are unchanged |
| Registry.Unregister | src/lib/storages.ts:113-115 | Unregistering empties the key's slot whoever holds it; every other slot and the flag are unchanged |
| Registry.EnsureListener | src/lib/storages.ts:102-107 | The flag becomes set exactly when it was set or a window exists; once set, nothing changes; the attach-once invariant is preserved |
| Registry.RouteEvent | src/lib/storages.ts:92-97 | An event with a null or empty key goes nowhere; a truthy key with no slot is "unknown"; otherwise it reaches exactly the slot's handler with the event's `newValue` |
| Registry.EnsureListenerIdempotent | src/lib/storages.ts:102-107 | Ensuring the listener twice is the same as once, and each call attaches at most one more listener |
| Registry.RegisterOverwrites | src/lib/persist.svelte.ts:22-26 | A second registration for a key replaces the first entirely (last writer wins) |
| Registry.UnregisterIdempotent | src/lib/persist.svelte.ts:28-30 | Unregistering twice equals once, and unregistering right after a registration restores the slot map to "key absent" |
| Storages.DefaultDeserialize | src/lib/storages.ts:38 | The default `deserialize` yields `defaultValue` for null and `""` and `parse(s)` for any other string |
| Storages.ResolveOptions | src/lib/storages.ts:36-40 | Each given option is kept; an undefined `serialize` is JSON, `deserialize` falls back to the default, and `initialize` is the identity |
| Storages.Noop | src/lib/storages.ts:17-24 | The no-op adapter's initial value is its default value and it has no event source |
| Storages.CreateStorage | src/lib/storages.ts:26-53 | Without a window the result is exactly the no-op adapter. With one it is bound to the given area and key with the resolved options, and its initial value is `initialize(deserialize(getItem(key)))` read from that area |
| Storages.CreateLocalStorage | src/lib/storages.ts:81-83 | With a window, the adapter is on `localStorage` at the key with every option at its default, and it starts at `initialize(deserialize(getItem(key)))` read from that area; without one, it is the no-op adapter. Either way `defaultValue` is the argument |
| Storages.CreateSessionStorage | src/lib/storages.ts:85-87 | With a window, the adapter is on `sessionStorage` at the key with every option at its default, and it starts at `initialize(deserialize(getItem(key)))` read from that area; without one, it is the no-op adapter. Either way `defaultValue` is the argument |
| Storages.Set | src/lib/storages.ts:51 | The no-op adapter's `set` changes nothing; a backed adapter stores `serialize(value)` under its own key, and every other key of both areas keeps its item |
| Storages.SubscribeRoot | src/lib/storages.ts:55-63 | A root subscription exists iff the adapter has events. It takes over its key's slot with this listener and leaves the other slots as they were. It sets the flag, because an adapter with events implies a window, and it keeps the attach-once invariant |
| Storages.UnsubscribeRoot | src/lib/storages.ts:64 | The returned unsubscribe empties the adapter key's slot and leaves the other slots and the flag alone |
| Storages.Dispatch | src/lib/storages.ts:92-100 | A delivery happens iff the platform listener is attached and the key is truthy and registered; it calls exactly that slot's listener with its `deserialize(newValue)` |
| Storages.ComponentEvent | src/lib/storages.ts:66-71 | A component subscriber reacts iff the adapter has events and the event's key equals its key, delivering `deserialize(newValue)` |
| Storages.NoopIsInert | src/lib/storages.ts:17-24 | The no-op adapter starts at the default, its `set` leaves the environment unchanged, and it offers no root or component subscription |
| Storages.InitialValueOnEmptyStore | src/lib/storages.ts:38-52 | With the default `deserialize` and nothing stored, the initial value is `initialize(defaultValue)`, which is `defaultValue` with the default `initialize` |
| Storages.InitialValueOnEmptyString | src/lib/storages.ts:38 | An empty stored string counts as absent: the initial value is `defaultValue` |
| Storages.InitialValueFromStore | src/lib/storages.ts:44-52 | A non-empty stored string is parsed into the initial value |
| Storages.SetThenCreateRoundTrip | src/lib/storages.ts:51-52 | After `set(v)`, a fresh adapter on the same key starts at `v`, given that `deserialize(serialize(v)) == v` and `initialize` is the identity |
| Storages.LocalStorageRoundTrip | src/lib/storages.ts:81-83 | The same round trip for `createLocalStorage`, given that `parse(stringify(v)) == v` and `stringify(v)` is non-empty |
| Storages.SessionStorageRoundTrip | src/lib/storages.ts:85-87 | The same round trip for `createSessionStorage` on the session area, under the same hypotheses |
| Storages.SubscribeThenDispatch | src/lib/storages.ts:58-62 | After subscribing, an event for the (non-empty) key calls exactly this listener with the adapter's decoding of `newValue` |
| Storages.EmptyKeyNeverDelivered | src/lib/storages.ts:93 | Events with a null or empty key are never delivered, so a root subscription on key `""` is registered but never called |
| Storages.LaterSubscriptionWins | src/lib/storages.ts:109-111 | With two root subscriptions on one key, only the later listener receives events |
| Storages.UnsubscribeSilences | src/lib/storages.ts:113-115 | After unsubscribing, events for the key are ignored; unsubscribing twice equals once; events for other keys are dispatched as before |
| Storages.ComponentRemovalYieldsDefault | src/lib/storages.ts:66-71 | With the default `deserialize`, a removal (`newValue` null) for the key delivers the default value |
| Storages.SubscribeEachAttachesOnce | src/lib/storages.ts:102-107 | For any sequence of root subscriptions, at most one platform listener is attached, and the flag is set iff it was set or some adapter has events |
| PersistRune.Resolve | src/lib/persist.svelte.ts:54-61 | Every option the caller gives is the one used. Each omitted option independently takes its default: local storage, JSON encoding and decoding, identity `afterInit`, `syncTabs == true`, `root == false` |
| PersistRune.AfterGet | src/lib/persist.svelte.ts:63-67 | Null and `""` both map to `initialValue`; any other string maps to `deserializer(s)` |
| PersistRune.Start | src/lib/persist.svelte.ts:19-20 | At module load there are no bindings, no registry slots and no attached listener, and the world invariant holds |
| PersistRune.Assign | src/lib/persist.svelte.ts:75-79 | After `value = v` the value reads back `v`. While the binding is alive, storage holds `serializer(v)` under its key and nothing else in storage changes. When it is not alive, storage is untouched. The other bindings and the registry are unchanged, and the world invariant is kept |
| PersistRune.Persist | src/lib/persist.svelte.ts:49-112 | Needs a window, because both storage areas live on `window` (line 55). Appends one alive binding and keeps the existing ones. Storage then holds `serializer` of the seeded state. Root mode with tab sync gives the new handle the key's registry slot and sets the flag. Every other registry slot keeps its handler, and in any other mode the registry is unchanged. Storage changes only under the new binding's area and key. The invariant is kept |
| PersistRune.Reset | src/lib/persist.svelte.ts:122-124 | `reset()` makes the value `initialValue` and is exactly the assignment of `initialValue`, so it persists only through the sync effect |
| PersistRune.Cleanup | src/lib/persist.svelte.ts:81-95 | Root `cleanup()` on an alive binding stops its effects and, with tab sync, empties its key's registry slot. The binding is otherwise unchanged. Every other key's slot keeps its handler, the flag and attached count are kept, and without tab sync the registry is unchanged. In every other case it changes nothing. Other bindings and storage are untouched and the invariant is kept |
| PersistRune.Unmount | src/lib/persist.svelte.ts:106-110 | Destroying the owning component stops a component-mode binding's effects and listener and changes nothing else about it. It leaves a root-mode binding and all others unchanged |
| PersistRune.RootDispatch | src/lib/persist.svelte.ts:32-40 | Dispatch throws iff the listener is attached, the key is truthy and no slot exists for it. A falsy key, or a listener not yet attached, changes nothing. Otherwise it assigns the slot's binding `afterGet(newValue)` |
| PersistRune.ComponentListener | src/lib/persist.svelte.ts:99-104 | The component listener assigns `afterGet(newValue)` iff it is installed, the key matches and `newValue` is not null. Any other event leaves the world unchanged |
| PersistLaws.ResolveDefaults | src/lib/persist.svelte.ts:54-61 | The `{}` options mean local storage, JSON, identity `afterInit`, `syncTabs == true` and `root == false` |
| PersistLaws.SeedFromEmptyStore | src/lib/persist.svelte.ts:73 | On an empty store the binding starts at `afterInit(initialValue)`, which is `initialValue` by default |
| PersistLaws.SeedFromEmptyString | src/lib/persist.svelte.ts:63-64 | A stored `""` seeds the same value as an absent item |
| PersistLaws.SeedFromStoredValue | src/lib/persist.svelte.ts:73 | A non-empty stored string `s` seeds `afterInit(deserializer(s))` |
| PersistLaws.AssignThenPersistRoundTrip | src/lib/persist.svelte.ts:69-79 | After `value = v` on an alive binding, a new binding on the same key starts at `v`, given a non-empty `serializer(v)` that `deserializer` undoes and the identity `afterInit` |
| PersistLaws.ResetIdempotent | src/lib/persist.svelte.ts:122-124 | `reset()` twice equals once. It stores `serializer(initialValue)` while alive and leaves storage untouched after teardown |
| PersistLaws.RootEventUpdatesBinding | src/lib/persist.svelte.ts:86-91 | A new root binding with tab sync (window present, key non-empty) takes any event for its key as `afterGet(newValue)`, and the dispatch does not throw |
| PersistLaws.UnknownKeyThrowsOnlyHere | src/lib/persist.svelte.ts:37 | For a truthy key that no registry slot holds, this file's dispatch throws while the adapter's dispatch ignores it |
| PersistLaws.CleanupDetaches | src/lib/persist.svelte.ts:83-93 | After root `cleanup()`, no event changes the binding. If the binding had tab sync, an event for its key throws once the listener is attached. Later writes do not reach storage, and a second `cleanup()` changes nothing |
| PersistLaws.CleanupSparesOtherKeys | src/lib/persist.svelte.ts:28-30 | Root `cleanup()` deletes only its own key's slot: a binding that owns another key's slot still takes that key's events as `afterGet(newValue)` |
| PersistLaws.ComponentTeardown | src/lib/persist.svelte.ts:96-111 | In component mode `cleanup()` is a no-op. After the component is destroyed no event reaches the binding and writes no longer persist |
| PersistLaws.NoSyncTabsIsDeaf | src/lib/persist.svelte.ts:86-99 | With `syncTabs` off, neither listener ever changes the binding |
| PersistLaws.EchoWriteIsNoop | src/lib/persist.svelte.ts:99-104 | Suppose storage already holds the event's string `s` and `serializer(deserializer(s)) == s`. Then applying the event sets the value to `deserializer(s)` and the echoed write leaves storage unchanged |
| PersistLaws.RootEchoWriteIsNoop | src/lib/persist.svelte.ts:87-89 | The same for root mode: when the binding owns its key's slot and storage already holds `s`, the dispatched event does not throw, sets the value to `deserializer(s)` and leaves storage unchanged |
| PersistLaws.StaleCleanupDropsSuccessor | src/lib/persist.svelte.ts:87-93 | With two root bindings on one key, the later one owns the slot. The earlier one's `cleanup()` deletes that slot anyway, so events for the key then throw while the later binding is still alive |
| PersistLaws.Step | src/lib/persist.svelte.ts:19-125 | Any one thing a program can do with the library keeps the world invariant: `persist` (which throws without a window and then leaves the world as it was), a value assignment, `reset()`, `cleanup()`, a component's destruction, a root `storage` event (a throwing one leaves the world as it was) or a component listener's event. Once the platform listener is attached it stays attached |
| PersistLaws.RunPreservesValid | src/lib/persist.svelte.ts:19-47 | Across any sequence of operations and events, every registry slot keeps an alive root owner on its key, and at most one platform listener is ever attached (exactly one once the flag is set) |
| PersistLaws.TestScenario | tests/lib/persist.spec.ts:10-41 | Key `"test"` with initial 0 on an empty store reads 0. Then `value = 5` reads 5 and stores `"5"`. An event carrying `"10"` makes it 10, `reset()` gives 0, and after `cleanup()` the same event throws |
| PersistLaws.ComponentSeedScenario | tests/components/persist.spec.ts:36-44 | A component-mode binding on `"test"` with `"15"` already stored starts at 15 |

## Behaviour of the code worth knowing

- **The two registries differ.** Dispatch for an unregistered key is a silent no-op in
  `src/lib/storages.ts:97`. The binding's own registry throws instead (`src/lib/persist.svelte.ts:37`). Both
  behaviours are modelled.
- **Reset target.** `reset` restores the `initialValue` argument of `persist` (`src/lib/persist.svelte.ts:123`).
- **`syncTabs` default.** The adapter options have no `syncTabs` field. In `persist` the default is `true`
  (`src/lib/persist.svelte.ts:59`).
- **Stale cleanup.** In root mode a second `cleanup()` is harmless, because the effect root is torn down only
  once. But one binding's cleanup deletes its key's slot even when a later binding on the same key owns it
  (`PersistLaws.StaleCleanupDropsSuccessor`).
- **Seeding order.** The sync effect runs synchronously when a binding is created. So a second `persist` on the
  same key reads the item the first one has just written. Under Svelte's scheduling both would read the old item
  when they are created in the same tick.

## Left out

- Browser plumbing is not modelled. This covers `window.addEventListener`/`removeEventListener`, `StorageEvent`
  construction and the `console.log` in `addRootEventListener`. Events are explicit inputs. The root listener is
  the registry flag, and a component listener is the binding's `alive` and `syncTabs` state.
- The window listeners that `event.component` adds and removes (`src/lib/storages.ts:73-75`) are not modelled.
  Only the key filter is, as `Storages.ComponentEvent`.
- The order in which the browser calls several `storage` listeners for one event is not modelled. Each listener
  is a separate transition: `RootDispatch` and one `ComponentListener` per binding.
- The Svelte runtime (`$state`, `$effect`, `$effect.root`, scheduling, microtasks) is not modelled. Effects are
  synchronous and run on every assignment. Svelte would skip an assignment of an equal value.
- `JSON.stringify`/`JSON.parse` are abstract functions. Parse failures are not modelled. Round-trip lemmas take
  `deserializer(serializer(v)) == v` as a hypothesis.
- `PersistRune.Persist`: requires a window. The `ReferenceError` that `persist` raises without one is not
  modelled as a value. It comes from the `localStorage` default (`src/lib/persist.svelte.ts:55`) or from a
  `sessionStorage` argument. A program step (`PersistLaws.Step`) that calls `persist` without a window leaves
  the world unchanged, like any other thrown call.
- All bindings in one world share one value type `T`.
- `PersistRune.Persist`: the `storage: Storage` option accepts any object with the Web Storage interface. The
  model narrows it to the two areas `localStorage` and `sessionStorage` (`Medium`).
- `setItem` failures, such as the quota-exceeded error, are not modelled. Every write succeeds.
- The newer `persist(adapter, options)` signature that the tests call is not part of this model. The tests'
  scenarios are restated against `persist(key, initialValue, options)` as written. The component test's
  `Test.svelte` is not part of this model either. Its key `"test"` and initial value 10 are inferred from the
  test's expectations.
- `tests/custom-storage/cookie-storage.ts`, `tests/custom-storage/idb-storage.ts` and `src/routes/global.ts` are
  left out. They are thin wrappers over third-party stores and a usage site.
