/**
 The browser surface the persistence library touches, reduced to values:
 a Web Storage area is a finite map from keys to strings, a `storage`
 event is a pair of optional strings, and JSON is an abstract pair of
 functions supplied by the caller.
 */
module Platform {

  /** A nullable value (`T | null` in the source). */
  datatype Option<+T> = None | Some(value: T)

  /** A value or a thrown `Error` with its message. */
  datatype Result<+T> = Ok(value: T) | Err(message: string)

  type Key = string

  /** One Web Storage area (`localStorage` or `sessionStorage`). */
  type Store = map<Key, string>

  /** Which Web Storage area an adapter or binding writes to. */
  datatype Medium = LocalStorage | SessionStorage

  /**
   The execution environment: whether a `window` exists (it does not
   during server-side rendering) and the contents of both storage areas.
   */
  datatype Env = Env(hasWindow: bool, local: Store, session: Store)

  /** A `storage` event as the platform delivers it: `key` is null when the whole area was cleared,
      `newValue` is null when the item was removed. */
  datatype StorageEvent = StorageEvent(key: Option<Key>, newValue: Option<string>)

  /** `JSON.stringify` / `JSON.parse`, left abstract. */
  datatype Json<!T> = Json(stringify: T -> string, parse: string -> T)

  /** `(value) => value`, the default of every post-processing hook. */
  function Identity<T>(v: T): T {
    v
  }

  /** JavaScript truthiness of a `string | null`: null and the empty string are falsy. */
  predicate Truthy(v: Option<string>) {
    v.Some? && v.value != ""
  }

  /** `Storage.getItem`: null when the key is absent. */
  function GetItem(s: Store, k: Key): (r: Option<string>)
    ensures r.Some? <==> k in s
    ensures r.Some? ==> r.value == s[k]
  {
    if k in s then Some(s[k]) else None
  }

  /** `Storage.setItem`: the one key now holds the value, every other key keeps its value. */
  function SetItem(s: Store, k: Key, v: string): (r: Store)
    ensures GetItem(r, k) == Some(v)
    ensures forall k' :: k' != k ==> GetItem(r, k') == GetItem(s, k')
  {
    s[k := v]
  }

  /** The storage area `m` of the environment. */
  function Area(env: Env, m: Medium): Store {
    match m
    case LocalStorage => env.local
    case SessionStorage => env.session
  }

  /** `setItem(k, v)` on area `m`; the other area and the window flag are untouched. */
  function WriteItem(env: Env, m: Medium, k: Key, v: string): (r: Env)
    ensures r.hasWindow == env.hasWindow
    ensures GetItem(Area(r, m), k) == Some(v)
    ensures forall m', k' :: (m', k') != (m, k) ==> GetItem(Area(r, m'), k') == GetItem(Area(env, m'), k')
  {
    match m
    case LocalStorage => env.(local := SetItem(env.local, k, v))
    case SessionStorage => env.(session := SetItem(env.session, k, v))
  }
}
