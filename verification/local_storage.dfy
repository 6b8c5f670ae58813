/**
 * useLocalStorage (src/lib/hooks.ts): a piece of state hydrated once from
 * browser storage and written back under the same key after every change.
 *
 * Storage is an abstract map from keys to strings. JSON.stringify and
 * JSON.parse are an abstract Codec: `decode` answers None where JSON.parse
 * would throw or where the parsed value is not a T.
 */
module LocalStorage {
  import opened Wrappers

  type Store = map<string, string>

  /** Serialisation of values of type T; `decode` is None on text that does not parse, or parses to something that is not a T. */
  datatype Codec<!T> = Codec(encode: T -> string, decode: string -> Option<T>)

  /** The exception JSON.parse throws on malformed text. */
  datatype ParseError = SyntaxError(text: string)

  /** A codec that reads back everything it writes, and never writes the empty string. */
  ghost predicate Faithful<T(!new)>(c: Codec<T>) {
    forall x: T :: c.encode(x) != "" && c.decode(c.encode(x)) == Some(x)
  }

  /**
   * `localStorage.getItem(key) || JSON.stringify(initialValue)`: a missing key
   * (null) and an empty stored string are both falsy, so both fall back to
   * the serialised initial value.
   */
  function StoredOrInitial<T>(store: Store, key: string, initialValue: T, c: Codec<T>): (text: string)
    // a non-empty stored string is used as it is
    ensures key in store && store[key] != "" ==> text == store[key]
    // a missing key and an empty stored string both fall back to the serialised initial value
    ensures key !in store || store[key] == "" ==> text == c.encode(initialValue)
    // so the parser never sees an empty string from storage
    ensures text == "" ==> text == c.encode(initialValue)
  {
    if key in store && store[key] != "" then store[key] else c.encode(initialValue)
  }

  /** The lazy initialiser of useState: parse what is stored, or the serialised initial value. */
  function Hydrate<T>(store: Store, key: string, initialValue: T, c: Codec<T>): (r: Result<T, ParseError>)
    // a non-empty stored string is parsed; if it does not parse, hydration throws
    ensures key in store && store[key] != "" ==>
      match c.decode(store[key])
      case Some(v) => r == Ok(v)
      case None => r == Err(SyntaxError(store[key]))
    // nothing usable stored: the initial value, provided it survives serialisation
    ensures (key !in store || store[key] == "") && c.decode(c.encode(initialValue)) == Some(initialValue) ==>
      r == Ok(initialValue)
  {
    var text := StoredOrInitial(store, key, initialValue, c);
    match c.decode(text)
    case Some(v) => Ok(v)
    case None => Err(SyntaxError(text))
  }

  /** The effect body `localStorage.setItem(key, JSON.stringify(value))`. */
  function Persist<T>(store: Store, key: string, value: T, c: Codec<T>): (r: Store)
    ensures key in r && r[key] == c.encode(value)
    ensures r.Keys == store.Keys + {key}
    ensures forall k :: k in store && k != key ==> r[k] == store[k]
  {
    store[key := c.encode(value)]
  }

  /** Writing a value and reading it back with a faithful codec yields the value, whatever the initial value. */
  lemma PersistThenHydrate<T(!new)>(store: Store, key: string, value: T, initialValue: T, c: Codec<T>)
    requires Faithful(c)
    ensures Hydrate(Persist(store, key, value, c), key, initialValue, c) == Ok(value)
  {
    assert c.encode(value) != "" && c.decode(c.encode(value)) == Some(value);
  }

  /** The argument of a state setter: a new value, or an updater applied to the previous one. */
  datatype SetStateAction<!T> = Replace(next: T) | Update(apply: T -> T)

  function Resolve<T>(action: SetStateAction<T>, prev: T): T {
    match action
    case Replace(next) => next
    case Update(apply) => apply(prev)
  }

  /** The hook's state: its key, its current value and the storage as the browser holds it. */
  datatype Hook<T> = Hook(key: string, value: T, store: Store)

  /** Storage holds the serialisation of the current value under the hook's key. */
  predicate Synced<T>(h: Hook<T>, c: Codec<T>) {
    h.key in h.store && h.store[h.key] == c.encode(h.value)
  }

  /**
   * Mounting the hook: hydrate (which may throw), then the effect runs once
   * after the first render and writes the value back. No other key is touched.
   */
  function Mount<T>(store: Store, key: string, initialValue: T, c: Codec<T>): (r: Result<Hook<T>, ParseError>)
    ensures r.Ok? <==> Hydrate(store, key, initialValue, c).Ok?
    ensures r.Err? ==> r.error == Hydrate(store, key, initialValue, c).error
    ensures r.Ok? ==> r.value.key == key && r.value.value == Hydrate(store, key, initialValue, c).value
    ensures r.Ok? ==> Synced(r.value, c)
    ensures r.Ok? ==> r.value.store.Keys == store.Keys + {key}
    ensures r.Ok? ==> forall k :: k in store && k != key ==> r.value.store[k] == store[k]
  {
    match Hydrate(store, key, initialValue, c)
    case Ok(v) => Ok(Hook(key, v, Persist(store, key, v, c)))
    case Err(e) => Err(e)
  }

  /** Calling the setter: the new value is stored, and the effect writes it back under the same key only. */
  function SetValue<T>(h: Hook<T>, action: SetStateAction<T>, c: Codec<T>): (r: Hook<T>)
    ensures r.key == h.key
    ensures r.value == Resolve(action, h.value)
    ensures Synced(r, c)
    ensures r.store.Keys == h.store.Keys + {h.key}
    ensures forall k :: k in h.store && k != h.key ==> r.store[k] == h.store[k]
  {
    var next := Resolve(action, h.value);
    Hook(h.key, next, Persist(h.store, h.key, next, c))
  }

  /**
   * The effect re-runs only when the value changes under `Object.is`. With storage in sync, the
   * write the model performs for an unchanged value leaves the hook exactly
   * as it was, so the two differ only when storage was changed from outside.
   */
  lemma SetValueUnchangedIsNoOp<T>(h: Hook<T>, action: SetStateAction<T>, c: Codec<T>)
    requires Synced(h, c)
    requires Resolve(action, h.value) == h.value
    ensures SetValue(h, action, c) == h
  {
  }

  /** Reloading the page when storage is in sync re-creates exactly the same hook state. */
  lemma ReloadRestores<T(!new)>(h: Hook<T>, initialValue: T, c: Codec<T>)
    requires Faithful(c)
    requires Synced(h, c)
    ensures Mount(h.store, h.key, initialValue, c) == Ok(h)
  {
    assert c.encode(h.value) != "" && c.decode(c.encode(h.value)) == Some(h.value);
    assert h.store[h.key := c.encode(h.value)] == h.store;
  }
}
