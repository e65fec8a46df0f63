/** `useLocalStorage`: a state slot initialised from one key of the browser's
    local storage and written back to that key whenever it changes. */
module Storage {
  import opened Option

  /** The storage of one origin. `available` is false where every access
      throws (storage disabled or blocked); `capacity` is the longest value
      `setItem` accepts, a longer one throwing as a quota error does. */
  class LocalStorage {
    var items: map<string, string>
    var available: bool
    var capacity: nat

    constructor (items: map<string, string>, available: bool, capacity: nat)
      ensures this.items == items && this.available == available && this.capacity == capacity
    {
      this.items := items;
      this.available := available;
      this.capacity := capacity;
    }

    /** `setItem(key, text)`; `ok` is false when the call throws, and then nothing changes. */
    method SetItem(key: string, text: string) returns (ok: bool)
      modifies this
      ensures ok == (available && |text| <= capacity)
      ensures items == Written(old(items), available, capacity, key, text)
      ensures available == old(available) && capacity == old(capacity)
    {
      ok := available && |text| <= capacity;
      if ok {
        items := items[key := text];
      }
    }

    /** `removeItem(key)`; `ok` is false when the call throws, and then nothing changes. */
    method RemoveItem(key: string) returns (ok: bool)
      modifies this
      ensures ok == available
      ensures items == if ok then old(items) - {key} else old(items)
      ensures key !in items || !ok
      ensures available == old(available) && capacity == old(capacity)
    {
      ok := available;
      if ok {
        items := items - {key};
      }
    }
  }

  /** The storage contents after `setItem(key, text)`, whether or not it throws. */
  function Written(items: map<string, string>, available: bool, capacity: nat, key: string, text: string): map<string, string> {
    if available && |text| <= capacity then items[key := text] else items
  }

  /** The lazy initialiser: the initial value unless storage answers with a
      non-empty item that `decode` (JSON.parse) accepts, in which case the
      decoded item. */
  function Load<T>(items: map<string, string>, available: bool, key: string, initial: T,
                   decode: string -> Option<T>): (r: T)
    // The first clause is a one-line summary; the next two fix the result case by case.
    ensures r == initial || (available && key in items && items[key] != "" && decode(items[key]) == Some(r))
    ensures !available || key !in items || items[key] == "" || decode(items[key]).None? ==> r == initial
    ensures available && key in items && items[key] != "" && decode(items[key]).Some? ==> r == decode(items[key]).value
  {
    if !available || key !in items || items[key] == "" then initial
    else decode(items[key]).GetOr(initial)
  }

  /** A value written and accepted is what the next load returns, provided
      the codec round-trips it and its text is not empty. */
  lemma LoadAfterWrite<T>(items: map<string, string>, available: bool, capacity: nat, key: string,
                          initial: T, decode: string -> Option<T>, text: string, v: T)
    requires available && |text| <= capacity
    requires text != "" && decode(text) == Some(v)
    ensures Load(Written(items, available, capacity, key, text), available, key, initial, decode) == v
  {
  }

  /** Other keys are untouched by a write. */
  lemma WriteKeepsOthers(items: map<string, string>, available: bool, capacity: nat, key: string,
                         text: string, other: string)
    requires other != key
    ensures other in Written(items, available, capacity, key, text) <==> other in items
    ensures other in items ==> Written(items, available, capacity, key, text)[other] == items[other]
  {
  }

  /** After the key is removed, the next load falls back to the initial value. */
  lemma LoadAfterRemove<T>(items: map<string, string>, available: bool, key: string,
                           initial: T, decode: string -> Option<T>)
    ensures Load(items - {key}, available, key, initial, decode) == initial
  {
  }

  /** The state slot together with the effect that persists it. */
  class PersistedValue<T> {
    const storage: LocalStorage
    const key: string
    const encode: T -> string
    var value: T

    /** Mounting: the value is loaded, then the mount effect writes it back. */
    constructor (storage: LocalStorage, key: string, initial: T,
                 decode: string -> Option<T>, encode: T -> string)
      modifies storage
      ensures this.storage == storage && this.key == key && this.encode == encode
      ensures value == Load(old(storage.items), old(storage.available), key, initial, decode)
      ensures storage.items == Written(old(storage.items), storage.available, storage.capacity, key, encode(value))
      ensures storage.available == old(storage.available) && storage.capacity == old(storage.capacity)
    {
      this.storage := storage;
      this.key := key;
      this.encode := encode;
      value := Load(storage.items, storage.available, key, initial, decode);
      new;
      Persist();
    }

    /** The effect: `setItem(key, JSON.stringify(value))`, a throw being swallowed. */
    method Persist()
      modifies storage
      ensures storage.items == Written(old(storage.items), storage.available, storage.capacity, key, encode(value))
      ensures storage.available == old(storage.available) && storage.capacity == old(storage.capacity)
    {
      var _ := storage.SetItem(key, encode(value));
    }

    /** `setValue(v)` followed by the effect it triggers. The in-memory value
        is `v` whether or not the write is accepted. */
    method Set(v: T)
      modifies this, storage
      ensures value == v
      ensures storage.items == Written(old(storage.items), storage.available, storage.capacity, key, encode(v))
      ensures storage.available == old(storage.available) && storage.capacity == old(storage.capacity)
    {
      value := v;
      Persist();
    }
  }
}
