/**
 Value-level meaning of the in-process cache: the physical store with its namespace
 index, and the plain TTL log that callers are entitled to see.
 */
module CacheSpec {
  import opened Prelude

  type Key = string
  type Name = string
  type Time = int

  datatype Item = Item(data: Bytes, expires: Time)

  type Items = map<Key, Item>

  /** The JSON functions the store calls; their internals do not matter here. */
  datatype Codec = Codec(valid: Bytes -> bool, decode: Bytes -> Option<Bytes>)

  datatype Outcome =
    | Done
    | Value(decoded: Bytes)
    | Raw(data: Bytes)
    | Flag(changed: bool)
    | ErrNotFound
    | ErrCapacity
    | ErrContext
    | ErrDecode
    | ErrMarshal
    | ErrInvalidJSON

  /** The store's contents. `spaces` is the namespace index without its empty member maps. */
  datatype Store = Store(items: Items, spaces: map<Name, map<Key, Time>>, limit: nat)

  function LiveAt(items: Items, key: Key, now: Time): bool {
    key in items && now < items[key].expires
  }

  /** The entries a caller can still observe at `now`. */
  function Live(items: Items, now: Time): Items {
    map k | k in items && now < items[k].expires :: items[k]
  }

  function Members(st: Store, name: Name): map<Key, Time> {
    if name in st.spaces then st.spaces[name] else map[]
  }

  function WithMembers(st: Store, name: Name, members: map<Key, Time>): Store {
    st.(spaces := if members == map[] then st.spaces - {name} else st.spaces[name := members])
  }

  /** Forgets keys in the items and in every namespace. */
  function Drop(st: Store, keys: set<Key>): Store {
    st.(items := st.items - keys,
        spaces := map n | n in st.spaces && st.spaces[n] - keys != map[] :: st.spaces[n] - keys)
  }

  /** Forgets one key in the items and in one namespace only. */
  function DropFrom(st: Store, name: Name, key: Key): Store {
    WithMembers(st.(items := st.items - {key}), name, Members(st, name) - {key})
  }

  function Expired(items: Items, now: Time): set<Key> {
    set k | k in items && items[k].expires <= now
  }

  /** The store after an eviction, which happens only when it is full. */
  function Evicted(st: Store, now: Time): Store {
    if |st.items| >= st.limit then Drop(st, Expired(st.items, now)) else st
  }

  // ---------------------------------------------------------------- plain operations

  function Decoded(codec: Codec, data: Bytes): Outcome {
    match codec.decode(data)
    case Some(v) => Value(v)
    case None => ErrDecode
  }

  function GetStep(st: Store, codec: Codec, key: Key, now: Time, cancelled: bool): (Store, Outcome) {
    if cancelled then (st, ErrContext)
    else if LiveAt(st.items, key, now) then (st, Decoded(codec, st.items[key].data))
    else (Drop(st, {key}), ErrNotFound)
  }

  function DropIfPresent(st: Store, key: Key): Store {
    if key in st.items then Drop(st, {key}) else st
  }

  function GetRawStep(st: Store, key: Key, now: Time, cancelled: bool): (Store, Outcome) {
    if cancelled then (st, ErrContext)
    else if LiveAt(st.items, key, now) then (st, Raw(st.items[key].data))
    else (DropIfPresent(st, key), ErrNotFound)
  }

  function SetStep(st: Store, key: Key, data: Option<Bytes>, now: Time, ttl: int): (Store, Outcome) {
    if data.None? then (st, ErrMarshal)
    else
      var st1 := if key in st.items then st else Evicted(st, now);
      if key !in st1.items && |st1.items| >= st1.limit then (st1, ErrCapacity)
      else (st1.(items := st1.items[key := Item(data.value, now + ttl)]), Done)
  }

  function DeleteStep(st: Store, key: Key): (Store, Outcome) {
    (Drop(st, {key}), Done)
  }

  function ConsumeStep(st: Store, codec: Codec, key: Key, now: Time, cancelled: bool): (Store, Outcome) {
    if cancelled then (st, ErrContext)
    else (Drop(st, {key}),
          if LiveAt(st.items, key, now) then Decoded(codec, st.items[key].data) else ErrNotFound)
  }

  function CasStep(st: Store, codec: Codec, key: Key, expected: Bytes, replacement: Bytes, now: Time, cancelled: bool)
    : (Store, Outcome)
  {
    if cancelled then (st, ErrContext)
    else if !LiveAt(st.items, key, now) then (DropIfPresent(st, key), Flag(false))
    else if st.items[key].data != expected then (st, Flag(false))
    else if !codec.valid(replacement) then (st, ErrInvalidJSON)
    else (st.(items := st.items[key := st.items[key].(data := replacement)]), Flag(true))
  }

  function CadStep(st: Store, key: Key, expected: Bytes, now: Time, cancelled: bool): (Store, Outcome) {
    if cancelled then (st, ErrContext)
    else if !LiveAt(st.items, key, now) then (DropIfPresent(st, key), Flag(false))
    else if st.items[key].data != expected then (st, Flag(false))
    else (Drop(st, {key}), Flag(true))
  }

  // ---------------------------------------------------------------- namespaced operations

  /** The members of `name` that survive the sweep at the start of an admission. */
  function SweptMembers(st: Store, name: Name, now: Time): map<Key, Time> {
    var members := Members(st, name);
    map k | k in members && now < members[k] && LiveAt(st.items, k, now) :: members[k]
  }

  function SweptItems(st: Store, name: Name, now: Time): set<Key> {
    set k | k in Members(st, name) && k in st.items && st.items[k].expires <= now
  }

  function Swept(st: Store, name: Name, now: Time): Store {
    WithMembers(st.(items := st.items - SweptItems(st, name, now)), name, SweptMembers(st, name, now))
  }

  function Written(st: Store, name: Name, key: Key, item: Item): Store {
    WithMembers(st.(items := st.items[key := item]), name, Members(st, name)[key := item.expires])
  }

  /** Makes a slot for a key that is not live, after the sweep; false means no capacity. */
  function Admit(st: Store, name: Name, key: Key, now: Time, limit: int): (Store, bool) {
    var st1 := st.(items := st.items - {key});
    if |Members(st, name)| >= limit then (st1, false)
    else
      var st2 := Evicted(st1, now);
      (st2, |st2.items| < st2.limit)
  }

  function NamespaceSetStep(st: Store, name: Name, key: Key, data: Option<Bytes>, now: Time, ttl: int, limit: int)
    : (Store, Outcome)
  {
    if data.None? then (st, ErrMarshal)
    else
      var st1 := Swept(st, name, now);
      var (st2, ok) :=
        if LiveAt(st1.items, key, now)
        then (st1, key in Members(st1, name) || |Members(st1, name)| < limit)
        else Admit(st1, name, key, now, limit);
      if ok then (Written(st2, name, key, Item(data.value, now + ttl)), Done) else (st2, ErrCapacity)
  }

  function NamespaceDeleteStep(st: Store, name: Name, key: Key): (Store, Outcome) {
    (DropFrom(st, name, key), Done)
  }

  function NamespaceConsumeStep(st: Store, codec: Codec, name: Name, key: Key, now: Time): (Store, Outcome) {
    (DropFrom(st, name, key),
     if LiveAt(st.items, key, now) then Decoded(codec, st.items[key].data) else ErrNotFound)
  }

  /** Unlike the plain swap, this one rejects an invalid replacement before it looks at the key. */
  function NamespaceCasStep(st: Store, codec: Codec, key: Key, expected: Bytes, replacement: Bytes, now: Time, cancelled: bool)
    : (Store, Outcome)
  {
    if !cancelled && !codec.valid(replacement) then (st, ErrInvalidJSON)
    else CasStep(st, codec, key, expected, replacement, now, cancelled)
  }

  function NamespaceCadStep(st: Store, name: Name, key: Key, expected: Bytes, now: Time, cancelled: bool): (Store, Outcome) {
    if !cancelled && LiveAt(st.items, key, now) && st.items[key].data == expected
    then (DropFrom(st, name, key), Flag(true))
    else CadStep(st, key, expected, now, cancelled)
  }
}
