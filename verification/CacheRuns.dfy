/**
 Whole runs of the cache. The physical store, with its lazy eviction and its namespace
 index, is compared with a log that has neither: a plain map from keys to what was last
 written, where an entry is visible until it expires.
 */
module CacheRuns {
  import opened Prelude
  import opened CacheSpec

  /** A declared namespace: its key prefix and its quota. */
  datatype Space = Space(prefix: Key, quota: nat)

  type Config = map<Name, Space>

  datatype Op =
    | Get(key: Key)
    | GetRaw(key: Key)
    | Set(key: Key, data: Option<Bytes>, ttl: int)
    | Delete(key: Key)
    | Consume(key: Key)
    | Cas(key: Key, expected: Bytes, replacement: Bytes)
    | Cad(key: Key, expected: Bytes)
    | NsSet(name: Name, suffix: Key, data: Option<Bytes>, ttl: int)
    | NsDelete(name: Name, suffix: Key)
    | NsConsume(name: Name, suffix: Key)
    | NsCas(name: Name, suffix: Key, expected: Bytes, replacement: Bytes)
    | NsCad(name: Name, suffix: Key, expected: Bytes)

  /** One call, made under the lock at time `now`, with a live or a cancelled context. */
  datatype Event = Event(op: Op, now: Time, cancelled: bool)

  predicate Owns(cfg: Config, name: Name, key: Key) {
    name in cfg && cfg[name].prefix <= key
  }

  /** No full key can belong to two namespaces. */
  predicate PrefixFree(cfg: Config) {
    forall a, b :: a in cfg && b in cfg && a != b ==> !(cfg[a].prefix <= cfg[b].prefix)
  }

  /** Namespaced calls name a declared namespace; plain writes stay out of all of them. */
  predicate Disciplined(cfg: Config, op: Op) {
    match op
    case Set(key, _, _) => forall n :: n in cfg ==> !Owns(cfg, n, key)
    case NsSet(name, _, _, _) => name in cfg
    case NsDelete(name, _) => name in cfg
    case NsConsume(name, _) => name in cfg
    case NsCas(name, _, _, _) => name in cfg
    case NsCad(name, _, _) => name in cfg
    case _ => true
  }

  function FullKey(cfg: Config, op: Op): Key
    requires Disciplined(cfg, op)
  {
    if op.NsSet? || op.NsDelete? || op.NsConsume? || op.NsCas? || op.NsCad?
    then cfg[op.name].prefix + op.suffix
    else op.key
  }

  // ---------------------------------------------------------------- the two machines

  function Step(st: Store, cfg: Config, codec: Codec, ev: Event): (Store, Outcome)
    requires Disciplined(cfg, ev.op)
  {
    var k := FullKey(cfg, ev.op);
    match ev.op
    case Get(_) => GetStep(st, codec, k, ev.now, ev.cancelled)
    case GetRaw(_) => GetRawStep(st, k, ev.now, ev.cancelled)
    case Set(_, data, ttl) => SetStep(st, k, data, ev.now, ttl)
    case Delete(_) => DeleteStep(st, k)
    case Consume(_) => ConsumeStep(st, codec, k, ev.now, ev.cancelled)
    case Cas(_, expected, replacement) => CasStep(st, codec, k, expected, replacement, ev.now, ev.cancelled)
    case Cad(_, expected) => CadStep(st, k, expected, ev.now, ev.cancelled)
    case NsSet(name, _, data, ttl) => NamespaceSetStep(st, name, k, data, ev.now, ttl, cfg[name].quota)
    case NsDelete(name, _) => NamespaceDeleteStep(st, name, k)
    case NsConsume(name, _) => NamespaceConsumeStep(st, codec, name, k, ev.now)
    case NsCas(_, _, expected, replacement) => NamespaceCasStep(st, codec, k, expected, replacement, ev.now, ev.cancelled)
    case NsCad(name, _, expected) => NamespaceCadStep(st, name, k, expected, ev.now, ev.cancelled)
  }

  /** The live keys under a prefix. */
  function LiveUnder(log: Items, now: Time, prefix: Key): set<Key> {
    set k | k in log && now < log[k].expires && prefix <= k
  }

  function Read(log: Items, codec: Codec, key: Key, now: Time): Outcome {
    if LiveAt(log, key, now) then Decoded(codec, log[key].data) else ErrNotFound
  }

  predicate Matches(log: Items, key: Key, expected: Bytes, now: Time) {
    LiveAt(log, key, now) && log[key].data == expected
  }

  function Ignores(op: Op): bool {
    op.Set? || op.Delete? || op.NsSet? || op.NsDelete? || op.NsConsume?
  }

  /** A write into the log; a new live key is refused when `full`. */
  function LogWrite(log: Items, key: Key, data: Option<Bytes>, now: Time, ttl: int, full: bool): (Items, Outcome) {
    if data.None? then (log, ErrMarshal)
    else if !LiveAt(log, key, now) && full then (log, ErrCapacity)
    else (log[key := Item(data.value, now + ttl)], Done)
  }

  function LogSwap(log: Items, codec: Codec, key: Key, expected: Bytes, replacement: Bytes, now: Time): (Items, Outcome) {
    if !Matches(log, key, expected, now) then (log, Flag(false))
    else if !codec.valid(replacement) then (log, ErrInvalidJSON)
    else (log[key := Item(replacement, log[key].expires)], Flag(true))
  }

  function LogTake(log: Items, key: Key, expected: Bytes, now: Time): (Items, Outcome) {
    if Matches(log, key, expected, now) then (log - {key}, Flag(true)) else (log, Flag(false))
  }

  predicate NamespaceFull(log: Items, cfg: Config, name: Name, now: Time)
    requires name in cfg
  {
    |LiveUnder(log, now, cfg[name].prefix)| >= cfg[name].quota
  }

  predicate StoreFull(log: Items, cap: nat, now: Time) {
    |Live(log, now)| >= cap
  }

  /** The log machine: no eviction and no index, only writes, removals and expiry. */
  function LogStep(log: Items, cap: nat, cfg: Config, codec: Codec, ev: Event): (Items, Outcome)
    requires Disciplined(cfg, ev.op)
  {
    var k, now := FullKey(cfg, ev.op), ev.now;
    if ev.cancelled && !Ignores(ev.op) then (log, ErrContext)
    else
      match ev.op
      case Get(_) => (log, Read(log, codec, k, now))
      case GetRaw(_) => (log, if LiveAt(log, k, now) then Raw(log[k].data) else ErrNotFound)
      case Set(_, data, ttl) => LogWrite(log, k, data, now, ttl, StoreFull(log, cap, now))
      case Delete(_) => (log - {k}, Done)
      case Consume(_) => (log - {k}, Read(log, codec, k, now))
      case Cas(_, expected, replacement) => LogSwap(log, codec, k, expected, replacement, now)
      case Cad(_, expected) => LogTake(log, k, expected, now)
      case NsSet(name, _, data, ttl) =>
        LogWrite(log, k, data, now, ttl, NamespaceFull(log, cfg, name, now) || StoreFull(log, cap, now))
      case NsDelete(_, _) => (log - {k}, Done)
      case NsConsume(_, _) => (log - {k}, Read(log, codec, k, now))
      case NsCas(_, _, expected, replacement) =>
        if !codec.valid(replacement) then (log, ErrInvalidJSON)
        else LogSwap(log, codec, k, expected, replacement, now)
      case NsCad(_, _, expected) => LogTake(log, k, expected, now)
  }

  // ---------------------------------------------------------------- the index invariant

  /** The member map of one name agrees with the items it owns, and fits its quota. */
  ghost predicate NameOk(cfg: Config, n: Name, items: Items, members: map<Key, Time>) {
    && (forall k :: k in members <==> Owns(cfg, n, k) && k in items)
    && (forall k :: k in members ==> items[k].expires == members[k])
    && (n in cfg ==> |members| <= cfg[n].quota)
  }

  /** The index agrees with the items, and nothing is over its limit. */
  ghost predicate Inv(st: Store, cfg: Config) {
    && (forall n {:trigger NameOk(cfg, n, st.items, Members(st, n))} :: NameOk(cfg, n, st.items, Members(st, n)))
    && |st.items| <= st.limit
  }

  /** The two machines show the same entries from `now` on. */
  ghost predicate Same(items: Items, log: Items, now: Time) {
    forall k :: (LiveAt(items, k, now) <==> LiveAt(log, k, now)) && (LiveAt(log, k, now) ==> items[k] == log[k])
  }

  /** One step of each machine: same answer, same visible entries, invariant kept. */
  ghost predicate Tied(st: Store, a: (Store, Outcome), b: (Items, Outcome), cfg: Config, now: Time) {
    a.1 == b.1 && Inv(a.0, cfg) && Same(a.0.items, b.0, now) && a.0.limit == st.limit
  }

  lemma MembersDrop(st: Store, keys: set<Key>, n: Name)
    ensures Members(Drop(st, keys), n) == Members(st, n) - keys
  {
  }

  lemma MembersWith(st: Store, name: Name, m: map<Key, Time>, n: Name)
    ensures Members(WithMembers(st, name, m), n) == if n == name then m else Members(st, n)
  {
  }

  lemma MapSizes<V, W>(a: map<Key, V>, b: map<Key, W>)
    requires a.Keys <= b.Keys
    ensures |a| <= |b|
    ensures |a| == |b| ==> a.Keys == b.Keys
  {
    SubsetSize(a.Keys, b.Keys);
    assert |a.Keys| == |a| && |b.Keys| == |b|;
  }

  lemma NameOkDrop(cfg: Config, n: Name, items: Items, members: map<Key, Time>, keys: set<Key>)
    requires NameOk(cfg, n, items, members)
    ensures NameOk(cfg, n, items - keys, members - keys)
  {
    MapSizes(members - keys, members);
  }

  lemma DropKeepsInv(st: Store, cfg: Config, keys: set<Key>)
    requires Inv(st, cfg)
    ensures Inv(Drop(st, keys), cfg)
  {
    var st' := Drop(st, keys);
    forall n
      ensures NameOk(cfg, n, st'.items, Members(st', n))
    {
      MembersDrop(st, keys, n);
      NameOkDrop(cfg, n, st.items, Members(st, n), keys);
    }
    MapSizes(st'.items, st.items);
  }

  lemma PrefixesNest(p: Key, q: Key, key: Key)
    requires p <= key && q <= key
    ensures p <= q || q <= p
  {
    assert p == key[..|p|] && q == key[..|q|];
  }

  /** A key that belongs to one namespace belongs to no other. */
  lemma OneOwner(cfg: Config, a: Name, key: Key)
    requires PrefixFree(cfg) && Owns(cfg, a, key)
    ensures forall b :: Owns(cfg, b, key) ==> b == a
  {
    forall b | Owns(cfg, b, key) {
      PrefixesNest(cfg[a].prefix, cfg[b].prefix, key);
    }
  }

  lemma NotMine(st: Store, cfg: Config, name: Name, n: Name, keys: set<Key>)
    requires Inv(st, cfg) && PrefixFree(cfg) && n != name
    requires forall k :: k in keys ==> Owns(cfg, name, k)
    ensures Members(st, n) - keys == Members(st, n)
  {
    assert NameOk(cfg, n, st.items, Members(st, n));
    forall k | k in keys
      ensures k !in Members(st, n)
    {
      OneOwner(cfg, name, k);
    }
  }

  /** The invariant name by name, for a store with one member map replaced. */
  lemma InvWith(st: Store, cfg: Config, name: Name, m: map<Key, Time>)
    requires |st.items| <= st.limit
    requires NameOk(cfg, name, st.items, m)
    requires forall n :: n != name ==> NameOk(cfg, n, st.items, Members(st, n))
    ensures Inv(WithMembers(st, name, m), cfg)
  {
    var st' := WithMembers(st, name, m);
    forall n
      ensures NameOk(cfg, n, st'.items, Members(st', n))
    {
      MembersWith(st, name, m, n);
    }
  }

  /** Removing keys of one namespace from the items and from its own members only. */
  lemma DropOwnKeepsInv(st: Store, cfg: Config, name: Name, keys: set<Key>)
    requires Inv(st, cfg) && PrefixFree(cfg)
    requires forall k :: k in keys ==> Owns(cfg, name, k)
    ensures Inv(WithMembers(st.(items := st.items - keys), name, Members(st, name) - keys), cfg)
  {
    var st1 := st.(items := st.items - keys);
    forall n
      ensures NameOk(cfg, n, st1.items, Members(st, n) - keys)
      ensures n != name ==> Members(st1, n) == Members(st, n) - keys
    {
      NameOkDrop(cfg, n, st.items, Members(st, n), keys);
      if n != name {
        NotMine(st, cfg, name, n, keys);
      }
    }
    MapSizes(st1.items, st.items);
    InvWith(st1, cfg, name, Members(st, name) - keys);
  }

  /** Storing an item keeps the index right if nobody owns the key, or the expiry stays. */
  lemma StoreItemKeepsInv(st: Store, cfg: Config, key: Key, item: Item)
    requires Inv(st, cfg)
    requires key in st.items || |st.items| < st.limit
    requires (forall n :: !Owns(cfg, n, key)) || (key in st.items && st.items[key].expires == item.expires)
    ensures Inv(st.(items := st.items[key := item]), cfg)
  {
    var st' := st.(items := st.items[key := item]);
    forall n
      ensures NameOk(cfg, n, st'.items, Members(st', n))
    {
      assert NameOk(cfg, n, st.items, Members(st, n));
      assert Members(st', n) == Members(st, n);
    }
    if key in st.items {
      assert st.items[key := item].Keys == st.items.Keys;
      MapSizes(st.items[key := item], st.items);
    }
  }

  /** Writing through the namespace keeps the index right when there is a slot for the key. */
  lemma WrittenKeepsInv(st: Store, cfg: Config, name: Name, key: Key, item: Item)
    requires Inv(st, cfg) && PrefixFree(cfg) && Owns(cfg, name, key)
    requires key in st.items || (|st.items| < st.limit && |Members(st, name)| < cfg[name].quota)
    ensures Inv(Written(st, name, key, item), cfg)
  {
    var st1 := st.(items := st.items[key := item]);
    var m, m' := Members(st, name), Members(st, name)[key := item.expires];
    OneOwner(cfg, name, key);
    assert NameOk(cfg, name, st.items, m);
    forall n | n != name
      ensures NameOk(cfg, n, st1.items, Members(st1, n))
    {
      assert NameOk(cfg, n, st.items, Members(st, n));
    }
    if key in st.items {
      MapSizes(m', m);
      MapSizes(st1.items, st.items);
    }
    InvWith(st1, cfg, name, m');
  }

  lemma SweepOneName(st: Store, cfg: Config, name: Name, now: Time)
    requires NameOk(cfg, name, st.items, Members(st, name)) && name in cfg
    ensures SweptMembers(st, name, now) == Members(st, name) - SweptItems(st, name, now)
    ensures SweptMembers(st, name, now).Keys == LiveUnder(st.items, now, cfg[name].prefix)
    ensures Same(st.items - SweptItems(st, name, now), st.items, now)
    ensures forall k :: k in SweptItems(st, name, now) ==> Owns(cfg, name, k)
  {
  }

  /** After the sweep the members of `name` are exactly its live keys, and nothing visible changed. */
  lemma SweptIsLive(st: Store, cfg: Config, name: Name, now: Time)
    requires Inv(st, cfg) && PrefixFree(cfg) && name in cfg
    ensures var st1 := Swept(st, name, now);
            && Inv(st1, cfg)
            && Members(st1, name).Keys == LiveUnder(st.items, now, cfg[name].prefix)
            && Same(st1.items, st.items, now)
            && st1.limit == st.limit
  {
    SweepOneName(st, cfg, name, now);
    DropOwnKeepsInv(st, cfg, name, SweptItems(st, name, now));
    MembersWith(st.(items := st.items - SweptItems(st, name, now)), name, SweptMembers(st, name, now), name);
  }

  /** Evicting everything that has expired changes nothing visible and leaves only live items. */
  lemma EvictedIsLive(st: Store, cfg: Config, now: Time)
    requires Inv(st, cfg)
    ensures var st1 := Drop(st, Expired(st.items, now));
            Inv(st1, cfg) && Same(st1.items, st.items, now) && st1.items == Live(st.items, now)
  {
    DropKeepsInv(st, cfg, Expired(st.items, now));
  }

  lemma SameLive(items: Items, log: Items, now: Time, later: Time)
    requires Same(items, log, now) && now <= later
    ensures Same(items, log, later)
    ensures Live(items, now) == Live(log, now)
    ensures forall p :: LiveUnder(items, now, p) == LiveUnder(log, now, p)
  {
    forall k
      ensures LiveAt(items, k, later) ==> LiveAt(items, k, now)
      ensures LiveAt(log, k, later) ==> LiveAt(log, k, now)
    {
    }
    forall p
      ensures LiveUnder(items, now, p) == LiveUnder(log, now, p)
    {
      forall k
        ensures k in LiveUnder(items, now, p) <==> k in LiveUnder(log, now, p)
      {
        assert LiveAt(items, k, now) <==> LiveAt(log, k, now);
      }
    }
  }

  lemma EvictedMembers(st: Store, name: Name, now: Time)
    ensures |Members(Drop(st, Expired(st.items, now)), name)| <= |Members(st, name)|
  {
    MembersDrop(st, Expired(st.items, now), name);
    MapSizes(Members(st, name) - Expired(st.items, now), Members(st, name));
  }

  /** What the two capacity tests of an admission decide, on items of which `key` is not one. */
  lemma RoomIsExact(st: Store, cfg: Config, name: Name, now: Time)
    requires Inv(st, cfg)
    ensures var st2 := Evicted(st, now);
            && Inv(st2, cfg) && Same(st2.items, st.items, now) && st2.limit == st.limit
            && (|st2.items| < st2.limit <==> |Live(st.items, now)| < st.limit)
            && |Members(st2, name)| <= |Members(st, name)|
  {
    MapSizes(Live(st.items, now), st.items);
    EvictedIsLive(st, cfg, now);
    EvictedMembers(st, name, now);
  }

  lemma DeadIsAbsent(st: Store, cfg: Config, name: Name, key: Key, now: Time)
    requires Inv(st, cfg) && Owns(cfg, name, key) && !LiveAt(st.items, key, now)
    requires Members(st, name).Keys == LiveUnder(st.items, now, cfg[name].prefix)
    ensures key !in st.items
  {
    assert NameOk(cfg, name, st.items, Members(st, name));
    assert key in Members(st, name).Keys ==> LiveAt(st.items, key, now);
  }

  /** A dead key gets a slot exactly when neither the namespace nor the store is full of live entries. */
  lemma AdmitIsExact(st: Store, cfg: Config, name: Name, key: Key, now: Time)
    requires Inv(st, cfg) && PrefixFree(cfg) && Owns(cfg, name, key) && !LiveAt(st.items, key, now)
    requires Members(st, name).Keys == LiveUnder(st.items, now, cfg[name].prefix)
    ensures var (st2, ok) := Admit(st, name, key, now, cfg[name].quota);
            && Inv(st2, cfg) && Same(st2.items, st.items, now) && st2.limit == st.limit
            && (ok <==> |LiveUnder(st.items, now, cfg[name].prefix)| < cfg[name].quota && |Live(st.items, now)| < st.limit)
            && (ok ==> |st2.items| < st2.limit && |Members(st2, name)| < cfg[name].quota)
  {
    DeadIsAbsent(st, cfg, name, key, now);
    assert st.(items := st.items - {key}) == st by {
      assert st.items - {key} == st.items;
    }
    assert |Members(st, name)| == |Members(st, name).Keys|;
    RoomIsExact(st, cfg, name, now);
  }

  lemma NamespaceSetAgrees(st: Store, log: Items, cfg: Config, name: Name, key: Key, data: Option<Bytes>, now: Time, ttl: int)
    requires Inv(st, cfg) && PrefixFree(cfg) && Owns(cfg, name, key) && Same(st.items, log, now)
    ensures Tied(st, NamespaceSetStep(st, name, key, data, now, ttl, cfg[name].quota),
                 LogWrite(log, key, data, now, ttl, NamespaceFull(log, cfg, name, now) || StoreFull(log, st.limit, now)),
                 cfg, now)
  {
    if data.None? {
      return;
    }
    var st1, item := Swept(st, name, now), Item(data.value, now + ttl);
    SweptIsLive(st, cfg, name, now);
    SameTrans(st1.items, st.items, log, now);
    SameLive(st.items, log, now, now);
    SameLive(st1.items, log, now, now);
    if LiveAt(st1.items, key, now) {
      assert key in Members(st1, name).Keys;
      WrittenAgrees(st1, log, cfg, name, key, item, now);
    } else {
      AdmitIsExact(st1, cfg, name, key, now);
      var (st2, ok) := Admit(st1, name, key, now, cfg[name].quota);
      SameTrans(st2.items, st1.items, log, now);
      if ok {
        WrittenAgrees(st2, log, cfg, name, key, item, now);
      }
    }
  }

  lemma SameTrans(a: Items, b: Items, c: Items, now: Time)
    requires Same(a, b, now) && Same(b, c, now)
    ensures Same(a, c, now)
  {
    forall k
      ensures LiveAt(a, k, now) <==> LiveAt(c, k, now)
      ensures LiveAt(c, k, now) ==> a[k] == c[k]
    {
      assert LiveAt(a, k, now) <==> LiveAt(b, k, now);
    }
  }

  lemma SameStore(items: Items, log: Items, key: Key, item: Item, now: Time)
    requires Same(items, log, now)
    ensures Same(items[key := item], log[key := item], now)
    ensures Same(items - {key}, log - {key}, now)
  {
    assert forall k :: LiveAt(items, k, now) <==> LiveAt(log, k, now);
  }

  lemma WrittenAgrees(st: Store, log: Items, cfg: Config, name: Name, key: Key, item: Item, now: Time)
    requires Inv(st, cfg) && PrefixFree(cfg) && Owns(cfg, name, key) && Same(st.items, log, now)
    requires key in st.items || (|st.items| < st.limit && |Members(st, name)| < cfg[name].quota)
    ensures Inv(Written(st, name, key, item), cfg)
    ensures Same(Written(st, name, key, item).items, log[key := item], now)
  {
    WrittenKeepsInv(st, cfg, name, key, item);
    SameStore(st.items, log, key, item, now);
  }

  // ---------------------------------------------------------------- one step of both machines

  lemma PlainSetAgrees(st: Store, log: Items, cfg: Config, key: Key, data: Option<Bytes>, now: Time, ttl: int)
    requires Inv(st, cfg) && Same(st.items, log, now) && forall n :: !Owns(cfg, n, key)
    ensures Tied(st, SetStep(st, key, data, now, ttl), LogWrite(log, key, data, now, ttl, StoreFull(log, st.limit, now)), cfg, now)
  {
    if data.None? {
      return;
    }
    var item := Item(data.value, now + ttl);
    SameLive(st.items, log, now, now);
    if key in st.items {
      if !LiveAt(log, key, now) {
        assert !LiveAt(st.items, key, now);
        MapSizes(Live(st.items, now), st.items);
      }
      PlainStoreAgrees(st, log, cfg, key, item, now);
    } else {
      assert !LiveAt(st.items, key, now);
      var st1 := Evicted(st, now);
      RoomIsExact(st, cfg, "", now);
      SameTrans(st1.items, st.items, log, now);
      if |st1.items| < st1.limit {
        PlainStoreAgrees(st1, log, cfg, key, item, now);
      }
    }
  }

  lemma PlainStoreAgrees(st: Store, log: Items, cfg: Config, key: Key, item: Item, now: Time)
    requires Inv(st, cfg) && Same(st.items, log, now)
    requires key in st.items || |st.items| < st.limit
    requires (forall n :: !Owns(cfg, n, key)) || (key in st.items && st.items[key].expires == item.expires)
    ensures Inv(st.(items := st.items[key := item]), cfg)
    ensures Same(st.items[key := item], log[key := item], now)
  {
    StoreItemKeepsInv(st, cfg, key, item);
    SameStore(st.items, log, key, item, now);
  }

  lemma DropAgrees(st: Store, log: Items, cfg: Config, key: Key, now: Time)
    requires Inv(st, cfg) && Same(st.items, log, now)
    ensures Inv(Drop(st, {key}), cfg) && Same(Drop(st, {key}).items, log - {key}, now)
    ensures !LiveAt(log, key, now) ==> Same(st.items, log - {key}, now) && Same(Drop(st, {key}).items, log, now)
  {
    DropKeepsInv(st, cfg, {key});
    SameStore(st.items, log, key, Item([], now), now);
    assert LiveAt(st.items, key, now) <==> LiveAt(log, key, now);
  }

  lemma DropFromAgrees(st: Store, log: Items, cfg: Config, name: Name, key: Key, now: Time)
    requires Inv(st, cfg) && PrefixFree(cfg) && Owns(cfg, name, key) && Same(st.items, log, now)
    ensures Inv(DropFrom(st, name, key), cfg) && Same(DropFrom(st, name, key).items, log - {key}, now)
  {
    DropOwnKeepsInv(st, cfg, name, {key});
    SameStore(st.items, log, key, Item([], now), now);
  }

  lemma SwapAgrees(st: Store, log: Items, cfg: Config, codec: Codec, key: Key, expected: Bytes, replacement: Bytes, now: Time)
    requires Inv(st, cfg) && Same(st.items, log, now)
    ensures Tied(st, CasStep(st, codec, key, expected, replacement, now, false),
                 LogSwap(log, codec, key, expected, replacement, now), cfg, now)
  {
    assert LiveAt(st.items, key, now) <==> LiveAt(log, key, now);
    DropAgrees(st, log, cfg, key, now);
    if Matches(log, key, expected, now) {
      PlainStoreAgrees(st, log, cfg, key, Item(replacement, log[key].expires), now);
    }
  }

  lemma TakeAgrees(st: Store, log: Items, cfg: Config, key: Key, expected: Bytes, now: Time)
    requires Inv(st, cfg) && Same(st.items, log, now)
    ensures Tied(st, CadStep(st, key, expected, now, false), LogTake(log, key, expected, now), cfg, now)
  {
    assert LiveAt(st.items, key, now) <==> LiveAt(log, key, now);
    DropAgrees(st, log, cfg, key, now);
  }

  lemma NamespaceTakeAgrees(st: Store, log: Items, cfg: Config, name: Name, key: Key, expected: Bytes, now: Time)
    requires Inv(st, cfg) && PrefixFree(cfg) && Owns(cfg, name, key) && Same(st.items, log, now)
    ensures Tied(st, NamespaceCadStep(st, name, key, expected, now, false), LogTake(log, key, expected, now), cfg, now)
  {
    assert LiveAt(st.items, key, now) <==> LiveAt(log, key, now);
    DropFromAgrees(st, log, cfg, name, key, now);
    TakeAgrees(st, log, cfg, key, expected, now);
  }

  lemma ReadAgrees(st: Store, log: Items, cfg: Config, codec: Codec, key: Key, now: Time)
    requires Inv(st, cfg) && Same(st.items, log, now)
    ensures Tied(st, GetStep(st, codec, key, now, false), (log, Read(log, codec, key, now)), cfg, now)
    ensures Tied(st, GetRawStep(st, key, now, false), (log, if LiveAt(log, key, now) then Raw(log[key].data) else ErrNotFound), cfg, now)
    ensures Tied(st, DeleteStep(st, key), (log - {key}, Done), cfg, now)
    ensures Tied(st, ConsumeStep(st, codec, key, now, false), (log - {key}, Read(log, codec, key, now)), cfg, now)
  {
    assert LiveAt(st.items, key, now) <==> LiveAt(log, key, now);
    DropAgrees(st, log, cfg, key, now);
  }

  lemma NamespaceRemoveAgrees(st: Store, log: Items, cfg: Config, codec: Codec, name: Name, key: Key, now: Time)
    requires Inv(st, cfg) && PrefixFree(cfg) && Owns(cfg, name, key) && Same(st.items, log, now)
    ensures Tied(st, NamespaceDeleteStep(st, name, key), (log - {key}, Done), cfg, now)
    ensures Tied(st, NamespaceConsumeStep(st, codec, name, key, now), (log - {key}, Read(log, codec, key, now)), cfg, now)
  {
    assert LiveAt(st.items, key, now) <==> LiveAt(log, key, now);
    DropFromAgrees(st, log, cfg, name, key, now);
  }

  /** Every call answers as the log does and leaves the same entries visible. */
  lemma StepAgrees(st: Store, log: Items, cfg: Config, codec: Codec, ev: Event)
    requires Inv(st, cfg) && PrefixFree(cfg) && Disciplined(cfg, ev.op) && Same(st.items, log, ev.now)
    ensures Tied(st, Step(st, cfg, codec, ev), LogStep(log, st.limit, cfg, codec, ev), cfg, ev.now)
  {
    if ev.cancelled && !Ignores(ev.op) {
      CancelledAgrees(st, log, cfg, codec, ev);
    } else if ev.op.NsSet? || ev.op.NsDelete? || ev.op.NsConsume? || ev.op.NsCas? || ev.op.NsCad? {
      NamespaceStepAgrees(st, log, cfg, codec, ev);
    } else {
      PlainStepAgrees(st, log, cfg, codec, ev);
    }
  }

  lemma CancelledAgrees(st: Store, log: Items, cfg: Config, codec: Codec, ev: Event)
    requires Inv(st, cfg) && Disciplined(cfg, ev.op) && Same(st.items, log, ev.now)
    requires ev.cancelled && !Ignores(ev.op)
    ensures Tied(st, Step(st, cfg, codec, ev), LogStep(log, st.limit, cfg, codec, ev), cfg, ev.now)
  {
  }

  lemma PlainStepAgrees(st: Store, log: Items, cfg: Config, codec: Codec, ev: Event)
    requires Inv(st, cfg) && Disciplined(cfg, ev.op) && Same(st.items, log, ev.now)
    requires !ev.cancelled || Ignores(ev.op)
    requires !(ev.op.NsSet? || ev.op.NsDelete? || ev.op.NsConsume? || ev.op.NsCas? || ev.op.NsCad?)
    ensures Tied(st, Step(st, cfg, codec, ev), LogStep(log, st.limit, cfg, codec, ev), cfg, ev.now)
  {
    var k, now := FullKey(cfg, ev.op), ev.now;
    match ev.op
    case Set(_, data, ttl) => PlainSetAgrees(st, log, cfg, k, data, now, ttl);
    case Cas(_, expected, replacement) => SwapAgrees(st, log, cfg, codec, k, expected, replacement, now);
    case Cad(_, expected) => TakeAgrees(st, log, cfg, k, expected, now);
    case _ => ReadAgrees(st, log, cfg, codec, k, now);
  }

  lemma NamespaceStepAgrees(st: Store, log: Items, cfg: Config, codec: Codec, ev: Event)
    requires Inv(st, cfg) && PrefixFree(cfg) && Disciplined(cfg, ev.op) && Same(st.items, log, ev.now)
    requires !ev.cancelled || Ignores(ev.op)
    requires ev.op.NsSet? || ev.op.NsDelete? || ev.op.NsConsume? || ev.op.NsCas? || ev.op.NsCad?
    ensures Tied(st, Step(st, cfg, codec, ev), LogStep(log, st.limit, cfg, codec, ev), cfg, ev.now)
  {
    var k, now := FullKey(cfg, ev.op), ev.now;
    match ev.op
    case NsSet(name, _, data, ttl) => NamespaceSetAgrees(st, log, cfg, name, k, data, now, ttl);
    case NsDelete(name, _) => NamespaceRemoveAgrees(st, log, cfg, codec, name, k, now);
    case NsConsume(name, _) => NamespaceRemoveAgrees(st, log, cfg, codec, name, k, now);
    case NsCas(_, _, expected, replacement) => SwapAgrees(st, log, cfg, codec, k, expected, replacement, now);
    case NsCad(name, _, expected) => NamespaceTakeAgrees(st, log, cfg, name, k, expected, now);
  }

  /** A write is refused exactly when its key is not live and a limit it counts against is full of live entries. */
  lemma RefusedExactlyWhenFull(st: Store, cfg: Config, codec: Codec, ev: Event)
    requires Inv(st, cfg) && PrefixFree(cfg) && Disciplined(cfg, ev.op)
    requires (ev.op.Set? || ev.op.NsSet?) && ev.op.data.Some?
    ensures Step(st, cfg, codec, ev).1 == ErrCapacity
            <==> && !LiveAt(st.items, FullKey(cfg, ev.op), ev.now)
                 && (StoreFull(st.items, st.limit, ev.now)
                     || (ev.op.NsSet? && NamespaceFull(st.items, cfg, ev.op.name, ev.now)))
  {
    StepAgrees(st, st.items, cfg, codec, ev);
  }

  /** The two limits count the unexpired entries: all of them, and those under the namespace's prefix. */
  lemma FullMeans(items: Items, cfg: Config, name: Name, limit: nat, now: Time)
    ensures StoreFull(items, limit, now) <==> |set k | k in items && now < items[k].expires| >= limit
    ensures name in cfg ==>
              (NamespaceFull(items, cfg, name, now)
               <==> |set k | k in items && now < items[k].expires && cfg[name].prefix <= k| >= cfg[name].quota)
  {
    assert Live(items, now).Keys == set k | k in items && now < items[k].expires;
    assert |Live(items, now)| == |Live(items, now).Keys|;
  }

  /** After every run the index lists exactly the namespaced items with their expiries, and all limits hold. */
  lemma IndexAgrees(limit: nat, cfg: Config, codec: Codec, evs: seq<Event>, name: Name)
    requires PrefixFree(cfg) && Schedule(cfg, evs) && name in cfg
    ensures var st := Run(limit, cfg, codec, evs).0;
            var members := if name in st.spaces then st.spaces[name] else map[];
            && |st.items| <= limit && |members| <= cfg[name].quota
            && (forall k :: k in members <==> k in st.items && cfg[name].prefix <= k)
            && (forall k :: k in members ==> members[k] == st.items[k].expires)
  {
    RunRefinesLog(limit, cfg, codec, evs);
    var st := Run(limit, cfg, codec, evs).0;
    assert NameOk(cfg, name, st.items, Members(st, name));
  }

  /**
   Why plain writes must stay out of namespaces: one aimed at a key of `name` leaves the index
   right exactly when it overwrites an item without moving its expiry, or is refused because the
   store is full of live entries.
   */
  lemma PlainWriteIntoNamespace(st: Store, cfg: Config, name: Name, key: Key, data: Bytes, now: Time, ttl: int)
    requires Inv(st, cfg) && PrefixFree(cfg) && Owns(cfg, name, key)
    ensures Inv(SetStep(st, key, Some(data), now, ttl).0, cfg)
            <==> if key in st.items then st.items[key].expires == now + ttl else |Live(st.items, now)| >= st.limit
  {
    var item := Item(data, now + ttl);
    if key in st.items {
      if st.items[key].expires == now + ttl {
        StoreItemKeepsInv(st, cfg, key, item);
      } else {
        StrayWriteBreaksIndex(st, cfg, name, key, item);
      }
    } else {
      var st1 := Evicted(st, now);
      RoomIsExact(st, cfg, name, now);
      if |st1.items| < st1.limit {
        StrayWriteBreaksIndex(st1, cfg, name, key, item);
      }
    }
  }

  /** Storing under a key of `name` behind its back: the index misses the key or has another expiry. */
  lemma StrayWriteBreaksIndex(st: Store, cfg: Config, name: Name, key: Key, item: Item)
    requires Inv(st, cfg) && Owns(cfg, name, key)
    requires key in st.items ==> st.items[key].expires != item.expires
    ensures !Inv(st.(items := st.items[key := item]), cfg)
  {
    var st' := st.(items := st.items[key := item]);
    assert NameOk(cfg, name, st.items, Members(st, name));
    assert Members(st', name) == Members(st, name);
    assert !NameOk(cfg, name, st'.items, Members(st', name));
  }

  // ---------------------------------------------------------------- runs

  /** Calls in the order the lock admits them, under a clock that never goes back. */
  ghost predicate Schedule(cfg: Config, evs: seq<Event>) {
    && (forall i :: 0 <= i < |evs| ==> Disciplined(cfg, evs[i].op))
    && (forall i, j :: 0 <= i <= j < |evs| ==> evs[i].now <= evs[j].now)
  }

  ghost function Run(limit: nat, cfg: Config, codec: Codec, evs: seq<Event>): (r: (Store, seq<Outcome>))
    requires Schedule(cfg, evs)
    ensures |r.1| == |evs|
  {
    if evs == [] then (Store(map[], map[], limit), [])
    else
      var n := |evs| - 1;
      var (st, outs) := Run(limit, cfg, codec, evs[..n]);
      var (st', r) := Step(st, cfg, codec, evs[n]);
      (st', outs + [r])
  }

  ghost function LogRun(cap: nat, cfg: Config, codec: Codec, evs: seq<Event>): (r: (Items, seq<Outcome>))
    requires Schedule(cfg, evs)
    ensures |r.1| == |evs|
  {
    if evs == [] then (map[], [])
    else
      var n := |evs| - 1;
      var (log, outs) := LogRun(cap, cfg, codec, evs[..n]);
      var (log', r) := LogStep(log, cap, cfg, codec, evs[n]);
      (log', outs + [r])
  }

  /**
   Over every run the store answers exactly as the log would, its index agrees with its items,
   and no limit is exceeded; what it shows from the last call on is what the log shows.
   */
  lemma {:induction false} RunRefinesLog(limit: nat, cfg: Config, codec: Codec, evs: seq<Event>)
    requires PrefixFree(cfg) && Schedule(cfg, evs)
    ensures var (st, outs) := Run(limit, cfg, codec, evs);
            var (log, outs') := LogRun(limit, cfg, codec, evs);
            && outs == outs' && Inv(st, cfg) && st.limit == limit
            && forall now :: (evs == [] || evs[|evs| - 1].now <= now) ==> Same(st.items, log, now)
  {
    if evs != [] {
      var n := |evs| - 1;
      RunRefinesLog(limit, cfg, codec, evs[..n]);
      var st, log := Run(limit, cfg, codec, evs[..n]).0, LogRun(limit, cfg, codec, evs[..n]).0;
      assert n > 0 ==> evs[..n][n - 1].now <= evs[n].now;
      StepAgrees(st, log, cfg, codec, evs[n]);
      var st', log' := Run(limit, cfg, codec, evs).0, LogRun(limit, cfg, codec, evs).0;
      forall now | evs[n].now <= now
        ensures Same(st'.items, log', now)
      {
        SameLive(st'.items, log', evs[n].now, now);
      }
    }
  }

  /** A call leaves every other live entry as it is, value and expiry. */
  lemma OtherKeysUntouched(st: Store, cfg: Config, codec: Codec, ev: Event, k: Key)
    requires Inv(st, cfg) && PrefixFree(cfg) && Disciplined(cfg, ev.op) && k != FullKey(cfg, ev.op)
    ensures var items := Step(st, cfg, codec, ev).0.items;
            (LiveAt(items, k, ev.now) <==> LiveAt(st.items, k, ev.now)) && (LiveAt(items, k, ev.now) ==> items[k] == st.items[k])
  {
    StepAgrees(st, st.items, cfg, codec, ev);
    SameAt(Step(st, cfg, codec, ev).0.items, LogStep(st.items, st.limit, cfg, codec, ev).0, k, ev.now);
    LogTouchesOneKey(st.items, st.limit, cfg, codec, ev, k);
  }

  lemma SameAt(items: Items, log: Items, k: Key, now: Time)
    requires Same(items, log, now)
    ensures (LiveAt(items, k, now) <==> LiveAt(log, k, now)) && (LiveAt(items, k, now) ==> items[k] == log[k])
  {
    assert LiveAt(items, k, now) <==> LiveAt(log, k, now);
  }

  lemma LogTouchesOneKey(log: Items, cap: nat, cfg: Config, codec: Codec, ev: Event, k: Key)
    requires Disciplined(cfg, ev.op) && k != FullKey(cfg, ev.op)
    ensures var after := LogStep(log, cap, cfg, codec, ev).0;
            (k in after <==> k in log) && (k in log ==> after[k] == log[k])
  {
  }

  // ---------------------------------------------------------------- what a trace alone tells

  predicate Stores(op: Op, r: Outcome) {
    (op.Set? || op.NsSet?) && r == Done
  }

  predicate Swaps(op: Op, r: Outcome) {
    (op.Cas? || op.NsCas?) && r == Flag(true)
  }

  /** The call handed the stored value over, or matched it, and removed it. */
  predicate Takes(op: Op, r: Outcome) {
    || ((op.Consume? || op.NsConsume?) && (r.Value? || r == ErrDecode))
    || ((op.Cad? || op.NsCad?) && r == Flag(true))
  }

  predicate Clears(op: Op, r: Outcome) {
    Takes(op, r) || op.Delete? || op.NsDelete? || ((op.Consume? || op.NsConsume?) && r == ErrNotFound)
  }

  /** What one call and its answer do to the entry under a key. */
  ghost function Effect(cfg: Config, ev: Event, r: Outcome, key: Key, before: Option<Item>): Option<Item>
    requires Disciplined(cfg, ev.op)
  {
    if FullKey(cfg, ev.op) != key then before
    else if Stores(ev.op, r) && ev.op.data.Some? then Some(Item(ev.op.data.value, ev.now + ev.op.ttl))
    else if Swaps(ev.op, r) && before.Some? then Some(Item(ev.op.replacement, before.value.expires))
    else if Clears(ev.op, r) then None
    else before
  }

  function Lookup(log: Items, key: Key): Option<Item> {
    if key in log then Some(log[key]) else None
  }

  lemma StepEffect(log: Items, cap: nat, cfg: Config, codec: Codec, ev: Event, key: Key)
    requires Disciplined(cfg, ev.op)
    ensures var (log', r) := LogStep(log, cap, cfg, codec, ev);
            Effect(cfg, ev, r, key, Lookup(log, key)) == Lookup(log', key)
  {
  }

  /** Only an entry that is there can be taken. */
  lemma TakesNeedsEntry(log: Items, cap: nat, cfg: Config, codec: Codec, ev: Event)
    requires Disciplined(cfg, ev.op) && Takes(ev.op, LogStep(log, cap, cfg, codec, ev).1)
    ensures FullKey(cfg, ev.op) in log
  {
  }

  /** What the calls and answers so far say was last written under a key. */
  ghost function LastWrite(cfg: Config, evs: seq<Event>, outs: seq<Outcome>, key: Key): Option<Item>
    requires |evs| == |outs| && Schedule(cfg, evs)
  {
    if evs == [] then None
    else
      var n := |evs| - 1;
      Effect(cfg, evs[n], outs[n], key, LastWrite(cfg, evs[..n], outs[..n], key))
  }

  lemma {:induction false} LogIsLastWrite(cap: nat, cfg: Config, codec: Codec, evs: seq<Event>, key: Key)
    requires Schedule(cfg, evs)
    ensures var (log, outs) := LogRun(cap, cfg, codec, evs);
            LastWrite(cfg, evs, outs, key) == Lookup(log, key)
  {
    if evs != [] {
      var n := |evs| - 1;
      LogIsLastWrite(cap, cfg, codec, evs[..n], key);
      StepEffect(LogRun(cap, cfg, codec, evs[..n]).0, cap, cfg, codec, evs[n], key);
      assert LogRun(cap, cfg, codec, evs).1[..n] == LogRun(cap, cfg, codec, evs[..n]).1;
    }
  }

  lemma {:induction false} LogRunPrefix(cap: nat, cfg: Config, codec: Codec, evs: seq<Event>, i: nat)
    requires Schedule(cfg, evs) && i <= |evs|
    ensures LogRun(cap, cfg, codec, evs[..i]).1 == LogRun(cap, cfg, codec, evs).1[..i]
  {
    if i == |evs| {
      assert evs[..i] == evs;
    } else {
      var n := |evs| - 1;
      LogRunPrefix(cap, cfg, codec, evs[..n], i);
      assert evs[..n][..i] == evs[..i];
    }
  }

  /** The answer at position `i` is the log's answer after the calls before it. */
  lemma AnswerAt(cap: nat, cfg: Config, codec: Codec, evs: seq<Event>, i: nat)
    requires Schedule(cfg, evs) && i < |evs|
    ensures var log := LogRun(cap, cfg, codec, evs[..i]).0;
            LogRun(cap, cfg, codec, evs).1[i] == LogStep(log, cap, cfg, codec, evs[i]).1
  {
    LogRunPrefix(cap, cfg, codec, evs, i + 1);
    LastAnswer(cap, cfg, codec, evs[..i + 1]);
    assert evs[..i + 1][..i] == evs[..i];
  }

  lemma LastAnswer(cap: nat, cfg: Config, codec: Codec, evs: seq<Event>)
    requires Schedule(cfg, evs) && evs != []
    ensures var n := |evs| - 1;
            LogRun(cap, cfg, codec, evs).1[n] == LogStep(LogRun(cap, cfg, codec, evs[..n]).0, cap, cfg, codec, evs[n]).1
  {
  }

  /**
   A swap succeeds only on the bytes the last successful write to its key left, while they
   are live; it puts its replacement there and keeps the expiry.
   */
  lemma SwapSeesLastWrite(limit: nat, cfg: Config, codec: Codec, evs: seq<Event>, i: nat)
    requires PrefixFree(cfg) && Schedule(cfg, evs) && i < |evs|
    requires Swaps(evs[i].op, Run(limit, cfg, codec, evs).1[i])
    ensures var outs := Run(limit, cfg, codec, evs).1;
            var key := FullKey(cfg, evs[i].op);
            var w := LastWrite(cfg, evs[..i], outs[..i], key);
            && w.Some? && w.value.data == evs[i].op.expected && evs[i].now < w.value.expires
            && LastWrite(cfg, evs[..i + 1], outs[..i + 1], key) == Some(Item(evs[i].op.replacement, w.value.expires))
  {
    AnswerFromLastWrite(limit, cfg, codec, evs, i);
    LastWriteStep(cfg, evs, Run(limit, cfg, codec, evs).1, FullKey(cfg, evs[i].op), i);
  }

  /** A read hands out what decoding makes of the last write while that is live, and removing calls are reads. */
  lemma ReadsLastWrite(limit: nat, cfg: Config, codec: Codec, evs: seq<Event>, i: nat)
    requires PrefixFree(cfg) && Schedule(cfg, evs) && i < |evs|
    requires ((evs[i].op.Get? || evs[i].op.Consume?) && !evs[i].cancelled) || evs[i].op.NsConsume?
    ensures var outs := Run(limit, cfg, codec, evs).1;
            var w := LastWrite(cfg, evs[..i], outs[..i], FullKey(cfg, evs[i].op));
            outs[i] == if w.Some? && evs[i].now < w.value.expires
                       then match codec.decode(w.value.data) { case Some(v) => Value(v) case None => ErrDecode }
                       else ErrNotFound
  {
    AnswerFromLastWrite(limit, cfg, codec, evs, i);
  }

  /** A raw read hands out the very bytes of the last write while that is live. */
  lemma RawReadsLastWrite(limit: nat, cfg: Config, codec: Codec, evs: seq<Event>, i: nat)
    requires PrefixFree(cfg) && Schedule(cfg, evs) && i < |evs| && evs[i].op.GetRaw? && !evs[i].cancelled
    ensures var outs := Run(limit, cfg, codec, evs).1;
            var w := LastWrite(cfg, evs[..i], outs[..i], FullKey(cfg, evs[i].op));
            outs[i] == if w.Some? && evs[i].now < w.value.expires then Raw(w.value.data) else ErrNotFound
  {
    AnswerFromLastWrite(limit, cfg, codec, evs, i);
  }

  /** A comparison looks at the last write while that is live; only then, or first through a namespace, at the JSON. */
  lemma ComparesLastWrite(limit: nat, cfg: Config, codec: Codec, evs: seq<Event>, i: nat)
    requires PrefixFree(cfg) && Schedule(cfg, evs) && i < |evs| && !evs[i].cancelled
    requires evs[i].op.Cas? || evs[i].op.NsCas? || evs[i].op.Cad? || evs[i].op.NsCad?
    ensures var op, outs := evs[i].op, Run(limit, cfg, codec, evs).1;
            var w := LastWrite(cfg, evs[..i], outs[..i], FullKey(cfg, op));
            var same := w.Some? && evs[i].now < w.value.expires && w.value.data == op.expected;
            outs[i] == if op.NsCas? && !codec.valid(op.replacement) then ErrInvalidJSON
                       else if op.Cas? && same && !codec.valid(op.replacement) then ErrInvalidJSON
                       else Flag(same)
  {
    AnswerFromLastWrite(limit, cfg, codec, evs, i);
  }

  /** The log that answers call `i` holds, under its key, the last write before it. */
  lemma AnswerFromLastWrite(limit: nat, cfg: Config, codec: Codec, evs: seq<Event>, i: nat)
    requires PrefixFree(cfg) && Schedule(cfg, evs) && i < |evs|
    ensures var outs, log := Run(limit, cfg, codec, evs).1, LogRun(limit, cfg, codec, evs[..i]).0;
            && outs[i] == LogStep(log, limit, cfg, codec, evs[i]).1
            && LastWrite(cfg, evs[..i], outs[..i], FullKey(cfg, evs[i].op)) == Lookup(log, FullKey(cfg, evs[i].op))
  {
    RunRefinesLog(limit, cfg, codec, evs);
    LogRunPrefix(limit, cfg, codec, evs, i);
    AnswerAt(limit, cfg, codec, evs, i);
    LogIsLastWrite(limit, cfg, codec, evs[..i], FullKey(cfg, evs[i].op));
  }

  lemma {:induction false} UntouchedSince(cfg: Config, evs: seq<Event>, outs: seq<Outcome>, key: Key, i: nat)
    requires |evs| == |outs| && Schedule(cfg, evs) && i <= |evs|
    requires forall m :: i <= m < |evs| ==> FullKey(cfg, evs[m].op) != key
    ensures LastWrite(cfg, evs, outs, key) == LastWrite(cfg, evs[..i], outs[..i], key)
  {
    if i == |evs| {
      assert evs[..i] == evs && outs[..i] == outs;
    } else {
      var n := |evs| - 1;
      assert evs[..n][..i] == evs[..i] && outs[..n][..i] == outs[..i];
      UntouchedSince(cfg, evs[..n], outs[..n], key, i);
    }
  }

  /** The next call on a key after `i`, a raw read, finds what call `i` left there. */
  lemma NextRead(limit: nat, cfg: Config, codec: Codec, evs: seq<Event>, i: nat, j: nat)
    requires PrefixFree(cfg) && Schedule(cfg, evs) && i < j < |evs|
    requires evs[j].op.GetRaw? && !evs[j].cancelled && evs[j].op.key == FullKey(cfg, evs[i].op)
    requires forall m :: i < m < j ==> FullKey(cfg, evs[m].op) != evs[j].op.key
    ensures var outs, key := Run(limit, cfg, codec, evs).1, evs[j].op.key;
            var w := Effect(cfg, evs[i], outs[i], key, LastWrite(cfg, evs[..i], outs[..i], key));
            outs[j] == if w.Some? && evs[j].now < w.value.expires then Raw(w.value.data) else ErrNotFound
  {
    var outs := Run(limit, cfg, codec, evs).1;
    RawReadsLastWrite(limit, cfg, codec, evs, j);
    UntouchedSince(cfg, evs[..j], outs[..j], evs[j].op.key, i + 1);
    assert evs[..j][..i + 1] == evs[..i + 1] && outs[..j][..i + 1] == outs[..i + 1];
    LastWriteStep(cfg, evs, outs, evs[j].op.key, i);
  }

  /**
   A value stored at `i` under a time to live is what the next call on its key, at `j`, reads: until
   the time is over, and not after.
   */
  lemma StoredIsRead(limit: nat, cfg: Config, codec: Codec, evs: seq<Event>, i: nat, j: nat)
    requires PrefixFree(cfg) && Schedule(cfg, evs) && i < j < |evs|
    requires (evs[i].op.Set? || evs[i].op.NsSet?) && evs[i].op.data.Some? && Run(limit, cfg, codec, evs).1[i] == Done
    requires evs[j].op.GetRaw? && !evs[j].cancelled && evs[j].op.key == FullKey(cfg, evs[i].op)
    requires forall m :: i < m < j ==> FullKey(cfg, evs[m].op) != evs[j].op.key
    ensures Run(limit, cfg, codec, evs).1[j]
            == if evs[j].now < evs[i].now + evs[i].op.ttl then Raw(evs[i].op.data.value) else ErrNotFound
  {
    NextRead(limit, cfg, codec, evs, i, j);
  }

  /** A key that was deleted, consumed or taken by comparison at `i` is not found by the next call on it. */
  lemma RemovedIsGone(limit: nat, cfg: Config, codec: Codec, evs: seq<Event>, i: nat, j: nat)
    requires PrefixFree(cfg) && Schedule(cfg, evs) && i < j < |evs|
    requires var op := evs[i].op;
             || op.Delete? || op.NsDelete? || op.NsConsume? || (op.Consume? && !evs[i].cancelled)
             || ((op.Cad? || op.NsCad?) && Run(limit, cfg, codec, evs).1[i] == Flag(true))
    requires evs[j].op.GetRaw? && !evs[j].cancelled && evs[j].op.key == FullKey(cfg, evs[i].op)
    requires forall m :: i < m < j ==> FullKey(cfg, evs[m].op) != evs[j].op.key
    ensures Run(limit, cfg, codec, evs).1[j] == ErrNotFound
  {
    NextRead(limit, cfg, codec, evs, i, j);
    AnswerFromLastWrite(limit, cfg, codec, evs, i);
    RemovalClears(LogRun(limit, cfg, codec, evs[..i]).0, limit, cfg, codec, evs[i]);
  }

  lemma RemovalClears(log: Items, cap: nat, cfg: Config, codec: Codec, ev: Event)
    requires Disciplined(cfg, ev.op)
    requires var op := ev.op;
             || op.Delete? || op.NsDelete? || op.NsConsume? || (op.Consume? && !ev.cancelled)
             || ((op.Cad? || op.NsCad?) && LogStep(log, cap, cfg, codec, ev).1 == Flag(true))
    ensures forall w :: Effect(cfg, ev, LogStep(log, cap, cfg, codec, ev).1, FullKey(cfg, ev.op), w) == None
  {
  }

  lemma OthersKeep(log: Items, cap: nat, cfg: Config, codec: Codec, ev: Event)
    requires Disciplined(cfg, ev.op)
    requires var out := LogStep(log, cap, cfg, codec, ev).1;
             || ev.op.Get? || ev.op.GetRaw?
             || out == Flag(false) || out == ErrInvalidJSON || out == ErrCapacity || out == ErrMarshal || out == ErrContext
    ensures forall w :: Effect(cfg, ev, LogStep(log, cap, cfg, codec, ev).1, FullKey(cfg, ev.op), w) == w
  {
  }

  /** A read that removes nothing, and a refused write or swap, leave the last write standing. */
  lemma OthersWriteNothing(limit: nat, cfg: Config, codec: Codec, evs: seq<Event>, i: nat)
    requires PrefixFree(cfg) && Schedule(cfg, evs) && i < |evs|
    requires var op, out := evs[i].op, Run(limit, cfg, codec, evs).1[i];
             || op.Get? || op.GetRaw?
             || out == Flag(false) || out == ErrInvalidJSON || out == ErrCapacity || out == ErrMarshal || out == ErrContext
    ensures var outs, key := Run(limit, cfg, codec, evs).1, FullKey(cfg, evs[i].op);
            LastWrite(cfg, evs[..i + 1], outs[..i + 1], key) == LastWrite(cfg, evs[..i], outs[..i], key)
  {
    AnswerFromLastWrite(limit, cfg, codec, evs, i);
    LastWriteStep(cfg, evs, Run(limit, cfg, codec, evs).1, FullKey(cfg, evs[i].op), i);
    OthersKeep(LogRun(limit, cfg, codec, evs[..i]).0, limit, cfg, codec, evs[i]);
  }

  /** A cancelled context answers as such where the call looks at it, and leaves the key alone. */
  lemma CancelledAnswers(limit: nat, cfg: Config, codec: Codec, evs: seq<Event>, i: nat)
    requires PrefixFree(cfg) && Schedule(cfg, evs) && i < |evs| && evs[i].cancelled
    requires var op := evs[i].op; op.Get? || op.GetRaw? || op.Consume? || op.Cas? || op.Cad? || op.NsCas? || op.NsCad?
    ensures var outs, key := Run(limit, cfg, codec, evs).1, FullKey(cfg, evs[i].op);
            && outs[i] == ErrContext
            && LastWrite(cfg, evs[..i + 1], outs[..i + 1], key) == LastWrite(cfg, evs[..i], outs[..i], key)
  {
    AnswerFromLastWrite(limit, cfg, codec, evs, i);
    LastWriteStep(cfg, evs, Run(limit, cfg, codec, evs).1, FullKey(cfg, evs[i].op), i);
  }

  lemma LastWriteStep(cfg: Config, evs: seq<Event>, outs: seq<Outcome>, key: Key, i: nat)
    requires |evs| == |outs| && Schedule(cfg, evs) && i < |evs|
    ensures LastWrite(cfg, evs[..i + 1], outs[..i + 1], key)
            == Effect(cfg, evs[i], outs[i], key, LastWrite(cfg, evs[..i], outs[..i], key))
  {
    assert evs[..i + 1][..i] == evs[..i] && outs[..i + 1][..i] == outs[..i];
  }

  lemma {:induction false} NothingComesBack(cfg: Config, evs: seq<Event>, outs: seq<Outcome>, key: Key, i: nat)
    requires |evs| == |outs| && Schedule(cfg, evs) && i <= |evs|
    requires LastWrite(cfg, evs[..i], outs[..i], key) == None
    requires forall m :: i <= m < |evs| ==> !(Stores(evs[m].op, outs[m]) && FullKey(cfg, evs[m].op) == key)
    ensures LastWrite(cfg, evs, outs, key) == None
  {
    if i == |evs| {
      assert evs[..i] == evs && outs[..i] == outs;
    } else {
      var n := |evs| - 1;
      assert evs[..n][..i] == evs[..i] && outs[..n][..i] == outs[..i];
      NothingComesBack(cfg, evs[..n], outs[..n], key, i);
    }
  }

  lemma TakenWasThere(cap: nat, cfg: Config, codec: Codec, evs: seq<Event>, j: nat)
    requires Schedule(cfg, evs) && j < |evs| && Takes(evs[j].op, LogRun(cap, cfg, codec, evs).1[j])
    ensures LastWrite(cfg, evs[..j], LogRun(cap, cfg, codec, evs).1[..j], FullKey(cfg, evs[j].op)).Some?
  {
    AnswerAt(cap, cfg, codec, evs, j);
    TakesNeedsEntry(LogRun(cap, cfg, codec, evs[..j]).0, cap, cfg, codec, evs[j]);
    LogRunPrefix(cap, cfg, codec, evs, j);
    LogIsLastWrite(cap, cfg, codec, evs[..j], FullKey(cfg, evs[j].op));
  }

  lemma NoTakeWithoutStore(cfg: Config, evs: seq<Event>, outs: seq<Outcome>, i: nat, j: nat)
    requires |outs| == |evs| && Schedule(cfg, evs) && i < j < |evs| && FullKey(cfg, evs[i].op) == FullKey(cfg, evs[j].op)
    requires Takes(evs[i].op, outs[i])
    requires forall m :: i < m < j ==> !(Stores(evs[m].op, outs[m]) && FullKey(cfg, evs[m].op) == FullKey(cfg, evs[i].op))
    ensures LastWrite(cfg, evs[..j], outs[..j], FullKey(cfg, evs[j].op)) == None
  {
    assert evs[..i + 1][..i] == evs[..i] && outs[..i + 1][..i] == outs[..i];
    assert evs[..j][..i + 1] == evs[..i + 1] && outs[..j][..i + 1] == outs[..i + 1];
    NothingComesBack(cfg, evs[..j], outs[..j], FullKey(cfg, evs[j].op), i + 1);
  }

  /** Between two calls that took the value of one key, somebody stored a new one there. */
  lemma TakenOnce(limit: nat, cfg: Config, codec: Codec, evs: seq<Event>, i: nat, j: nat)
    requires PrefixFree(cfg) && Schedule(cfg, evs) && i < j < |evs|
    requires FullKey(cfg, evs[i].op) == FullKey(cfg, evs[j].op)
    requires var outs := Run(limit, cfg, codec, evs).1; Takes(evs[i].op, outs[i]) && Takes(evs[j].op, outs[j])
    ensures var outs := Run(limit, cfg, codec, evs).1;
            exists m :: i < m < j && Stores(evs[m].op, outs[m]) && FullKey(cfg, evs[m].op) == FullKey(cfg, evs[i].op)
  {
    RunRefinesLog(limit, cfg, codec, evs);
    TakenWasThere(limit, cfg, codec, evs, j);
    var outs := Run(limit, cfg, codec, evs).1;
    if forall m :: i < m < j ==> !(Stores(evs[m].op, outs[m]) && FullKey(cfg, evs[m].op) == FullKey(cfg, evs[i].op)) {
      NoTakeWithoutStore(cfg, evs, outs, i, j);
      assert false;
    }
  }
}
