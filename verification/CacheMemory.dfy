/**
 The in-process store as the program keeps it: one items map, and a map from namespace
 names to shared, mutable member maps. Every method is tied to its step function in
 CacheSpec, whatever order the loops visit keys in.
 */
module CacheMemory {
  import opened Prelude
  import opened CacheSpec

  const DEFAULT_MEMORY_LIMIT: nat := 10000

  /** One namespace's member map; the admission path holds on to it while it is detached. */
  class MemberMap {
    var m: map<Key, Time>
    constructor ()
      ensures m == map[]
    {
      m := map[];
    }
  }

  /** `ns` is `ns0` without some of its empty member maps. */
  ghost predicate Pruned(ns: map<Name, MemberMap>, ns0: map<Name, MemberMap>)
    reads ns0.Values
  {
    && (forall n :: n in ns ==> n in ns0 && ns[n] == ns0[n])
    && (forall n :: n in ns0 && n !in ns ==> ns0[n].m == map[])
  }

  /** `ns` is exactly the part of `ns0` whose member maps are not empty. */
  ghost predicate Hooked(ns: map<Name, MemberMap>, ns0: map<Name, MemberMap>)
    reads ns0.Values
  {
    Pruned(ns, ns0) && forall n :: n in ns ==> ns0[n].m != map[]
  }

  ghost predicate Injective(ns: map<Name, MemberMap>) {
    forall a, b :: a in ns && b in ns && a != b ==> ns[a] != ns[b]
  }

  ghost function Contents(ns: map<Name, MemberMap>): map<Name, map<Key, Time>>
    reads ns.Values
  {
    map n | n in ns :: ns[n].m
  }

  /** Every member map behind `ns` is its value in `c` without `gone`. */
  ghost predicate Minus(ns: map<Name, MemberMap>, c: map<Name, map<Key, Time>>, gone: set<Key>)
    reads ns.Values
  {
    && c.Keys == ns.Keys
    && forall n :: n in ns ==> ns[n].m == c[n] - gone
  }

  lemma MinusMore(m: map<Key, Time>, gone: set<Key>, key: Key)
    ensures m - {} == m
    ensures m == map[] ==> m - {key} == m
    ensures (m - gone) - {key} == m - (gone + {key})
  {
  }

  function NonEmpty(c: map<Name, map<Key, Time>>): map<Name, map<Key, Time>> {
    map n | n in c && c[n] != map[] :: c[n]
  }

  lemma DropContents(ns: map<Name, MemberMap>, ns0: map<Name, MemberMap>, c0: map<Name, map<Key, Time>>, gone: set<Key>,
                     items: Items, limit: nat)
    requires Pruned(ns, ns0) && Minus(ns0, c0, gone)
    ensures Drop(Store(items, NonEmpty(c0), limit), gone) == Store(items - gone, NonEmpty(Contents(ns)), limit)
  {
    var spaces, spaces' := Drop(Store(items, NonEmpty(c0), limit), gone).spaces, NonEmpty(Contents(ns));
    forall n
      ensures n in spaces <==> n in spaces'
      ensures n in spaces ==> spaces[n] == spaces'[n]
    {
      if n in c0 {
        assert ns0[n].m == c0[n] - gone;
        assert c0[n] == map[] ==> c0[n] - gone == map[];
      }
    }
  }

  lemma SameNonEmpty(c0: map<Name, map<Key, Time>>, c1: map<Name, map<Key, Time>>, name: Name)
    requires c1 == c0[name := map[]] || c1 == c0 - {name}
    requires name in c0 ==> c0[name] == map[]
    ensures NonEmpty(c0) == NonEmpty(c1)
  {
  }

  /** Changing one member map, hooked or not, is `WithMembers` on the contents. */
  lemma UpdateContents(ns: map<Name, MemberMap>, c0: map<Name, map<Key, Time>>, name: Name, members: map<Key, Time>, st: Store)
    requires st.spaces == NonEmpty(c0)
    requires Contents(ns) == c0[name := members] || (Contents(ns) == c0 - {name} && members == map[])
    ensures NonEmpty(Contents(ns)) == WithMembers(st, name, members).spaces
  {
  }

  /** The two stages of an admission on values. */
  lemma AdmitIs(st: Store, name: Name, key: Key, now: Time, quota: int, cleared: Store, st': Store, ok: bool)
    requires cleared == st.(items := st.items - {key})
    requires st' == if |Members(st, name)| >= quota then cleared else Evicted(cleared, now)
    requires ok <==> |Members(st, name)| < quota && |st'.items| < st'.limit
    ensures (st', ok) == Admit(st, name, key, now, quota)
  {
  }

  class Memory {
    var items: Items
    var namespaces: map<Name, MemberMap>
    const limit: nat
    const codec: Codec

    /** No two names share a member map. */
    ghost predicate Valid()
      reads this
    {
      Injective(namespaces)
    }

    ghost function Abs(): Store
      reads this, namespaces.Values
    {
      Store(items, NonEmpty(Contents(namespaces)), limit)
    }

    constructor (limit: int, codec: Codec)
      ensures Valid() && namespaces == map[]
      ensures Abs() == Store(map[], map[], if limit <= 0 then DEFAULT_MEMORY_LIMIT else limit)
      ensures this.codec == codec
    {
      items := map[];
      namespaces := map[];
      this.limit := if limit <= 0 then DEFAULT_MEMORY_LIMIT else limit;
      this.codec := codec;
    }

    /** Removes a key from every member map and unhooks the maps that are empty afterwards. */
    method RemoveNamespaceMembershipLocked(key: Key)
      requires Valid()
      modifies this`namespaces, namespaces.Values
      ensures forall x :: x in namespaces.Values ==> x in old(namespaces.Values) || fresh(x)
      ensures Minus(old(namespaces), old(Contents(namespaces)), {key})
      ensures Hooked(namespaces, old(namespaces))
    {
      var todo := namespaces.Keys;
      while todo != {}
        invariant todo <= namespaces.Keys
        invariant forall n :: n in namespaces ==> n in old(namespaces) && namespaces[n] == old(namespaces)[n]
        invariant forall n :: n in todo ==> old(namespaces)[n].m == old(namespaces[n].m)
        invariant forall n :: n in old(namespaces) && n !in todo ==>
                                old(namespaces)[n].m == old(namespaces[n].m) - {key}
                                && (n in namespaces <==> old(namespaces)[n].m != map[])
      {
        var name :| name in todo;
        todo := todo - {name};
        var members := namespaces[name];
        members.m := members.m - {key};
        if members.m == map[] {
          namespaces := namespaces - {name};
        }
      }
    }

    /** One deletion of the eviction loop: `ns0` is the index the loop started from. */
    method Evict(key: Key, ghost ns0: map<Name, MemberMap>, ghost c0: map<Name, map<Key, Time>>, ghost gone: set<Key>)
      requires Injective(ns0) && Minus(ns0, c0, gone)
      requires Pruned(namespaces, ns0)
      modifies this`items, this`namespaces, namespaces.Values
      ensures items == old(items) - {key}
      ensures Minus(ns0, c0, gone + {key})
      ensures Hooked(namespaces, ns0)
    {
      items := items - {key};
      ghost var ns1, c1 := namespaces, Contents(namespaces);
      assert forall n :: n in ns0 && n !in ns1 ==> ns0[n] !in ns1.Values;
      RemoveNamespaceMembershipLocked(key);
      forall n | n in ns0
        ensures ns0[n].m == c0[n] - (gone + {key})
      {
        MinusMore(c0[n], gone, key);
        MinusMore(c0[n] - gone, {}, key);
        assert n in ns1 ==> c1[n] == c0[n] - gone;
      }
    }

    method EvictExpired(now: Time)
      requires Valid()
      modifies this`items, this`namespaces, namespaces.Values
      ensures forall x :: x in namespaces.Values ==> x in old(namespaces.Values) || fresh(x)
      ensures items == old(items) - Expired(old(items), now)
      ensures Minus(old(namespaces), old(Contents(namespaces)), Expired(old(items), now))
      ensures if Expired(old(items), now) == {} then namespaces == old(namespaces)
              else Hooked(namespaces, old(namespaces))
      ensures Valid() && Abs() == Drop(old(Abs()), Expired(old(items), now))
    {
      ghost var items0, ns0, c0, dead := items, namespaces, Contents(namespaces), Expired(items, now);
      ghost var gone: set<Key> := {};
      var todo := items.Keys;
      while todo != {}
        invariant todo <= items.Keys && gone !! todo
        invariant gone == dead - todo
        invariant items == old(items) - gone
        invariant Minus(ns0, c0, gone)
        invariant if gone == {} then namespaces == ns0 else Hooked(namespaces, ns0)
      {
        var key :| key in todo;
        todo := todo - {key};
        if !(now < items[key].expires) {
          Evict(key, ns0, c0, gone);
          gone := gone + {key};
        }
      }
      assert gone == dead;
      DropContents(namespaces, ns0, c0, dead, items0, limit);
    }

    /** Deletes a key and its memberships. */
    method Forget(key: Key)
      requires Valid()
      modifies this`items, this`namespaces, namespaces.Values
      ensures forall x :: x in namespaces.Values ==> x in old(namespaces.Values) || fresh(x)
      ensures Valid()
      ensures Abs() == Drop(old(Abs()), {key})
    {
      ghost var items0, ns0, c0 := items, namespaces, Contents(namespaces);
      items := items - {key};
      RemoveNamespaceMembershipLocked(key);
      DropContents(namespaces, ns0, c0, {key}, items0, limit);
    }

    method Get(key: Key, now: Time, cancelled: bool) returns (r: Outcome)
      requires Valid()
      modifies this`items, this`namespaces, namespaces.Values
      ensures forall x :: x in namespaces.Values ==> x in old(namespaces.Values) || fresh(x)
      ensures Valid() && (Abs(), r) == GetStep(old(Abs()), codec, key, now, cancelled)
    {
      if cancelled {
        return ErrContext;
      }
      if key !in items || !(now < items[key].expires) {
        Forget(key);
        return ErrNotFound;
      }
      r := match codec.decode(items[key].data) case Some(v) => Value(v) case None => ErrDecode;
    }

    method GetRawJSON(key: Key, now: Time, cancelled: bool) returns (r: Outcome)
      requires Valid()
      modifies this`items, this`namespaces, namespaces.Values
      ensures forall x :: x in namespaces.Values ==> x in old(namespaces.Values) || fresh(x)
      ensures Valid() && (Abs(), r) == GetRawStep(old(Abs()), key, now, cancelled)
    {
      if cancelled {
        return ErrContext;
      }
      if key !in items || !(now < items[key].expires) {
        if key in items {
          Forget(key);
        }
        return ErrNotFound;
      }
      r := Raw(items[key].data);
    }

    /** `data` is what marshalling the value produced, if it produced anything. */
    method Set(key: Key, data: Option<Bytes>, now: Time, ttl: int) returns (r: Outcome)
      requires Valid()
      modifies this`items, this`namespaces, namespaces.Values
      ensures forall x :: x in namespaces.Values ==> x in old(namespaces.Values) || fresh(x)
      ensures Valid() && (Abs(), r) == SetStep(old(Abs()), key, data, now, ttl)
    {
      if data.None? {
        return ErrMarshal;
      }
      if key !in items {
        var ok := EvictIfFull(now);
        if !ok {
          return ErrCapacity;
        }
      }
      Put(key, Item(data.value, now + ttl));
      r := Done;
    }

    /** Evicts expired items when the store is full; says whether there is a free slot then. */
    method EvictIfFull(now: Time) returns (ok: bool)
      requires Valid()
      modifies this`items, this`namespaces, namespaces.Values
      ensures forall x :: x in namespaces.Values ==> x in old(namespaces.Values) || fresh(x)
      ensures Valid() && Abs() == Evicted(old(Abs()), now)
      ensures ok <==> |Abs().items| < limit
    {
      if |items| >= limit {
        EvictExpired(now);
      }
      ok := |items| < limit;
    }

    method Put(key: Key, item: Item)
      modifies this`items
      ensures Abs() == old(Abs()).(items := old(items)[key := item])
    {
      items := items[key := item];
    }

    method Delete(key: Key) returns (r: Outcome)
      requires Valid()
      modifies this`items, this`namespaces, namespaces.Values
      ensures forall x :: x in namespaces.Values ==> x in old(namespaces.Values) || fresh(x)
      ensures Valid() && (Abs(), r) == DeleteStep(old(Abs()), key)
    {
      Forget(key);
      r := Done;
    }

    method AtomicConsume(key: Key, now: Time, cancelled: bool) returns (r: Outcome)
      requires Valid()
      modifies this`items, this`namespaces, namespaces.Values
      ensures forall x :: x in namespaces.Values ==> x in old(namespaces.Values) || fresh(x)
      ensures Valid() && (Abs(), r) == ConsumeStep(old(Abs()), codec, key, now, cancelled)
    {
      if cancelled {
        return ErrContext;
      }
      if key !in items || !(now < items[key].expires) {
        Forget(key);
        return ErrNotFound;
      }
      var item := items[key];
      Forget(key);
      r := match codec.decode(item.data) case Some(v) => Value(v) case None => ErrDecode;
    }

    method CompareAndSwapJSON(key: Key, expected: Bytes, replacement: Bytes, now: Time, cancelled: bool)
      returns (r: Outcome)
      requires Valid()
      modifies this`items, this`namespaces, namespaces.Values
      ensures forall x :: x in namespaces.Values ==> x in old(namespaces.Values) || fresh(x)
      ensures Valid() && (Abs(), r) == CasStep(old(Abs()), codec, key, expected, replacement, now, cancelled)
    {
      if cancelled {
        return ErrContext;
      }
      if key !in items || !(now < items[key].expires) {
        if key in items {
          Forget(key);
        }
        return Flag(false);
      }
      var item := items[key];
      if item.data != expected {
        return Flag(false);
      }
      if !codec.valid(replacement) {
        return ErrInvalidJSON;
      }
      items := items[key := Item(replacement, item.expires)];
      r := Flag(true);
    }

    method CompareAndDeleteJSON(key: Key, expected: Bytes, now: Time, cancelled: bool) returns (r: Outcome)
      requires Valid()
      modifies this`items, this`namespaces, namespaces.Values
      ensures forall x :: x in namespaces.Values ==> x in old(namespaces.Values) || fresh(x)
      ensures Valid() && (Abs(), r) == CadStep(old(Abs()), key, expected, now, cancelled)
    {
      if cancelled {
        return ErrContext;
      }
      if key !in items || !(now < items[key].expires) {
        if key in items {
          Forget(key);
        }
        return Flag(false);
      }
      if items[key].data != expected {
        return Flag(false);
      }
      Forget(key);
      r := Flag(true);
    }

    // ---------------------------------------------------------------- namespaced operations

    /** Takes a key out of one member map, and unhooks the map if asked to and it is empty. */
    method RemoveMember(name: Name, key: Key, unhook: bool)
      requires Valid()
      modifies this`namespaces, namespaces.Values
      ensures forall x :: x in namespaces.Values ==> x in old(namespaces.Values) || fresh(x)
      ensures Valid()
      ensures Abs() == WithMembers(old(Abs()), name, Members(old(Abs()), name) - {key})
    {
      ghost var st0, c0 := Abs(), Contents(namespaces);
      if name in namespaces {
        var members := namespaces[name];
        members.m := members.m - {key};
        assert Contents(namespaces) == c0[name := c0[name] - {key}];
        if unhook && members.m == map[] {
          namespaces := namespaces - {name};
        }
        UpdateContents(namespaces, c0, name, c0[name] - {key}, st0);
      } else {
        UpdateContents(namespaces, c0, name, map[], st0);
      }
    }

    method NamespaceDelete(name: Name, prefix: Key, suffix: Key) returns (r: Outcome)
      requires Valid()
      modifies this`items, this`namespaces, namespaces.Values
      ensures forall x :: x in namespaces.Values ==> x in old(namespaces.Values) || fresh(x)
      ensures Valid() && (Abs(), r) == NamespaceDeleteStep(old(Abs()), name, prefix + suffix)
    {
      var key := prefix + suffix;
      items := items - {key};
      RemoveMember(name, key, true);
      r := Done;
    }

    method NamespaceConsume(name: Name, prefix: Key, suffix: Key, now: Time) returns (r: Outcome)
      requires Valid()
      modifies this`items, this`namespaces, namespaces.Values
      ensures forall x :: x in namespaces.Values ==> x in old(namespaces.Values) || fresh(x)
      ensures Valid() && (Abs(), r) == NamespaceConsumeStep(old(Abs()), codec, name, prefix + suffix, now)
    {
      var key := prefix + suffix;
      if key !in items || !(now < items[key].expires) {
        items := items - {key};
        RemoveMember(name, key, false);
        return ErrNotFound;
      }
      var item := items[key];
      items := items - {key};
      RemoveMember(name, key, false);
      r := match codec.decode(item.data) case Some(v) => Value(v) case None => ErrDecode;
    }

    method NamespaceCompareAndSwapJSON(prefix: Key, suffix: Key, expected: Bytes, replacement: Bytes, now: Time, cancelled: bool)
      returns (r: Outcome)
      requires Valid()
      modifies this`items, this`namespaces, namespaces.Values
      ensures forall x :: x in namespaces.Values ==> x in old(namespaces.Values) || fresh(x)
      ensures Valid()
      ensures (Abs(), r) == NamespaceCasStep(old(Abs()), codec, prefix + suffix, expected, replacement, now, cancelled)
    {
      if cancelled {
        return ErrContext;
      }
      if !codec.valid(replacement) {
        return ErrInvalidJSON;
      }
      var key := prefix + suffix;
      if key !in items || !(now < items[key].expires) {
        if key in items {
          Forget(key);
        }
        return Flag(false);
      }
      var item := items[key];
      if item.data != expected {
        return Flag(false);
      }
      items := items[key := Item(replacement, item.expires)];
      r := Flag(true);
    }

    method NamespaceCompareAndDeleteJSON(name: Name, prefix: Key, suffix: Key, expected: Bytes, now: Time, cancelled: bool)
      returns (r: Outcome)
      requires Valid()
      modifies this`items, this`namespaces, namespaces.Values
      ensures forall x :: x in namespaces.Values ==> x in old(namespaces.Values) || fresh(x)
      ensures Valid()
      ensures (Abs(), r) == NamespaceCadStep(old(Abs()), name, prefix + suffix, expected, now, cancelled)
    {
      if cancelled {
        return ErrContext;
      }
      var key := prefix + suffix;
      if key !in items || !(now < items[key].expires) {
        if key in items {
          Forget(key);
        }
        return Flag(false);
      }
      if items[key].data != expected {
        return Flag(false);
      }
      items := items - {key};
      RemoveMember(name, key, true);
      r := Flag(true);
    }

    /** The sweep loop: drops members that are expired, or whose item is missing or expired. */
    method Sweep(members: MemberMap, now: Time)
      modifies this`items, members
      ensures members.m == map k | k in old(members.m) && now < old(members.m)[k] && LiveAt(old(items), k, now)
                             :: old(members.m)[k]
      ensures items == old(items) - (set k | k in old(members.m) && k in old(items) && old(items)[k].expires <= now)
    {
      var todo := members.m.Keys;
      while todo != {}
        invariant todo <= members.m.Keys <= old(members.m).Keys
        invariant forall k :: k in members.m ==> members.m[k] == old(members.m)[k]
        invariant forall k :: k in old(members.m) && k !in todo ==>
                                (k in members.m <==> now < old(members.m)[k] && LiveAt(old(items), k, now))
        invariant forall k :: k in items ==> k in old(items) && items[k] == old(items)[k]
        invariant forall k :: k in old(items) ==>
                                (k in items <==> k !in old(members.m) || k in todo || now < old(items)[k].expires)
      {
        var member :| member in todo;
        todo := todo - {member};
        if !(now < members.m[member]) || member !in items || !(now < items[member].expires) {
          members.m := members.m - {member};
          if member in items && !(now < items[member].expires) {
            items := items - {member};
          }
        }
      }
    }

    /** Finds or attaches the member map of `name` and sweeps it. */
    method OpenNamespace(name: Name, now: Time) returns (members: MemberMap)
      requires Valid()
      modifies this`items, this`namespaces, namespaces.Values
      ensures forall x :: x in namespaces.Values ==> x in old(namespaces.Values) || fresh(x)
      ensures Valid() && name in namespaces && members == namespaces[name]
      ensures forall n :: n in namespaces && n != name ==> n in old(namespaces) && namespaces[n] == old(namespaces)[n]
      ensures members in old(namespaces.Values) || fresh(members)
      ensures Abs() == Swept(old(Abs()), name, now)
      ensures forall k :: k in members.m ==> now < members.m[k] && LiveAt(items, k, now)
    {
      members := FindOrAttach(name);
      SweepAttached(name, members, now);
    }

    method SweepAttached(name: Name, members: MemberMap, now: Time)
      requires Valid() && name in namespaces && members == namespaces[name]
      modifies this`items, members
      ensures Abs() == Swept(old(Abs()), name, now)
      ensures forall k :: k in members.m ==> now < members.m[k] && LiveAt(items, k, now)
    {
      ghost var st0, c0 := Abs(), Contents(namespaces);
      assert members.m == Members(st0, name);
      Sweep(members, now);
      assert Contents(namespaces) == c0[name := members.m];
      UpdateContents(namespaces, c0, name, members.m, st0);
    }

    /** The member map of `name`, hooked in empty when there is none. */
    method FindOrAttach(name: Name) returns (members: MemberMap)
      requires Valid()
      modifies this`namespaces
      ensures forall x :: x in namespaces.Values ==> x in old(namespaces.Values) || fresh(x)
      ensures Valid() && Abs() == old(Abs())
      ensures namespaces == old(namespaces)[name := members]
      ensures if name in old(namespaces) then members == old(namespaces)[name] else fresh(members) && members.m == map[]
    {
      if name in namespaces {
        members := namespaces[name];
      } else {
        members := new MemberMap();
        Attach(name, members);
      }
    }

    /** Hooks an empty member map back in; nobody can tell. */
    method Attach(name: Name, members: MemberMap)
      requires Valid() && members.m == map[]
      requires forall n :: n in namespaces && n != name ==> namespaces[n] != members
      requires name in namespaces ==> namespaces[name] == members
      modifies this`namespaces
      ensures Valid() && Abs() == old(Abs())
      ensures namespaces == old(namespaces)[name := members]
    {
      ghost var c0 := Contents(namespaces);
      namespaces := namespaces[name := members];
      SameNonEmpty(c0, Contents(namespaces), name);
    }

    /** Unhooks an empty member map; nobody can tell. */
    method Detach(name: Name)
      requires Valid() && (name in namespaces ==> namespaces[name].m == map[])
      modifies this`namespaces
      ensures forall x :: x in namespaces.Values ==> x in old(namespaces.Values) || fresh(x)
      ensures Valid() && Abs() == old(Abs())
    {
      ghost var c0 := Contents(namespaces);
      namespaces := namespaces - {name};
      assert forall n :: n in namespaces ==> n in old(namespaces) && namespaces[n] == old(namespaces)[n];
      SameNonEmpty(c0, Contents(namespaces), name);
    }

    /** Removes a dead key on the way to admitting it again; it cannot be a member any more. */
    method ClearStale(name: Name, members: MemberMap, key: Key)
      requires Valid() && name in namespaces && members == namespaces[name] && key !in members.m
      modifies this`items, members
      ensures members.m == old(members.m) && items == old(items) - {key}
      ensures Abs() == old(Abs()).(items := items)
    {
      ghost var c0 := Contents(namespaces);
      members.m := members.m - {key};
      items := items - {key};
      assert members.m == old(members.m);
      assert Contents(namespaces) == c0;
    }

    /** Unhooks `members` if it is empty, as every refused admission does. */
    method Release(name: Name, members: MemberMap)
      requires Valid() && name in namespaces && members == namespaces[name]
      modifies this`namespaces
      ensures forall x :: x in namespaces.Values ==> x in old(namespaces.Values) || fresh(x)
      ensures Valid() && Abs() == old(Abs())
    {
      if members.m == map[] {
        Detach(name);
      }
    }

    /** An eviction that keeps `members` attached; its keys being live, it loses none of them. */
    method EvictAround(name: Name, members: MemberMap, now: Time)
      requires Valid() && name in namespaces && members == namespaces[name]
      requires forall k :: k in members.m ==> LiveAt(items, k, now)
      modifies this`items, this`namespaces, namespaces.Values
      ensures forall x :: x in namespaces.Values ==> x in old(namespaces.Values) || fresh(x)
      ensures Valid() && members.m == old(members.m)
      ensures Abs() == Drop(old(Abs()), Expired(old(items), now))
      ensures name in namespaces && members == namespaces[name]
    {
      ghost var dead, m0 := Expired(items, now), members.m;
      ghost var c0 := Contents(namespaces);
      EvictExpired(now);
      assert members.m == m0 by {
        assert members.m == c0[name] - dead;
        assert forall k :: k in m0 ==> k !in dead;
      }
      if members.m == map[] {
        Attach(name, members);
      }
    }

    /** Evicts expired items when the store is full, keeping `members` attached. */
    method MakeRoom(name: Name, members: MemberMap, now: Time) returns (ok: bool)
      requires Valid() && name in namespaces && members == namespaces[name]
      requires forall k :: k in members.m ==> LiveAt(items, k, now)
      modifies this`items, this`namespaces, namespaces.Values
      ensures forall x :: x in namespaces.Values ==> x in old(namespaces.Values) || fresh(x)
      ensures Valid() && members.m == old(members.m)
      ensures Abs() == Evicted(old(Abs()), now)
      ensures ok <==> |items| < limit
      ensures ok ==> name in namespaces && members == namespaces[name]
    {
      if |items| < limit {
        return true;
      }
      EvictAround(name, members, now);
      if |items| >= limit {
        Release(name, members);
        return false;
      }
      return true;
    }

    /** The two capacity tests: the namespace's quota first, then the store's limit. */
    method TestCapacity(name: Name, members: MemberMap, now: Time, quota: int) returns (ok: bool)
      requires Valid() && name in namespaces && members == namespaces[name]
      requires forall k :: k in members.m ==> LiveAt(items, k, now)
      modifies this`items, this`namespaces, namespaces.Values
      ensures forall x :: x in namespaces.Values ==> x in old(namespaces.Values) || fresh(x)
      ensures Valid()
      ensures Abs() == if |old(members.m)| >= quota then old(Abs()) else Evicted(old(Abs()), now)
      ensures ok <==> |old(members.m)| < quota && |items| < limit
      ensures ok ==> name in namespaces && members == namespaces[name]
    {
      if |members.m| >= quota {
        Release(name, members);
        return false;
      }
      ok := MakeRoom(name, members, now);
    }

    /** Finds a slot for a key that is not live. */
    method AdmitNew(name: Name, members: MemberMap, key: Key, now: Time, quota: int) returns (ok: bool)
      requires Valid() && name in namespaces && members == namespaces[name]
      requires forall k :: k in members.m ==> LiveAt(items, k, now)
      requires !LiveAt(items, key, now)
      modifies this`items, this`namespaces, namespaces.Values
      ensures forall x :: x in namespaces.Values ==> x in old(namespaces.Values) || fresh(x)
      ensures Valid() && (Abs(), ok) == Admit(old(Abs()), name, key, now, quota)
      ensures ok ==> name in namespaces && members == namespaces[name]
    {
      ghost var before := Abs();
      assert Members(before, name) == members.m;
      ClearStale(name, members, key);
      ghost var cleared := Abs();
      ok := TestCapacity(name, members, now, quota);
      AdmitIs(before, name, key, now, quota, cleared, Abs(), ok);
    }

    method Write(name: Name, members: MemberMap, key: Key, item: Item)
      requires Valid() && name in namespaces && members == namespaces[name]
      modifies this`items, members
      ensures Abs() == Written(old(Abs()), name, key, item)
    {
      ghost var st0, c0 := Abs(), Contents(namespaces);
      items := items[key := item];
      members.m := members.m[key := item.expires];
      assert Contents(namespaces) == c0[name := c0[name][key := item.expires]];
      UpdateContents(namespaces, c0, name, c0[name][key := item.expires], st0);
    }

    /** The admission test after the sweep. */
    method FindSlot(name: Name, members: MemberMap, key: Key, now: Time, quota: int) returns (ok: bool)
      requires Valid() && name in namespaces && members == namespaces[name]
      requires forall k :: k in members.m ==> LiveAt(items, k, now)
      modifies this`items, this`namespaces, namespaces.Values
      ensures forall x :: x in namespaces.Values ==> x in old(namespaces.Values) || fresh(x)
      ensures Valid()
      ensures (Abs(), ok) == if LiveAt(old(items), key, now)
                             then (old(Abs()), key in Members(old(Abs()), name) || |Members(old(Abs()), name)| < quota)
                             else Admit(old(Abs()), name, key, now, quota)
      ensures ok ==> name in namespaces && members == namespaces[name]
    {
      if key in items && now < items[key].expires {
        // Already live, tracked or not: an untracked key needs a slot, then it is an overwrite.
        assert Members(Abs(), name) == members.m;
        ok := key in members.m || |members.m| < quota;
      } else {
        ok := AdmitNew(name, members, key, now, quota);
      }
    }

    method NamespaceSet(name: Name, prefix: Key, suffix: Key, data: Option<Bytes>, now: Time, ttl: int, limit: int)
      returns (r: Outcome)
      requires Valid()
      modifies this`items, this`namespaces, namespaces.Values
      ensures forall x :: x in namespaces.Values ==> x in old(namespaces.Values) || fresh(x)
      ensures Valid()
      ensures (Abs(), r) == NamespaceSetStep(old(Abs()), name, prefix + suffix, data, now, ttl, limit)
    {
      if data.None? {
        return ErrMarshal;
      }
      var key := prefix + suffix;
      var members := OpenNamespace(name, now);
      var ok := FindSlot(name, members, key, now, limit);
      if !ok {
        return ErrCapacity;
      }
      Write(name, members, key, Item(data.value, now + ttl));
      r := Done;
    }
  }
}
