/** Whole runs of calls on the mutable store: each is one of the runs that CacheRuns is about. */
module CacheReplay {
  import opened Prelude
  import opened CacheSpec
  import opened CacheRuns
  import opened CacheMemory

  predicate Conditional(op: Op) {
    op.Set? || op.Cas? || op.Cad?
  }

  predicate Namespaced(op: Op) {
    op.NsSet? || op.NsDelete? || op.NsConsume? || op.NsCas? || op.NsCad?
  }

  /** One call of the store; its member maps afterwards are old ones or new ones. */
  method Call(m: Memory, cfg: Config, ev: Event) returns (r: Outcome)
    requires m.Valid() && Disciplined(cfg, ev.op)
    modifies m`items, m`namespaces, m.namespaces.Values
    ensures forall x :: x in m.namespaces.Values ==> x in old(m.namespaces.Values) || fresh(x)
    ensures m.Valid() && (m.Abs(), r) == Step(old(m.Abs()), cfg, m.codec, ev)
  {
    if Namespaced(ev.op) {
      r := NamespaceCall(m, cfg, ev);
    } else if Conditional(ev.op) {
      r := ConditionalCall(m, cfg, ev);
    } else {
      r := PlainCall(m, cfg, ev);
    }
  }

  /** The calls that read or remove whatever is there. */
  method PlainCall(m: Memory, cfg: Config, ev: Event) returns (r: Outcome)
    requires m.Valid() && Disciplined(cfg, ev.op) && !Namespaced(ev.op) && !Conditional(ev.op)
    modifies m`items, m`namespaces, m.namespaces.Values
    ensures forall x :: x in m.namespaces.Values ==> x in old(m.namespaces.Values) || fresh(x)
    ensures m.Valid() && (m.Abs(), r) == Step(old(m.Abs()), cfg, m.codec, ev)
  {
    match ev.op
    case Get(key) => r := m.Get(key, ev.now, ev.cancelled);
    case GetRaw(key) => r := m.GetRawJSON(key, ev.now, ev.cancelled);
    case Delete(key) => r := m.Delete(key);
    case Consume(key) => r := m.AtomicConsume(key, ev.now, ev.cancelled);
  }

  /** The calls that depend on room or on what is there. */
  method ConditionalCall(m: Memory, cfg: Config, ev: Event) returns (r: Outcome)
    requires m.Valid() && Disciplined(cfg, ev.op) && Conditional(ev.op)
    modifies m`items, m`namespaces, m.namespaces.Values
    ensures forall x :: x in m.namespaces.Values ==> x in old(m.namespaces.Values) || fresh(x)
    ensures m.Valid() && (m.Abs(), r) == Step(old(m.Abs()), cfg, m.codec, ev)
  {
    match ev.op
    case Set(key, data, ttl) => r := m.Set(key, data, ev.now, ttl);
    case Cas(key, expected, replacement) => r := m.CompareAndSwapJSON(key, expected, replacement, ev.now, ev.cancelled);
    case Cad(key, expected) => r := m.CompareAndDeleteJSON(key, expected, ev.now, ev.cancelled);
  }

  /** The calls through a namespace, with the prefix and quota it was declared with. */
  method NamespaceCall(m: Memory, cfg: Config, ev: Event) returns (r: Outcome)
    requires m.Valid() && Disciplined(cfg, ev.op) && Namespaced(ev.op)
    modifies m`items, m`namespaces, m.namespaces.Values
    ensures forall x :: x in m.namespaces.Values ==> x in old(m.namespaces.Values) || fresh(x)
    ensures m.Valid() && (m.Abs(), r) == Step(old(m.Abs()), cfg, m.codec, ev)
  {
    var prefix, quota := cfg[ev.op.name].prefix, cfg[ev.op.name].quota;
    match ev.op
    case NsSet(name, suffix, data, ttl) => r := m.NamespaceSet(name, prefix, suffix, data, ev.now, ttl, quota);
    case NsDelete(name, suffix) => r := m.NamespaceDelete(name, prefix, suffix);
    case NsConsume(name, suffix) => r := m.NamespaceConsume(name, prefix, suffix, ev.now);
    case NsCas(_, suffix, expected, replacement) =>
      r := m.NamespaceCompareAndSwapJSON(prefix, suffix, expected, replacement, ev.now, ev.cancelled);
    case NsCad(name, suffix, expected) =>
      r := m.NamespaceCompareAndDeleteJSON(name, prefix, suffix, expected, ev.now, ev.cancelled);
  }

  function EffectiveLimit(limit: int): nat {
    if limit <= 0 then DEFAULT_MEMORY_LIMIT else limit
  }

  /**
   Any scheduled run on a new store: it ends in the state and gives the answers of the run of
   step functions, and so answers exactly as the log without eviction and index.
   */
  method Replay(limit: int, cfg: Config, codec: Codec, evs: seq<Event>) returns (m: Memory, outs: seq<Outcome>)
    requires PrefixFree(cfg) && Schedule(cfg, evs)
    ensures m.limit == if limit <= 0 then 10000 else limit
    ensures fresh(m) && m.Valid() && (m.Abs(), outs) == Run(EffectiveLimit(limit), cfg, codec, evs)
    ensures outs == LogRun(EffectiveLimit(limit), cfg, codec, evs).1
    ensures Inv(m.Abs(), cfg)
    ensures forall now :: (evs == [] || evs[|evs| - 1].now <= now) ==>
              Same(m.items, LogRun(EffectiveLimit(limit), cfg, codec, evs).0, now)
  {
    m := new Memory(limit, codec);
    outs := [];
    for i := 0 to |evs|
      invariant fresh(m) && fresh(m.namespaces.Values)
      invariant m.Valid() && m.codec == codec
      invariant (m.Abs(), outs) == Run(EffectiveLimit(limit), cfg, codec, evs[..i])
    {
      var r := Call(m, cfg, evs[i]);
      outs := outs + [r];
      assert evs[..i + 1][..i] == evs[..i];
    }
    assert evs[..|evs|] == evs;
    RunRefinesLog(EffectiveLimit(limit), cfg, codec, evs);
  }
}
