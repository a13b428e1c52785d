/** The second pass of an import: sites, users and threads first, then every comment, in one transaction. */
module ImportWrite {
  import opened Prelude
  import opened CommentTable
  import opened ImportSource
  import opened ImportPrepare
  import opened ImportRows

  datatype Report = Report(
    input: nat, imported: nat, published: nat, pending: nat,
    createdUsers: nat, reusedUsers: nat, createdSites: nat, reusedSites: nat, createdThreads: nat, reusedThreads: nat)

  datatype Options = Options(targetSite: int, modesValid: bool, dryRun: bool)

  datatype ImportError =
    | Unprepared(cause: PrepareError)
    | BadOptions
    | NoSuchSite
    | NoOrigin(siteKey: string)
    | AmbiguousSite(siteKey: string)
    | SiteNotEmpty(site: Id)
    | WriteFailed

  /** Normalisation of addresses and site origins, whose details do not matter here. */
  datatype Text = Text(author: Source -> string, canonical: string -> Option<string>)

  function SitesAt(sites: map<Id, string>, address: string): set<Id> {
    set s | s in sites && sites[s] == address
  }

  function CommentsOn(t: Table, site: Id): set<Id> {
    set c | c in t && t[c].site == site
  }

  /** The keys that a function of the source takes on a batch. */
  ghost function KeysOf<K>(cs: seq<Prepared>, f: Source -> K): set<K> {
    set c | c in cs :: f(c.src)
  }

  lemma KeysStep<K>(cs: seq<Prepared>, f: Source -> K, i: nat)
    requires i < |cs|
    ensures KeysOf(cs[..i + 1], f) == KeysOf(cs[..i], f) + {f(cs[i].src)}
  {
    assert cs[..i + 1] == cs[..i] + [cs[i]];
    forall k
      ensures k in KeysOf(cs[..i + 1], f) <==> k in KeysOf(cs[..i], f) + {f(cs[i].src)}
    {
      if k in KeysOf(cs[..i + 1], f) {
        var c :| c in cs[..i + 1] && f(c.src) == k;
        assert c in cs[..i] || c == cs[i];
      }
      if k in KeysOf(cs[..i], f) {
        var c :| c in cs[..i] && f(c.src) == k;
        assert c in cs[..i + 1];
      }
      assert cs[i] in cs[..i + 1];
    }
  }

  /** How many of the first `n` keys were known before. */
  function Hits<K(==)>(keys: seq<K>, n: nat, known: set<K>): nat
    requires n <= |keys|
  {
    if n == 0 then 0 else Hits(keys, n - 1, known) + if keys[n - 1] in known then 1 else 0
  }

  ghost function Elements<K>(l: seq<K>, n: nat): set<K>
    requires n <= |l|
  {
    set i | 0 <= i < n :: l[i]
  }

  /** For keys without repetition the hits are the known ones, and the rest are the others. */
  lemma {:induction false} HitsCount<K>(l: seq<K>, n: nat, known: set<K>)
    requires n <= |l| && NoRepeats(l)
    ensures Hits(l, n, known) == |Elements(l, n) * known|
    ensures n - Hits(l, n, known) == |Elements(l, n) - known|
  {
    if n > 0 {
      HitsCount(l, n - 1, known);
      var k := l[n - 1];
      OneMoreElement(l, n - 1);
      SplitOne(Elements(l, n - 1), known, k);
    }
  }

  lemma SplitOne<K>(s: set<K>, known: set<K>, k: K)
    requires k !in s
    ensures |(s + {k}) * known| == |s * known| + if k in known then 1 else 0
    ensures |(s + {k}) - known| == |s - known| + if k in known then 0 else 1
  {
    if k in known {
      assert (s + {k}) * known == s * known + {k} && (s + {k}) - known == s - known;
    } else {
      assert (s + {k}) * known == s * known && (s + {k}) - known == (s - known) + {k};
    }
  }

  lemma OneMoreElement<K>(l: seq<K>, n: nat)
    requires n < |l| && NoRepeats(l)
    ensures Elements(l, n + 1) == Elements(l, n) + {l[n]} && l[n] !in Elements(l, n)
  {
  }

  /** Each key was looked up once: `reused` of them were known, `created` were not. */
  ghost predicate Tallied<K(!new)>(all: set<K>, known: set<K>, reused: nat, created: nat) {
    exists l: seq<K> :: NoRepeats(l) && Elements(l, |l|) == all && reused == Hits(l, |l|, known) && created + reused == |l|
  }

  /** In numbers: the keys known before were reused, all others created. */
  lemma TalliedIs<K(!new)>(all: set<K>, known: set<K>, reused: nat, created: nat)
    requires Tallied(all, known, reused, created)
    ensures reused == |all * known| && created == |all - known|
    ensures created + reused == |all|
  {
    var l: seq<K> :| NoRepeats(l) && Elements(l, |l|) == all && reused == Hits(l, |l|, known) && created + reused == |l|;
    HitsCount(l, |l|, known);
    assert all == all * known + (all - known);
  }

  /** The keys of a map as a list; the program sorts it, here any order will do. */
  method ListKeys<K(==)>(keys: set<K>) returns (l: seq<K>)
    ensures NoRepeats(l) && Elements(l, |l|) == keys
  {
    l := [];
    var todo := keys;
    while todo != {}
      invariant NoRepeats(l) && todo <= keys
      invariant forall k :: k in l <==> k in keys && k !in todo
    {
      var k :| k in todo;
      todo := todo - {k};
      l := l + [k];
    }
    assert forall i :: 0 <= i < |l| ==> l[i] in l;
  }

  /** `k` has an entry if it had one or was asked for; an old entry stays, a new one has an id in the range. */
  ghost predicate Entry<K>(table0: map<K, Id>, table: map<K, Id>, keys: set<K>, low: Id, high: Id, k: K) {
    && (k in table <==> k in table0 || k in keys)
    && (k in table0 && k in table ==> table[k] == table0[k])
    && (k in table && k !in table0 ==> low <= table[k] < high)
  }

  /** New entries of different keys have different ids. */
  ghost predicate Apart<K>(table0: map<K, Id>, table: map<K, Id>, a: K, b: K) {
    a in table && b in table && a !in table0 && b !in table0 && a != b ==> table[a] != table[b]
  }

  /** Exactly `keys` are added, with ids from `low` on and below `high`, no two the same. */
  ghost predicate Grown<K(!new)>(table0: map<K, Id>, table: map<K, Id>, keys: set<K>, low: Id, high: Id) {
    && (forall k {:trigger Entry(table0, table, keys, low, high, k)} :: Entry(table0, table, keys, low, high, k))
    && (forall a, b {:trigger Apart(table0, table, a, b)} :: Apart(table0, table, a, b))
  }

  lemma GrownStep<K(!new)>(table0: map<K, Id>, table: map<K, Id>, keys: set<K>, low: Id, high: Id, key: K, id: Id, high': Id)
    requires Grown(table0, table, keys, low, high) && key !in keys
    requires low <= high <= high'
    requires if key in table then table[key] == id else high <= id < high'
    ensures Grown(table0, table[key := id], keys + {key}, low, high')
    ensures key in table <==> key in table0
  {
    var table' := table[key := id];
    assert Entry(table0, table, keys, low, high, key);
    forall k
      ensures Entry(table0, table', keys + {key}, low, high', k)
    {
      assert Entry(table0, table, keys, low, high, k);
    }
    forall a, b
      ensures Apart(table0, table', a, b)
    {
      assert Apart(table0, table, a, b);
      assert Entry(table0, table, keys, low, high, a) && Entry(table0, table, keys, low, high, b);
    }
  }

  lemma GrownWider<K(!new)>(table0: map<K, Id>, table: map<K, Id>, keys: set<K>, low: Id, high: Id, low': Id, high': Id)
    requires Grown(table0, table, keys, low, high) && low' <= low && high <= high'
    ensures Grown(table0, table, keys, low', high')
  {
    forall k
      ensures Entry(table0, table, keys, low', high', k)
    {
      assert Entry(table0, table, keys, low, high, k);
    }
  }

  ghost predicate IdBelow<K>(table: map<K, Id>, next: Id, k: K) {
    k in table ==> table[k] < next
  }

  ghost predicate IdsDiffer<K>(table: map<K, Id>, a: K, b: K) {
    a in table && b in table && a != b ==> table[a] != table[b]
  }

  /** Every entry has an id of its own, below the next one to be handed out. */
  ghost predicate Numbered<K(!new)>(table: map<K, Id>, next: Id) {
    && (forall k {:trigger IdBelow(table, next, k)} :: IdBelow(table, next, k))
    && (forall a, b {:trigger IdsDiffer(table, a, b)} :: IdsDiffer(table, a, b))
  }

  lemma NumberedIs<K(!new)>(table: map<K, Id>, next: Id)
    ensures Numbered(table, next)
            <==> && (forall k :: k in table ==> table[k] < next)
                 && (forall a, b :: a in table && b in table && a != b ==> table[a] != table[b])
  {
    if Numbered(table, next) {
      forall k | k in table
        ensures table[k] < next
      {
        assert IdBelow(table, next, k);
      }
      forall a, b | a in table && b in table && a != b
        ensures table[a] != table[b]
      {
        assert IdsDiffer(table, a, b);
      }
    }
  }

  lemma NumberedStep<K(!new)>(table: map<K, Id>, next: Id, key: K, id: Id, next': Id)
    requires Numbered(table, next) && next <= next'
    requires if key in table then id == table[key] else next <= id < next'
    ensures Numbered(table[key := id], next')
  {
    NumberedIs(table, next);
    NumberedIs(table[key := id], next');
  }

  lemma NumberedLater<K(!new)>(table: map<K, Id>, next: Id, next': Id)
    requires Numbered(table, next) && next <= next'
    ensures Numbered(table, next')
  {
    NumberedIs(table, next);
    NumberedIs(table, next');
  }

  /** A table grown from a numbered one is numbered: no new entry takes the id of an old one. */
  lemma GrownNumbered<K(!new)>(table0: map<K, Id>, table: map<K, Id>, keys: set<K>, low: Id, high: Id)
    requires Grown(table0, table, keys, low, high) && Numbered(table0, low) && low <= high
    ensures Numbered(table, high)
  {
    forall k
      ensures IdBelow(table, high, k)
    {
      assert Entry(table0, table, keys, low, high, k) && IdBelow(table0, low, k);
    }
    forall a, b
      ensures IdsDiffer(table, a, b)
    {
      assert Entry(table0, table, keys, low, high, a) && IdBelow(table0, low, a);
      assert Entry(table0, table, keys, low, high, b) && IdBelow(table0, low, b);
      assert IdsDiffer(table0, a, b) && Apart(table0, table, a, b);
    }
  }

  /**
   Spelled out: the old entries and one for each key, old ids kept, new ids new and different.
   If old ids were below the first new one and different, no two entries share an id.
   */
  lemma GrownIs<K(!new)>(table0: map<K, Id>, table: map<K, Id>, keys: set<K>, low: Id, high: Id)
    requires Grown(table0, table, keys, low, high)
    ensures table.Keys == table0.Keys + keys
    ensures forall k :: k in table0 ==> table[k] == table0[k]
    ensures forall k :: k in keys && k !in table0 ==> low <= table[k] < high
    ensures forall a, b :: a in keys && b in keys && a !in table0 && b !in table0 && a != b ==> table[a] != table[b]
    ensures Numbered(table0, low) && low <= high ==>
              forall a, b :: a in table && b in table && a != b ==> table[a] != table[b]
  {
    forall k
      ensures k in table <==> k in table0 || k in keys
      ensures k in table0 ==> table[k] == table0[k]
      ensures k in keys && k !in table0 ==> low <= table[k] < high
    {
      assert Entry(table0, table, keys, low, high, k);
    }
    forall a, b | a in keys && b in keys && a !in table0 && b !in table0 && a != b
      ensures table[a] != table[b]
    {
      assert Apart(table0, table, a, b);
    }
    if Numbered(table0, low) && low <= high {
      GrownNumbered(table0, table, keys, low, high);
      NumberedIs(table, high);
    }
  }

  /** An old site stays as it is, and with an explicit target there is no new one. */
  ghost predicate SiteStays(target: int, sites0: map<Id, string>, sites1: map<Id, string>, s: Id) {
    (s in sites0 ==> s in sites1 && sites1[s] == sites0[s]) && (target > 0 && s in sites1 ==> s in sites0)
  }

  /** An address keeps its sites, or gets its first one, without comments. */
  ghost predicate AddressKept(t0: Table, sites0: map<Id, string>, sites1: map<Id, string>, address: string) {
    || SitesAt(sites1, address) == SitesAt(sites0, address)
    || (SitesAt(sites0, address) == {} && exists s :: SitesAt(sites1, address) == {s} && CommentsOn(t0, s) == {})
  }

  ghost predicate SitesAdded(t0: Table, sites0: map<Id, string>, sites1: map<Id, string>) {
    forall a {:trigger AddressKept(t0, sites0, sites1, a)} :: AddressKept(t0, sites0, sites1, a)
  }

  lemma UnusedIsEmpty(t: Table, site: Id)
    requires forall c :: c in t ==> t[c].site < site
    ensures CommentsOn(t, site) == {}
  {
    assert forall c :: c !in CommentsOn(t, site);
  }

  lemma AddsNothing(t0: Table, sites0: map<Id, string>)
    ensures SitesAdded(t0, sites0, sites0)
  {
  }

  lemma AddsOneSite(t0: Table, sites0: map<Id, string>, sites1: map<Id, string>, sites2: map<Id, string>, address: string, site: Id)
    requires SitesAdded(t0, sites0, sites1) && CommentsOn(t0, site) == {}
    requires sites2 == sites1 || (SitesAt(sites1, address) == {} && site !in sites1 && sites2 == sites1[site := address])
    ensures SitesAdded(t0, sites0, sites2)
  {
    forall a
      ensures AddressKept(t0, sites0, sites2, a)
    {
      assert AddressKept(t0, sites0, sites1, a);
      if sites2 != sites1 {
        assert SitesAt(sites2, a) == if a == address then {site} else SitesAt(sites1, a);
      }
    }
  }

  lemma AtMostOne<T>(s: set<T>)
    ensures |s| <= 1 <==> forall a, b :: a in s && b in s ==> a == b
  {
    if a, b :| a in s && b in s && a != b {
      SubsetSize({a, b}, s);
    } else if s != {} {
      var x :| x in s;
      assert s == {x};
    }
  }

  lemma OnlyOne<T>(s: set<T>, x: T)
    requires x in s && |s| <= 1
    ensures s == {x}
  {
    SubsetSize({x}, s);
  }

  /** The tables at one moment of an import. */
  datatype Tables = Tables(
    comments: Table, users: map<string, Id>, threads: map<(Id, string), Id>, sites: map<Id, string>, nextId: Id)

  /** What a promise about an import is about; proofs look at one aspect at a time. */
  datatype Aspect = OfRows | OfTables | OfCounters

  datatype Tally = Tally(createdUsers: nat, reusedUsers: nat, createdThreads: nat, reusedThreads: nat)

  function TallyOf(n: Report): Tally {
    Tally(n.createdUsers, n.reusedUsers, n.createdThreads, n.reusedThreads)
  }

  /** Users and threads are those known before and one new one per missing key, counted as such. */
  ghost predicate Found(before: Tables, after: Tables, authors: set<string>, pages: set<(Id, string)>, n: Tally) {
    && Grown(before.users, after.users, authors, before.nextId, after.nextId)
    && Grown(before.threads, after.threads, pages, before.nextId, after.nextId)
    && Tallied(authors, before.users.Keys, n.reusedUsers, n.createdUsers)
    && Tallied(pages, before.threads.Keys, n.reusedThreads, n.createdThreads)
  }

  lemma FoundHas(before: Tables, after: Tables, authors: set<string>, pages: set<(Id, string)>, n: Tally, author: string, page: (Id, string))
    requires Found(before, after, authors, pages, n) && author in authors && page in pages
    ensures author in after.users && page in after.threads
  {
    assert Entry(before.users, after.users, authors, before.nextId, after.nextId, author);
    assert Entry(before.threads, after.threads, pages, before.nextId, after.nextId, page);
  }

  /** Spelled out for both tables. */
  lemma FoundMeans(before: Tables, after: Tables, authors: set<string>, pages: set<(Id, string)>, n: Tally)
    requires Found(before, after, authors, pages, n)
    ensures after.users.Keys == before.users.Keys + authors && after.threads.Keys == before.threads.Keys + pages
    ensures n.createdUsers == |authors - before.users.Keys| && n.reusedUsers == |authors * before.users.Keys|
    ensures n.createdThreads == |pages - before.threads.Keys| && n.reusedThreads == |pages * before.threads.Keys|
    ensures forall k :: k in before.users ==> after.users[k] == before.users[k]
    ensures forall k :: k in before.threads ==> after.threads[k] == before.threads[k]
  {
    GrownIs(before.users, after.users, authors, before.nextId, after.nextId);
    GrownIs(before.threads, after.threads, pages, before.nextId, after.nextId);
    TalliedIs(authors, before.users.Keys, n.reusedUsers, n.createdUsers);
    TalliedIs(pages, before.threads.Keys, n.reusedThreads, n.createdThreads);
  }

  /** It stays true over a longer stretch in which the users and threads are touched no more. */
  lemma FoundWider(before: Tables, after: Tables, before': Tables, after': Tables, authors: set<string>, pages: set<(Id, string)>, n: Tally)
    requires Found(before, after, authors, pages, n)
    requires before'.users == before.users && before'.threads == before.threads && before'.nextId <= before.nextId
    requires after'.users == after.users && after'.threads == after.threads && after.nextId <= after'.nextId
    ensures Found(before', after', authors, pages, n)
  {
    GrownWider(before.users, after.users, authors, before.nextId, after.nextId, before'.nextId, after'.nextId);
    GrownWider(before.threads, after.threads, pages, before.nextId, after.nextId, before'.nextId, after'.nextId);
  }

  /** The importer and the tables it writes. */
  class Importer {
    var comments: Table
    var users: map<string, Id>
    var threads: map<(Id, string), Id>
    var sites: map<Id, string>
    var nextId: Id

    var imported: nat
    var published: nat
    var pending: nat
    var createdUsers: nat
    var reusedUsers: nat
    var createdSites: nat
    var reusedSites: nat
    var createdThreads: nat
    var reusedThreads: nat

    const text: Text

    /** Every id in use is below the next one, and no two users and no two threads share one. */
    ghost predicate Valid()
      reads this`comments, this`sites, this`users, this`threads, this`nextId
    {
      RowsBelow() && Numbered(users, nextId) && Numbered(threads, nextId)
    }

    ghost predicate RowsBelow()
      reads this`comments, this`sites, this`nextId
    {
      && (forall c :: c in comments ==> c < nextId && comments[c].site < nextId)
      && (forall s :: s in sites ==> s < nextId)
    }

    // ---------------------------------------------------------------- users

    method UserFor(key: string) returns (r: Result<Id, ImportError>)
      requires Numbered(users, nextId)
      modifies this`users, this`nextId, this`createdUsers, this`reusedUsers
      ensures Numbered(users, nextId) && nextId >= old(nextId)
      ensures r.Ok? ==> users == old(users)[key := r.value]
      ensures r.Ok? ==> if key in old(users) then r.value == old(users)[key] else old(nextId) <= r.value < nextId
      ensures r.Ok? ==> reusedUsers == old(reusedUsers) + (if key in old(users) then 1 else 0)
      ensures r.Ok? ==> createdUsers == old(createdUsers) + (if key in old(users) then 0 else 1)
    {
      if key in users {
        reusedUsers := reusedUsers + 1;
        return Ok(users[key]);
      }
      var fails: bool := *;
      if fails {
        return Err(WriteFailed);
      }
      NumberedStep(users, nextId, key, nextId, nextId + 1);
      r := Ok(nextId);
      users := users[key := nextId];
      nextId := nextId + 1;
      createdUsers := createdUsers + 1;
    }

    /** Gives every comment its author key, then finds or creates one user per key. */
    method ResolveUsers(cs: seq<Prepared>) returns (ok: bool)
      requires createdUsers == reusedUsers == 0 && Numbered(users, nextId)
      modifies this`users, this`nextId, this`createdUsers, this`reusedUsers, (set c | c in cs)`authorKey
      ensures Numbered(users, nextId) && nextId >= old(nextId)
      ensures ok ==> forall c :: c in cs ==> c.authorKey == text.author(c.src)
      ensures ok ==> Grown(old(users), users, KeysOf(cs, text.author), old(nextId), nextId)
      ensures ok ==> Tallied(KeysOf(cs, text.author), old(users).Keys, reusedUsers, createdUsers)
    {
      var authors: set<string> := {};
      for i := 0 to |cs|
        invariant forall j :: 0 <= j < i ==> cs[j].authorKey == text.author(cs[j].src)
        invariant authors == KeysOf(cs[..i], text.author)
        invariant users == old(users) && nextId == old(nextId)
        invariant createdUsers == old(createdUsers) && reusedUsers == old(reusedUsers)
      {
        cs[i].authorKey := text.author(cs[i].src);
        authors := authors + {cs[i].authorKey};
        KeysStep(cs, text.author, i);
      }
      assert cs[..|cs|] == cs;
      var list := ListKeys(authors);
      for n := 0 to |list|
        invariant Numbered(users, nextId)
        invariant nextId >= old(nextId) && Grown(old(users), users, Elements(list, n), old(nextId), nextId)
        invariant reusedUsers == Hits(list, n, old(users).Keys)
        invariant createdUsers == n - Hits(list, n, old(users).Keys)
        invariant forall c :: c in cs ==> c.authorKey == text.author(c.src)
      {
        ghost var users1, next1 := users, nextId;
        var user := UserFor(list[n]);
        if user.Err? {
          return false;
        }
        OneMoreElement(list, n);
        GrownStep(old(users), users1, Elements(list, n), old(nextId), next1, list[n], user.value, nextId);
      }
      ok := true;
    }

    // ---------------------------------------------------------------- sites

    /** A key can be given a site: it has an address, at most one site has that, and it is empty. */
    ghost predicate SiteReady(t0: Table, sites0: map<Id, string>, key: string) {
      var address := text.canonical(key);
      address.Some? && |SitesAt(sites0, address.value)| <= 1
      && forall s :: s in SitesAt(sites0, address.value) ==> CommentsOn(t0, s) == {}
    }

    /** The sites for a set of keys can be found: the explicit target exists and is empty, or each key is ready. */
    ghost predicate SitesReady(t0: Table, sites0: map<Id, string>, target: int, keys: set<string>) {
      if target > 0 then target in sites0 && CommentsOn(t0, target) == {}
      else forall k {:trigger SiteReady(t0, sites0, k)} :: k in keys ==> SiteReady(t0, sites0, k)
    }

    /** The site chosen for a key: the only one with its address, or a new one with that address. */
    ghost predicate SiteChosen(sites1: map<Id, string>, sites2: map<Id, string>, key: string, site: Id) {
      var address := text.canonical(key);
      address.Some?
      && if SitesAt(sites1, address.value) == {} then site !in sites1 && sites2 == sites1[site := address.value]
         else SitesAt(sites1, address.value) == {site} && sites2 == sites1
    }

    /** The site for one key: the only one with its canonical address, or a new one. It must be empty. */
    method SiteFor(key: string) returns (r: Result<Id, ImportError>)
      requires RowsBelow()
      modifies this`sites, this`nextId, this`createdSites, this`reusedSites
      ensures RowsBelow() && nextId >= old(nextId)
      ensures text.canonical(key).None? ==> r == Err(NoOrigin(key))
      ensures text.canonical(key).Some? && |SitesAt(old(sites), text.canonical(key).value)| > 1 ==> r == Err(AmbiguousSite(key))
      ensures r.Ok? ==> SiteReady(comments, old(sites), key)
      ensures r.Err? ==> r.error == WriteFailed || !SiteReady(comments, old(sites), key)
      ensures r.Ok? ==> SiteChosen(old(sites), sites, key, r.value) && CommentsOn(comments, r.value) == {}
      ensures r.Ok? ==> createdSites - old(createdSites) == |sites| - |old(sites)|
      ensures r.Ok? ==> createdSites + reusedSites == old(createdSites) + old(reusedSites) + 1
    {
      var address := text.canonical(key);
      if address.None? {
        return Err(NoOrigin(key));
      }
      var matches: set<Id> := SitesAt(sites, address.value);
      var site: Id;
      if |matches| > 1 {
        return Err(AmbiguousSite(key));
      }
      if matches != {} {
        site := AnyOf(matches);
        OnlyOne(matches, site);
        reusedSites := reusedSites + 1;
      } else {
        var fails: bool := *;
        if fails {
          return Err(WriteFailed);
        }
        site := nextId;
        sites := sites[site := address.value];
        nextId := nextId + 1;
        createdSites := createdSites + 1;
        UnusedIsEmpty(comments, site);
      }
      if CommentsOn(comments, site) != {} {
        return Err(SiteNotEmpty(site));
      }
      r := Ok(site);
    }

    /** The site found for a key exists, is empty, and is the explicit target or has the key's address. */
    ghost predicate SiteOk(t0: Table, siteIds: map<string, Id>, target: int, sites1: map<Id, string>, key: string) {
      key in siteIds ==>
        && siteIds[key] in sites1 && CommentsOn(t0, siteIds[key]) == {}
        && if target > 0 then siteIds[key] == target else text.canonical(key) == Some(sites1[siteIds[key]])
    }

    /** Every key has its site, old sites stay as they are, and an explicit target adds none. */
    ghost predicate SitesResolved(t0: Table, siteIds: map<string, Id>, target: int, sites0: map<Id, string>, sites1: map<Id, string>) {
      && (forall k {:trigger SiteOk(t0, siteIds, target, sites1, k)} :: SiteOk(t0, siteIds, target, sites1, k))
      && (forall s {:trigger SiteStays(target, sites0, sites1, s)} :: SiteStays(target, sites0, sites1, s))
    }

    lemma ReadyEarlier(t0: Table, sites0: map<Id, string>, sites1: map<Id, string>, key: string)
      requires SitesAdded(t0, sites0, sites1)
      ensures SiteReady(t0, sites1, key) <==> SiteReady(t0, sites0, key)
    {
      if text.canonical(key).Some? {
        assert AddressKept(t0, sites0, sites1, text.canonical(key).value);
      }
    }

    /** Some keys have their sites, each was ready at the start, and only missing addresses got a site. */
    ghost predicate SitesProgress(t0: Table, found: map<string, Id>, keys: set<string>, sites0: map<Id, string>,
                                  sites1: map<Id, string>, created: int, reused: int) {
      forall x {:trigger ProgressAspect(x, t0, found, keys, sites0, sites1, created, reused)} ::
        ProgressAspect(x, t0, found, keys, sites0, sites1, created, reused)
    }

    ghost predicate ProgressAspect(x: Aspect, t0: Table, found: map<string, Id>, keys: set<string>,
                                   sites0: map<Id, string>, sites1: map<Id, string>, created: int, reused: int) {
      match x
      case OfRows => SitesResolved(t0, found, 0, sites0, sites1) && SitesAdded(t0, sites0, sites1)
      case OfTables => found.Keys == keys && SitesReady(t0, sites0, 0, keys)
      case OfCounters => created + reused == |keys| && created == |sites1| - |sites0|
    }

    lemma ProgressIs(t0: Table, found: map<string, Id>, keys: set<string>, sites0: map<Id, string>, sites1: map<Id, string>,
                     created: int, reused: int)
      ensures SitesProgress(t0, found, keys, sites0, sites1, created, reused)
              <==> && found.Keys == keys && SitesResolved(t0, found, 0, sites0, sites1)
                   && SitesAdded(t0, sites0, sites1) && SitesReady(t0, sites0, 0, keys)
                   && created + reused == |keys| && created == |sites1| - |sites0|
    {
      if SitesProgress(t0, found, keys, sites0, sites1, created, reused) {
        assert ProgressAspect(OfRows, t0, found, keys, sites0, sites1, created, reused);
        assert ProgressAspect(OfTables, t0, found, keys, sites0, sites1, created, reused);
        assert ProgressAspect(OfCounters, t0, found, keys, sites0, sites1, created, reused);
      }
    }

    lemma NoSitesYet(t0: Table, sites0: map<Id, string>)
      ensures SitesProgress(t0, map[], {}, sites0, sites0, 0, 0)
    {
      AddsNothing(t0, sites0);
      ProgressIs(t0, map[], {}, sites0, sites0, 0, 0);
    }

    /** One empty site per key; the sites found and made are counted. */
    method FindOrCreateSites(keys: set<string>)
      returns (r: Result<map<string, Id>, ImportError>, ghost created: int, ghost reused: int)
      requires RowsBelow()
      modifies this`sites, this`nextId, this`createdSites, this`reusedSites
      ensures RowsBelow() && nextId >= old(nextId)
      ensures createdSites == old(createdSites) + created && reusedSites == old(reusedSites) + reused
      ensures r.Ok? ==> SitesProgress(comments, r.value, keys, old(sites), sites, created, reused)
      ensures r.Err? ==> r.error == WriteFailed || !SitesReady(comments, old(sites), 0, keys)
    {
      NoSitesYet(comments, sites);
      created, reused := 0, 0;
      var found: map<string, Id> := map[];
      var list := ListKeys(keys);
      for n := 0 to |list|
        invariant RowsBelow() && nextId >= old(nextId)
        invariant createdSites == old(createdSites) + created && reusedSites == old(reusedSites) + reused
        invariant SitesProgress(comments, found, Elements(list, n), old(sites), sites, created, reused)
      {
        OneMoreElement(list, n);
        ElementIn(list, n);
        var more;
        more, created, reused := NextSite(list[n], found, Elements(list, n), old(sites), created, reused);
        if more.Err? {
          NotReady(comments, old(sites), keys, list[n]);
          return Err(more.error), created, reused;
        }
        found := more.value;
      }
      r := Ok(found);
    }

    /** One turn of the loop. */
    method NextSite(key: string, found: map<string, Id>, ghost keys: set<string>, ghost sites0: map<Id, string>,
                    ghost created: int, ghost reused: int)
      returns (r: Result<map<string, Id>, ImportError>, ghost created': int, ghost reused': int)
      requires RowsBelow() && SitesProgress(comments, found, keys, sites0, sites, created, reused) && key !in keys
      modifies this`sites, this`nextId, this`createdSites, this`reusedSites
      ensures RowsBelow() && nextId >= old(nextId)
      ensures createdSites - old(createdSites) == created' - created && reusedSites - old(reusedSites) == reused' - reused
      ensures r.Ok? ==> SitesProgress(comments, r.value, keys + {key}, sites0, sites, created', reused')
      ensures r.Err? ==> r.error == WriteFailed || !SiteReady(comments, sites0, key)
    {
      ghost var sites1 := sites;
      ProgressIs(comments, found, keys, sites0, sites1, created, reused);
      ReadyEarlier(comments, sites0, sites1, key);
      var site := SiteFor(key);
      created', reused' := created + createdSites - old(createdSites), reused + reusedSites - old(reusedSites);
      if site.Err? {
        return Err(site.error), created', reused';
      }
      SiteTaken(comments, found, keys, sites0, sites1, sites, key, site.value, created, reused, created', reused');
      return Ok(found[key := site.value]), created', reused';
    }

    lemma NotReady(t0: Table, sites0: map<Id, string>, keys: set<string>, key: string)
      requires key in keys
      ensures !SiteReady(t0, sites0, key) ==> !SitesReady(t0, sites0, 0, keys)
    {
    }

    lemma SiteTaken(t0: Table, found: map<string, Id>, keys: set<string>, sites0: map<Id, string>, sites1: map<Id, string>,
                    sites2: map<Id, string>, key: string, site: Id, created: int, reused: int, created': int, reused': int)
      requires SitesProgress(t0, found, keys, sites0, sites1, created, reused) && SiteReady(t0, sites0, key) && key !in keys
      requires SiteChosen(sites1, sites2, key, site) && CommentsOn(t0, site) == {}
      requires created' + reused' == created + reused + 1 && created' - created == |sites2| - |sites1|
      ensures SitesProgress(t0, found[key := site], keys + {key}, sites0, sites2, created', reused')
    {
      ProgressIs(t0, found, keys, sites0, sites1, created, reused);
      ProgressIs(t0, found[key := site], keys + {key}, sites0, sites2, created', reused');
      SiteJoins(t0, found, sites0, sites1, sites2, key, site);
      AddsOneSite(t0, sites0, sites1, sites2, text.canonical(key).value, site);
    }

    lemma SiteJoins(t0: Table, found: map<string, Id>, sites0: map<Id, string>, sites1: map<Id, string>,
                    sites2: map<Id, string>, key: string, site: Id)
      requires SitesResolved(t0, found, 0, sites0, sites1)
      requires SiteChosen(sites1, sites2, key, site) && CommentsOn(t0, site) == {}
      ensures SitesResolved(t0, found[key := site], 0, sites0, sites2)
    {
      assert SitesAt(sites1, text.canonical(key).value) == {site} ==> site in SitesAt(sites1, text.canonical(key).value);
      var found' := found[key := site];
      forall k
        ensures SiteOk(t0, found', 0, sites2, k)
      {
        assert SiteOk(t0, found, 0, sites1, k);
      }
      forall s
        ensures SiteStays(0, sites0, sites2, s)
      {
        assert SiteStays(0, sites0, sites1, s);
      }
    }

    /** Every key has its site; new sites are those counted as created, the others are counted as reused. */
    ghost predicate SitesSettled(keys: set<string>, siteIds: map<string, Id>, target: int, t0: Table,
                                 sites0: map<Id, string>, sites1: map<Id, string>, created: nat, reused: nat) {
      forall x {:trigger SettledAspect(x, keys, siteIds, target, t0, sites0, sites1, created, reused)} ::
        SettledAspect(x, keys, siteIds, target, t0, sites0, sites1, created, reused)
    }

    ghost predicate SettledAspect(x: Aspect, keys: set<string>, siteIds: map<string, Id>, target: int, t0: Table,
                                  sites0: map<Id, string>, sites1: map<Id, string>, created: nat, reused: nat) {
      match x
      case OfRows => SitesResolved(t0, siteIds, target, sites0, sites1)
      case OfTables => siteIds.Keys == keys
      case OfCounters => created + reused == (if target > 0 then 1 else |keys|) && created == |sites1| - |sites0|
    }

    lemma SettledIs(keys: set<string>, siteIds: map<string, Id>, target: int, t0: Table,
                    sites0: map<Id, string>, sites1: map<Id, string>, created: nat, reused: nat)
      ensures SitesSettled(keys, siteIds, target, t0, sites0, sites1, created, reused)
              <==> && siteIds.Keys == keys && SitesResolved(t0, siteIds, target, sites0, sites1)
                   && created + reused == (if target > 0 then 1 else |keys|)
                   && created == |sites1| - |sites0|
    {
      if SitesSettled(keys, siteIds, target, t0, sites0, sites1, created, reused) {
        assert SettledAspect(OfRows, keys, siteIds, target, t0, sites0, sites1, created, reused);
        assert SettledAspect(OfTables, keys, siteIds, target, t0, sites0, sites1, created, reused);
        assert SettledAspect(OfCounters, keys, siteIds, target, t0, sites0, sites1, created, reused);
      }
    }

    /** Every site key gets a target site that holds no comments yet. */
    method ResolveSites(cs: seq<Prepared>, target: int) returns (r: Result<map<string, Id>, ImportError>)
      requires RowsBelow() && createdSites == reusedSites == 0
      modifies this`sites, this`nextId, this`createdSites, this`reusedSites
      ensures RowsBelow() && nextId >= old(nextId)
      ensures r.Ok? ==>
                SitesSettled(KeysOf(cs, SITE_NAME), r.value, target, comments, old(sites), sites, createdSites, reusedSites)
      ensures r.Ok? ==> SitesReady(comments, old(sites), target, KeysOf(cs, SITE_NAME))
      ensures r.Err? ==> r.error == WriteFailed || !SitesReady(comments, old(sites), target, KeysOf(cs, SITE_NAME))
    {
      var keys := SiteNames(cs);
      if target > 0 {
        if target !in sites {
          return Err(NoSuchSite);
        }
        if CommentsOn(comments, target) != {} {
          return Err(SiteNotEmpty(target));
        }
        reusedSites := 1;
        return Ok(map k | k in keys :: target);
      }
      ghost var created, reused;
      r, created, reused := FindOrCreateSites(keys);
      if r.Ok? {
        ProgressIs(comments, r.value, keys, old(sites), sites, created, reused);
        WithoutTarget(comments, r.value, target, old(sites), sites);
      }
    }

    lemma WithoutTarget(t0: Table, siteIds: map<string, Id>, target: int, sites0: map<Id, string>, sites1: map<Id, string>)
      requires SitesResolved(t0, siteIds, 0, sites0, sites1) && target <= 0
      ensures SitesResolved(t0, siteIds, target, sites0, sites1)
    {
      forall k
        ensures SiteOk(t0, siteIds, target, sites1, k)
      {
        assert SiteOk(t0, siteIds, 0, sites1, k);
      }
      forall s
        ensures SiteStays(target, sites0, sites1, s)
      {
        assert SiteStays(0, sites0, sites1, s);
      }
    }

    /** The site keys of a batch. */
    method SiteNames(cs: seq<Prepared>) returns (keys: set<string>)
      ensures keys == KeysOf(cs, SITE_NAME)
    {
      keys := {};
      for i := 0 to |cs|
        invariant keys == KeysOf(cs[..i], SITE_NAME)
      {
        KeysStep(cs, SITE_NAME, i);
        keys := keys + {cs[i].src.site};
      }
      assert cs[..|cs|] == cs;
    }

    // ---------------------------------------------------------------- threads

    method ThreadFor(key: (Id, string)) returns (r: Result<Id, ImportError>)
      requires Numbered(threads, nextId)
      modifies this`threads, this`nextId, this`createdThreads, this`reusedThreads
      ensures Numbered(threads, nextId) && nextId >= old(nextId)
      ensures r.Ok? ==> threads == old(threads)[key := r.value]
      ensures r.Ok? ==> if key in old(threads) then r.value == old(threads)[key] else old(nextId) <= r.value < nextId
      ensures r.Ok? ==> reusedThreads == old(reusedThreads) + (if key in old(threads) then 1 else 0)
      ensures r.Ok? ==> createdThreads == old(createdThreads) + (if key in old(threads) then 0 else 1)
    {
      if key in threads {
        reusedThreads := reusedThreads + 1;
      } else {
        createdThreads := createdThreads + 1;
      }
      var fails: bool := *;
      if fails {
        return Err(WriteFailed);
      }
      if key !in threads {
        NumberedStep(threads, nextId, key, nextId, nextId + 1);
        threads := threads[key := nextId];
        nextId := nextId + 1;
      }
      r := Ok(threads[key]);
    }

    /** Finds or creates one thread per site and page. */
    method ResolveThreads(cs: seq<Prepared>, siteIds: map<string, Id>) returns (ok: bool)
      requires createdThreads == reusedThreads == 0 && Numbered(threads, nextId)
      modifies this`threads, this`nextId, this`createdThreads, this`reusedThreads
      ensures Numbered(threads, nextId) && nextId >= old(nextId)
      ensures ok ==> Grown(old(threads), threads, KeysOf(cs, PageOf(siteIds)), old(nextId), nextId)
      ensures ok ==> Tallied(KeysOf(cs, PageOf(siteIds)), old(threads).Keys, reusedThreads, createdThreads)
    {
      var pages: set<(Id, string)> := {};
      for i := 0 to |cs|
        invariant pages == KeysOf(cs[..i], PageOf(siteIds))
        invariant threads == old(threads) && nextId == old(nextId)
        invariant createdThreads == old(createdThreads) && reusedThreads == old(reusedThreads)
      {
        KeysStep(cs, PageOf(siteIds), i);
        pages := pages + {PageOf(siteIds)(cs[i].src)};
      }
      assert cs[..|cs|] == cs;
      var list := ListKeys(pages);
      for n := 0 to |list|
        invariant Numbered(threads, nextId)
        invariant nextId >= old(nextId) && Grown(old(threads), threads, Elements(list, n), old(nextId), nextId)
        invariant reusedThreads == Hits(list, n, old(threads).Keys)
        invariant createdThreads == n - Hits(list, n, old(threads).Keys)
      {
        ghost var threads1, next1 := threads, nextId;
        var thread := ThreadFor(list[n]);
        if thread.Err? {
          return false;
        }
        OneMoreElement(list, n);
        GrownStep(old(threads), threads1, Elements(list, n), old(nextId), next1, list[n], thread.value, nextId);
      }
      ok := true;
    }

    // ---------------------------------------------------------------- comments

    /** Inserts a comment row; the database picks an id it has not used. */
    method CreateComment(row: Row) returns (r: Result<Id, ImportError>)
      requires RowsBelow() && row.site < nextId
      modifies this`comments, this`nextId
      ensures RowsBelow() && nextId >= old(nextId)
      ensures r.Ok? ==> r.value !in old(comments) && comments == old(comments)[r.value := row]
    {
      var fails: bool := *;
      if fails {
        return Err(WriteFailed);
      }
      r := Ok(nextId);
      comments := comments[nextId := row];
      nextId := nextId + 1;
    }

    /** A comment's object holds what the pass found out about it. */
    ghost predicate Written(c: Prepared, m: Sources, p: Placing)
      reads c
    {
      c.targetID == At(p.ids, c.src.id) && WrittenLinks(c, m, p)
    }

    ghost predicate WrittenLinks(c: Prepared, m: Sources, p: Placing)
      reads c
    {
      && c.targetUser == At(p.users, p.author(c.src))
      && c.targetDepth == DepthOf(m, c.src.id)
      && c.targetRoot == if DepthOf(m, c.src.id) == 0 then None else Some(At(p.ids, TopOf(m, c.src.id)))
    }

    /** Parent, root and depth of a comment, from its parent's object, written before. */
    method ReplyLinks(c: Prepared, byID: Index, ghost m: Sources, ghost p: Placing)
      returns (parentID: Option<Id>, rootID: Option<Id>, depth: nat)
      requires Indexes(byID, m) && c.src.id in byID && byID[c.src.id] == c && Importable(m, c.src.id)
      requires c.src.parent != "" ==> c.src.parent in byID && Written(byID[c.src.parent], m, p)
      ensures var row := RowFor(m, p, c.src.id); parentID == row.parent && rootID == row.root && depth == row.depth
    {
      DepthStep(m, c.src.id);
      parentID, rootID, depth := None, None, 0;
      if c.src.parent != "" {
        var parent := byID[c.src.parent];
        DepthStep(m, c.src.parent);
        parentID := Some(parent.targetID);
        depth := parent.targetDepth + 1;
        rootID := if parent.targetRoot.Some? then parent.targetRoot else Some(parent.targetID);
      }
    }

    /** Writes the row of one comment and notes its place. */
    method WriteComment(c: Prepared, byID: Index, ghost m: Sources, ghost p: Placing, siteIds: map<string, Id>)
      returns (r: Result<Id, ImportError>)
      requires RowsBelow() && Indexes(byID, m) && c.src.id in byID && byID[c.src.id] == c
      requires Importable(m, c.src.id)
      requires p.sites == siteIds && p.users == users && p.threads == threads && p.author == text.author
      requires c.authorKey == text.author(c.src) && At(siteIds, c.src.site) < nextId
      requires c.src.parent != "" ==> c.src.parent in byID && byID[c.src.parent] != c && Written(byID[c.src.parent], m, p)
      modifies this`comments, this`nextId, this`imported, this`published, this`pending,
               c`targetSite, c`targetUser, c`targetID, c`targetDepth, c`targetRoot
      ensures RowsBelow() && nextId >= old(nextId)
      ensures r.Ok? ==> r.value !in old(comments) && comments == old(comments)[r.value := RowFor(m, p, c.src.id)]
      ensures r.Ok? ==> imported == old(imported) + 1
                        && published == old(published) + (if c.src.pending then 0 else 1)
                        && pending == old(pending) + (if c.src.pending then 1 else 0)
      ensures r.Ok? ==> c.targetID == r.value && WrittenLinks(c, m, p)
    {
      var parentID, rootID, depth := ReplyLinks(c, byID, m, p);
      c.targetSite := At(siteIds, c.src.site);
      c.targetUser := At(users, c.authorKey);
      var thread := At(threads, (c.targetSite, c.src.page));
      var status, publishedAt: Option<int> := Published, None;
      if c.src.pending {
        status := Pending;
        pending := pending + 1;
      } else {
        publishedAt := Some(c.src.createdAt);
        published := published + 1;
      }
      var row := Row(c.targetSite, thread, c.targetUser, parentID, rootID, depth, status, None, false, c.src.createdAt, publishedAt, None);
      assert row == RowFor(m, p, c.src.id);
      r := CreateComment(row);
      if r.Err? {
        return;
      }
      c.targetID := r.value;
      c.targetDepth := depth;
      c.targetRoot := rootID;
      imported := imported + 1;
    }

    /** The first `i` comments are written, and their objects say where. */
    ghost predicate Progress(cs: seq<Prepared>, i: nat, m: Sources, p: Placing, t0: Table, t: Table)
      requires i <= |cs|
      reads cs
    {
      Extended(m, p, t0, t) && Keyed(cs, i, p.ids) && AllWritten(cs, i, m, p)
    }

    ghost predicate Keyed(cs: seq<Prepared>, i: nat, ids: map<string, Id>)
      requires i <= |cs|
    {
      forall id :: id in ids <==> exists j :: 0 <= j < i && cs[j].src.id == id
    }

    ghost predicate AllWritten(cs: seq<Prepared>, i: nat, m: Sources, p: Placing)
      requires i <= |cs|
      reads cs
    {
      forall j :: 0 <= j < i ==> Written(cs[j], m, p)
    }

    /** The counters once the comments in `ids` are written. */
    ghost predicate CountsOf(m: Sources, ids: map<string, Id>)
      reads this`imported, this`published, this`pending
    {
      CommentsCounted(m, ids.Keys, imported, published, pending)
    }

    /** Writes every comment, parents before replies. */
    method WriteComments(cs: seq<Prepared>, byID: Index, ghost m: Sources, siteIds: map<string, Id>)
      returns (ok: bool, ghost p: Placing)
      requires RowsBelow() && Batch(cs, byID, m) && imported == published == pending == 0
      requires forall c :: c in cs ==> c.authorKey == text.author(c.src) && At(siteIds, c.src.site) < nextId
      modifies this`comments, this`nextId, this`imported, this`published, this`pending,
               (set c | c in cs)`targetSite, (set c | c in cs)`targetUser, (set c | c in cs)`targetID,
               (set c | c in cs)`targetDepth, (set c | c in cs)`targetRoot
      ensures nextId >= old(nextId) && p.sites == siteIds
      ensures ok ==> RowsBelow() && p == Placing(p.ids, siteIds, users, threads, text.author)
                     && p.ids.Keys == m.Keys && Extended(m, p, old(comments), comments)
      ensures ok ==> CountsOf(m, p.ids)
    {
      p := Placing(map[], siteIds, users, threads, text.author);
      ExtendedIs(m, p, comments, comments);
      for i := 0 to |cs|
        invariant RowsBelow() && nextId >= old(nextId)
        invariant p == Placing(p.ids, siteIds, users, threads, text.author)
        invariant Progress(cs, i, m, p, old(comments), comments)
        invariant CountsOf(m, p.ids)
      {
        var r;
        TurnComes(cs, byID, m, p, i);
        r, p := WriteNext(cs, cs[i], byID, m, p, siteIds, i, old(comments));
        if r.Err? {
          return false, p;
        }
      }
      AllPlaced(cs, m, p);
      ok := true;
    }

    /** The comment is not written yet, and its parent, if it has one, is. */
    ghost predicate Ready(c: Prepared, byID: Index, m: Sources, p: Placing)
      reads byID.Values
    {
      && Indexes(byID, m) && c.src.id in byID && byID[c.src.id] == c
      && c.src.id !in p.ids && Importable(m, c.src.id)
      && (c.src.parent != "" ==>
            c.src.parent in p.ids && c.src.parent in byID && byID[c.src.parent] != c && Written(byID[c.src.parent], m, p))
    }

    /** It is the turn of `c`, the comments before it being written. */
    ghost predicate Turn(cs: seq<Prepared>, i: nat, c: Prepared, byID: Index, m: Sources, p: Placing)
      reads this`users, this`threads, this`nextId, cs, byID.Values, c`authorKey
    {
      && i < |cs| && c == cs[i] && (forall j :: 0 <= j < i ==> cs[j] != c)
      && Ready(c, byID, m, p) && AllWritten(cs, i, m, p)
      && p == Placing(p.ids, p.sites, users, threads, text.author)
      && c.authorKey == text.author(c.src) && At(p.sites, c.src.site) < nextId
    }

    lemma TurnComes(cs: seq<Prepared>, byID: Index, m: Sources, p: Placing, i: nat)
      requires Batch(cs, byID, m) && i < |cs| && p == Placing(p.ids, p.sites, users, threads, text.author)
      requires Keyed(cs, i, p.ids) && AllWritten(cs, i, m, p)
      requires cs[i].authorKey == text.author(cs[i].src) && At(p.sites, cs[i].src.site) < nextId
      ensures Turn(cs, i, cs[i], byID, m, p)
    {
      ParentIsWritten(cs, byID, m, p, i);
      OthersAreOthers(cs, i);
    }

    /** Writing one comment leaves what the others say about themselves alone. */
    method WriteBeside(cs: seq<Prepared>, c: Prepared, byID: Index, ghost m: Sources, ghost p: Placing, siteIds: map<string, Id>, i: nat)
      returns (r: Result<Id, ImportError>)
      requires RowsBelow() && p.sites == siteIds && Turn(cs, i, c, byID, m, p) && CountsOf(m, p.ids)
      modifies this`comments, this`nextId, this`imported, this`published, this`pending,
               c`targetSite, c`targetUser, c`targetID, c`targetDepth, c`targetRoot
      ensures RowsBelow() && nextId >= old(nextId)
      ensures r.Ok? ==> r.value !in old(comments) && comments == old(comments)[r.value := RowFor(m, p, c.src.id)]
      ensures r.Ok? ==> CountsOf(m, p.ids[c.src.id := r.value])
      ensures r.Ok? ==> c.targetID == r.value && WrittenLinks(c, m, p) && AllWritten(cs, i, m, p)
    {
      r := WriteComment(c, byID, m, p, siteIds);
      if r.Ok? {
        CountOne(m, p.ids, c.src.id, r.value);
      }
    }

    /** One turn of the loop. */
    method WriteNext(cs: seq<Prepared>, c: Prepared, byID: Index, ghost m: Sources, ghost p: Placing,
                     siteIds: map<string, Id>, i: nat, ghost t0: Table)
      returns (r: Result<Id, ImportError>, ghost p': Placing)
      requires RowsBelow() && p.sites == siteIds && Turn(cs, i, c, byID, m, p) && Progress(cs, i, m, p, t0, comments)
      requires CountsOf(m, p.ids)
      modifies this`comments, this`nextId, this`imported, this`published, this`pending,
               c`targetSite, c`targetUser, c`targetID, c`targetDepth, c`targetRoot
      ensures RowsBelow() && nextId >= old(nextId) && p'.sites == siteIds
      ensures r.Ok? ==> p' == Placing(p'.ids, siteIds, users, threads, text.author) && Progress(cs, i + 1, m, p', t0, comments)
      ensures r.Ok? ==> CountsOf(m, p'.ids)
    {
      ghost var t := comments;
      p' := p;
      r := WriteBeside(cs, c, byID, m, p, siteIds, i);
      if r.Ok? {
        p' := p.(ids := p.ids[c.src.id := r.value]);
        OneWritten(cs, i, m, p, t0, t, r.value, p');
      }
    }

    lemma OneWritten(cs: seq<Prepared>, i: nat, m: Sources, p: Placing, t0: Table, t: Table, newId: Id, p': Placing)
      requires i < |cs| && Extended(m, p, t0, t) && Keyed(cs, i, p.ids) && AllWritten(cs, i, m, p)
      requires var id := cs[i].src.id;
               && p' == p.(ids := p.ids[id := newId]) && id !in p.ids && id in m && Importable(m, id)
               && (m[id].parent != "" ==> m[id].parent in p.ids)
      requires newId !in t
      requires cs[i].targetID == newId && WrittenLinks(cs[i], m, p)
      ensures Progress(cs, i + 1, m, p', t0, t[newId := RowFor(m, p, cs[i].src.id)])
    {
      ExtendedIs(m, p, t0, t);
      TopsPlaced(m, p, t0, t, cs[i].src.id);
      ExtendsStep(m, p, t0, t, cs[i].src.id, newId);
      ExtendedIs(m, p', t0, t[newId := RowFor(m, p, cs[i].src.id)]);
      Advance(cs, i, m, p, newId, p');
    }

    lemma Advance(cs: seq<Prepared>, i: nat, m: Sources, p: Placing, newId: Id, p': Placing)
      requires i < |cs| && Keyed(cs, i, p.ids) && AllWritten(cs, i, m, p)
      requires p' == p.(ids := p.ids[cs[i].src.id := newId]) && cs[i].src.id !in p.ids
      requires forall x :: x in p.ids ==> TopOf(m, x) in p.ids
      requires DepthOf(m, cs[i].src.id) > 0 ==> TopOf(m, cs[i].src.id) in p.ids
      requires cs[i].targetID == newId && WrittenLinks(cs[i], m, p)
      ensures Keyed(cs, i + 1, p'.ids) && AllWritten(cs, i + 1, m, p')
    {
      assert cs[i].src.id in p'.ids;
      forall j | 0 <= j < i
        ensures Written(cs[j], m, p')
      {
        StillWritten(cs, i, j, m, p, newId, p');
      }
    }

    lemma StillWritten(cs: seq<Prepared>, i: nat, j: nat, m: Sources, p: Placing, newId: Id, p': Placing)
      requires j < i < |cs| && Keyed(cs, i, p.ids) && AllWritten(cs, i, m, p)
      requires p' == p.(ids := p.ids[cs[i].src.id := newId]) && cs[i].src.id !in p.ids
      requires forall x :: x in p.ids ==> TopOf(m, x) in p.ids
      ensures Written(cs[j], m, p')
    {
      assert Written(cs[j], m, p);
      assert cs[j].src.id in p.ids;
    }

    /** Where the tops of all placed chains went is known. */
    lemma TopsPlaced(m: Sources, p: Placing, t0: Table, t: Table, id: string)
      requires Extends(m, p, t0, t) && Importable(m, id) && (m[id].parent != "" ==> m[id].parent in p.ids)
      ensures forall x :: x in p.ids ==> TopOf(m, x) in p.ids
      ensures DepthOf(m, id) > 0 ==> TopOf(m, id) in p.ids
    {
      forall x | x in p.ids
        ensures TopOf(m, x) in p.ids
      {
        NewIsRooted(m, p, t0, t, x);
      }
      DepthStep(m, id);
    }

    lemma OthersAreOthers(cs: seq<Prepared>, i: nat)
      requires DistinctIds(cs) && i < |cs|
      ensures forall j :: 0 <= j < i ==> cs[j] != cs[i]
    {
      forall j | 0 <= j < i
        ensures cs[j] != cs[i]
      {
        assert cs[j].src.id != cs[i].src.id;
      }
    }

    lemma AllPlaced(cs: seq<Prepared>, m: Sources, p: Placing)
      requires IdsOf(cs) == m.Keys
      requires Keyed(cs, |cs|, p.ids)
      ensures p.ids.Keys == m.Keys
    {
      forall id
        ensures id in p.ids <==> id in IdsOf(cs)
      {
        if id in IdsOf(cs) {
          var c :| c in cs && c.src.id == id;
          var j :| 0 <= j < |cs| && cs[j] == c;
          assert cs[j].src.id == id;
        }
      }
    }

    lemma ParentIsWritten(cs: seq<Prepared>, byID: Index, m: Sources, p: Placing, i: nat)
      requires Batch(cs, byID, m) && i < |cs|
      requires Keyed(cs, i, p.ids) && AllWritten(cs, i, m, p)
      ensures Ready(cs[i], byID, m, p)
    {
      var c := cs[i];
      assert forall j :: 0 <= j < i ==> cs[j].src.id != c.src.id;
      if c.src.parent != "" {
        var j :| 0 <= j < i && cs[j].src.id == c.src.parent;
        assert byID[c.src.parent] == cs[j];
      }
    }

    // ---------------------------------------------------------------- the import

    /**
     What an import reports and what it leaves: `before` and `after` are the tables around it, `p`
     says where everything went.
     */
    ghost predicate Imported(m: Sources, p: Placing, target: int, before: Tables, after: Tables, n: Report) {
      && SitesSettled(SiteKeys(m), p.sites, target, before.comments, before.sites, after.sites, n.createdSites, n.reusedSites)
      && Filled(m, p, before, after, TallyOf(n), n.imported, n.published, n.pending)
    }

    /** The same for everything but the sites. */
    ghost predicate Filled(m: Sources, p: Placing, before: Tables, after: Tables, n: Tally,
                           imported: nat, published: nat, pending: nat) {
      forall x {:trigger FilledAspect(x, m, p, before, after, n, imported, published, pending)} ::
        FilledAspect(x, m, p, before, after, n, imported, published, pending)
    }

    ghost predicate FilledAspect(x: Aspect, m: Sources, p: Placing, before: Tables, after: Tables, n: Tally,
                                 imported: nat, published: nat, pending: nat) {
      match x
      case OfRows => p.ids.Keys == m.Keys && Extended(m, p, before.comments, after.comments)
      case OfTables =>
        && p.users == after.users && p.threads == after.threads && p.author == text.author
        && Found(before, after, AuthorKeys(m, p), ThreadKeys(m, p), n)
      case OfCounters => CommentsCounted(m, p.ids.Keys, imported, published, pending)
    }

    /** The whole promise at once. */
    lemma ImportedIs(m: Sources, p: Placing, target: int, before: Tables, after: Tables, n: Report)
      ensures Imported(m, p, target, before, after, n)
              <==> && p.users == after.users && p.threads == after.threads && p.author == text.author
                   && p.ids.Keys == m.Keys && Extends(m, p, before.comments, after.comments)
                   && p.sites.Keys == SiteKeys(m) && SitesResolved(before.comments, p.sites, target, before.sites, after.sites)
                   && Found(before, after, AuthorKeys(m, p), ThreadKeys(m, p), TallyOf(n))
                   && n.imported == |m| == n.published + n.pending && n.pending == |PendingOf(m, m.Keys)|
                   && n.createdSites + n.reusedSites == (if target > 0 then 1 else |SiteKeys(m)|)
                   && n.createdSites == |after.sites| - |before.sites|
    {
      ExtendedIs(m, p, before.comments, after.comments);
      FilledIs(m, p, before, after, TallyOf(n), n.imported, n.published, n.pending);
      SettledIs(SiteKeys(m), p.sites, target, before.comments, before.sites, after.sites, n.createdSites, n.reusedSites);
      assert |m| == |m.Keys|;
    }

    lemma FilledIs(m: Sources, p: Placing, before: Tables, after: Tables, n: Tally, imported: nat, published: nat, pending: nat)
      ensures Filled(m, p, before, after, n, imported, published, pending)
              <==> && p.users == after.users && p.threads == after.threads && p.author == text.author
                   && p.ids.Keys == m.Keys && Extended(m, p, before.comments, after.comments)
                   && Found(before, after, AuthorKeys(m, p), ThreadKeys(m, p), n)
                   && CommentsCounted(m, p.ids.Keys, imported, published, pending)
    {
      if Filled(m, p, before, after, n, imported, published, pending) {
        assert FilledAspect(OfRows, m, p, before, after, n, imported, published, pending);
        assert FilledAspect(OfTables, m, p, before, after, n, imported, published, pending);
        assert FilledAspect(OfCounters, m, p, before, after, n, imported, published, pending);
      }
    }

    ghost function Now(): Tables
      reads this`comments, this`users, this`threads, this`sites, this`nextId
    {
      Tables(comments, users, threads, sites, nextId)
    }

    ghost function Tallies(): Tally
      reads this`createdUsers, this`reusedUsers, this`createdThreads, this`reusedThreads
    {
      Tally(createdUsers, reusedUsers, createdThreads, reusedThreads)
    }

    /** One user per author and one thread per page; the sites may have been resolved since `before`. */
    method ResolvePeopleAndPages(cs: seq<Prepared>, siteIds: map<string, Id>, ghost before: Tables) returns (ok: bool)
      requires createdUsers == reusedUsers == createdThreads == reusedThreads == 0
      requires before.users == users && before.threads == threads && before.nextId <= nextId
      requires Numbered(users, nextId) && Numbered(threads, nextId)
      modifies this`users, this`threads, this`nextId, this`createdUsers, this`reusedUsers, this`createdThreads, this`reusedThreads,
               (set c | c in cs)`authorKey
      ensures nextId >= old(nextId)
      ensures ok ==> Numbered(users, nextId) && Numbered(threads, nextId)
      ensures ok ==> forall c :: c in cs ==> c.authorKey == text.author(c.src)
      ensures ok ==> Found(before, Now(), KeysOf(cs, text.author), KeysOf(cs, PageOf(siteIds)), Tallies())
    {
      ghost var low, authors, pages := nextId, KeysOf(cs, text.author), KeysOf(cs, PageOf(siteIds));
      ok := ResolveUsers(cs);
      if ok {
        ghost var mid := nextId;
        NumberedLater(threads, low, mid);
        ok := ResolveThreads(cs, siteIds);
        GrownWider(before.users, users, authors, low, mid, before.nextId, nextId);
        NumberedLater(users, mid, nextId);
        if ok {
          GrownWider(before.threads, threads, pages, mid, nextId, before.nextId, nextId);
        }
      }
    }

    lemma SitesKnown(cs: seq<Prepared>, t0: Table, siteIds: map<string, Id>, target: int,
                     sites0: map<Id, string>, sites1: map<Id, string>, created: nat, reused: nat, next: Id)
      requires SitesSettled(KeysOf(cs, SITE_NAME), siteIds, target, t0, sites0, sites1, created, reused)
      requires forall s :: s in sites1 ==> s < next
      ensures forall c :: c in cs ==> c.src.site in siteIds && At(siteIds, c.src.site) < next
    {
      SettledIs(KeysOf(cs, SITE_NAME), siteIds, target, t0, sites0, sites1, created, reused);
      forall c | c in cs
        ensures c.src.site in siteIds && siteIds[c.src.site] in sites1
      {
        assert SITE_NAME(c.src) in KeysOf(cs, SITE_NAME);
        ResolvedIsEmpty(t0, siteIds, target, sites0, sites1, c.src.site);
      }
    }

    lemma ResolvedIsEmpty(t0: Table, siteIds: map<string, Id>, target: int, sites0: map<Id, string>, sites1: map<Id, string>, key: string)
      requires SitesResolved(t0, siteIds, target, sites0, sites1) && key in siteIds
      ensures siteIds[key] in sites1 && CommentsOn(t0, siteIds[key]) == {}
    {
      assert SiteOk(t0, siteIds, target, sites1, key);
    }

    /** Clears the report and finds the sites. */
    method BeginOnSites(cs: seq<Prepared>, byID: Index, ghost m: Sources, target: int) returns (r: Result<map<string, Id>, ImportError>)
      requires Valid() && Batch(cs, byID, m)
      modifies this`sites, this`nextId, this`imported, this`published, this`pending,
               this`createdUsers, this`reusedUsers, this`createdSites, this`reusedSites, this`createdThreads, this`reusedThreads
      ensures Valid() && nextId >= old(nextId) && NothingCounted()
      ensures r.Ok? ==> forall c :: c in cs ==> At(r.value, c.src.site) < nextId
      ensures r.Ok? ==> SitesSettled(SiteKeys(m), r.value, target, comments, old(sites), sites, createdSites, reusedSites)
      ensures r.Ok? ==> SitesReady(comments, old(sites), target, SiteKeys(m))
      ensures r.Err? ==> r.error == WriteFailed || !SitesReady(comments, old(sites), target, SiteKeys(m))
    {
      SitesOfBatch(cs, byID, m);
      ResetReport();
      ghost var next0 := nextId;
      r := ResolveSites(cs, target);
      NumberedLater(users, next0, nextId);
      NumberedLater(threads, next0, nextId);
      if r.Ok? {
        SitesKnown(cs, comments, r.value, target, old(sites), sites, createdSites, reusedSites, nextId);
      }
    }

    /** No user, thread or comment has been counted yet. */
    ghost predicate NothingCounted()
      reads this`imported, this`published, this`pending,
            this`createdUsers, this`reusedUsers, this`createdThreads, this`reusedThreads
    {
      imported == published == pending == 0 && createdUsers == reusedUsers == createdThreads == reusedThreads == 0
    }

    /** The comments, with everything they point to in place. */
    method WriteResolved(cs: seq<Prepared>, byID: Index, ghost m: Sources, siteIds: map<string, Id>, ghost before: Tables)
      returns (ok: bool, ghost p: Placing)
      requires RowsBelow() && Batch(cs, byID, m) && imported == published == pending == 0
      requires Numbered(users, nextId) && Numbered(threads, nextId)
      requires forall c :: c in cs ==> c.authorKey == text.author(c.src) && At(siteIds, c.src.site) < nextId
      requires Found(before, Now(), KeysOf(cs, text.author), KeysOf(cs, PageOf(siteIds)), Tallies())
      modifies this`comments, this`nextId, this`imported, this`published, this`pending,
               (set c | c in cs)`targetSite, (set c | c in cs)`targetUser, (set c | c in cs)`targetID,
               (set c | c in cs)`targetDepth, (set c | c in cs)`targetRoot
      ensures nextId >= old(nextId) && (ok ==> Valid())
      ensures p.sites == siteIds
      ensures ok ==> p == Placing(p.ids, siteIds, users, threads, text.author)
                     && p.ids.Keys == m.Keys && Extended(m, p, old(comments), comments)
      ensures ok ==> CountsOf(m, p.ids)
      ensures ok ==> Found(before, Now(), KeysOf(cs, text.author), KeysOf(cs, PageOf(siteIds)), Tallies())
    {
      ghost var mid := Now();
      ok, p := WriteComments(cs, byID, m, siteIds);
      NumberedLater(users, mid.nextId, nextId);
      NumberedLater(threads, mid.nextId, nextId);
      FoundWider(before, mid, before, Now(), KeysOf(cs, text.author), KeysOf(cs, PageOf(siteIds)), Tallies());
    }

    /** The keys of a batch are those of its sources. */
    lemma FoundOfBatch(cs: seq<Prepared>, byID: Index, m: Sources, p: Placing, before: Tables, after: Tables, n: Tally)
      requires Batch(cs, byID, m) && p.author == text.author
      requires Found(before, after, KeysOf(cs, text.author), KeysOf(cs, PageOf(p.sites)), n)
      ensures Found(before, after, AuthorKeys(m, p), ThreadKeys(m, p), n)
    {
      assert KeysOf(cs, text.author) == AuthorKeys(m, p) && KeysOf(cs, PageOf(p.sites)) == ThreadKeys(m, p) by {
        BatchKeySets(cs, byID, m, p);
      }
    }

    /** Users, threads and comments on sites that are known. */
    method ImportOnSites(cs: seq<Prepared>, byID: Index, ghost m: Sources, siteIds: map<string, Id>, ghost before: Tables)
      returns (ok: bool, ghost p: Placing)
      requires Valid() && Batch(cs, byID, m) && NothingCounted()
      requires before.comments == comments && before.users == users && before.threads == threads && before.nextId <= nextId
      requires forall c :: c in cs ==> At(siteIds, c.src.site) < nextId
      modifies this`comments, this`users, this`threads, this`nextId, this`imported, this`published, this`pending,
               this`createdUsers, this`reusedUsers, this`createdThreads, this`reusedThreads, set c | c in cs
      ensures nextId >= old(nextId) && (ok ==> Valid())
      ensures p.sites == siteIds
      ensures ok ==> Filled(m, p, before, Now(), Tallies(), imported, published, pending)
    {
      ok := ResolvePeopleAndPages(cs, siteIds, before);
      p := Placing(map[], siteIds, users, threads, text.author);
      if ok {
        ok, p := WriteResolved(cs, byID, m, siteIds, before);
        if ok {
          FoundOfBatch(cs, byID, m, p, before, Now(), Tallies());
        }
      }
    }

    /** The second pass, without a transaction around it. */
    method ImportPrepared(cs: seq<Prepared>, byID: Index, ghost m: Sources, target: int, ghost input: nat)
      returns (r: Result<(), ImportError>, ghost p: Placing)
      requires Valid() && Batch(cs, byID, m)
      modifies this, set c | c in cs
      ensures nextId >= old(nextId) && (r.Ok? ==> Valid())
      ensures r.Ok? ==> Imported(m, p, target, old(Now()), Now(), Totals(input))
      ensures r.Ok? ==> SitesReady(old(comments), old(sites), target, SiteKeys(m))
      ensures r.Err? ==> r.error == WriteFailed || !SitesReady(old(comments), old(sites), target, SiteKeys(m))
    {
      p := Placing(map[], map[], map[], map[], text.author);
      ghost var before := Now();
      var siteIds := BeginOnSites(cs, byID, m, target);
      if siteIds.Err? {
        return Err(siteIds.error), p;
      }
      var ok;
      ok, p := ImportOnSites(cs, byID, m, siteIds.value, before);
      if !ok {
        return Err(WriteFailed), p;
      }
      r := Ok(());
    }

    method ResetReport()
      modifies this`imported, this`published, this`pending, this`createdUsers, this`reusedUsers,
               this`createdSites, this`reusedSites, this`createdThreads, this`reusedThreads
      ensures imported == published == pending == createdUsers == reusedUsers == 0
      ensures createdSites == reusedSites == createdThreads == reusedThreads == 0
    {
      imported, published, pending := 0, 0, 0;
      createdUsers, reusedUsers, createdSites, reusedSites, createdThreads, reusedThreads := 0, 0, 0, 0, 0, 0;
    }

    /** After an import there are the old comments, unchanged, and one new comment for each record, counted. */
    lemma CommentsMean(m: Sources, p: Placing, target: int, before: Tables, after: Tables, n: Report)
      requires Imported(m, p, target, before, after, n)
      ensures p.ids.Keys == m.Keys && after.comments.Keys == before.comments.Keys + set id | id in p.ids :: p.ids[id]
      ensures forall id :: id in p.ids ==> p.ids[id] !in before.comments
      ensures forall a, b :: a in p.ids && b in p.ids && a != b ==> p.ids[a] != p.ids[b]
      ensures forall c :: c in before.comments ==> after.comments[c] == before.comments[c]
      ensures n.imported == |m| && n.pending == |set id | id in m && m[id].pending|
      ensures n.published == |set id | id in m && !m[id].pending|
    {
      RowsOfImport(m, p, target, before, after, n);
      AddsMeans(p.ids, before.comments, after.comments);
      SplitByPending(m);
    }

    lemma RowsOfImport(m: Sources, p: Placing, target: int, before: Tables, after: Tables, n: Report)
      requires Imported(m, p, target, before, after, n)
      ensures p.ids.Keys == m.Keys && Extends(m, p, before.comments, after.comments)
      ensures n.imported == |m| == n.published + n.pending && n.pending == |set id | id in m && m[id].pending|
    {
      ImportedIs(m, p, target, before, after, n);
      assert PendingOf(m, m.Keys) == set id | id in m && m[id].pending;
    }

    /** After an import there are the old users and threads and a new one for each author or page without, counted. */
    lemma PeopleAndPagesMean(m: Sources, p: Placing, target: int, before: Tables, after: Tables, n: Report)
      returns (authors: set<string>, pages: set<(Id, string)>)
      requires Imported(m, p, target, before, after, n)
      ensures p.sites.Keys == set id | id in m :: m[id].site
      ensures authors == set id | id in m :: text.author(m[id])
      ensures pages == set id | id in m :: (p.sites[m[id].site], m[id].page)
      ensures after.users.Keys == before.users.Keys + authors && after.threads.Keys == before.threads.Keys + pages
      ensures forall k :: k in before.users ==> after.users[k] == before.users[k]
      ensures forall k :: k in before.threads ==> after.threads[k] == before.threads[k]
      ensures n.createdUsers == |authors - before.users.Keys| && n.reusedUsers == |authors * before.users.Keys|
      ensures n.createdThreads == |pages - before.threads.Keys| && n.reusedThreads == |pages * before.threads.Keys|
    {
      authors, pages := AuthorKeys(m, p), ThreadKeys(m, p);
      PeopleOfImport(m, p, target, before, after, n);
      FoundMeans(before, after, authors, pages, TallyOf(n));
      PagesAre(m, p);
    }

    lemma PagesAre(m: Sources, p: Placing)
      requires p.sites.Keys == SiteKeys(m)
      ensures forall id :: id in m ==> m[id].site in p.sites
      ensures ThreadKeys(m, p) == set id | id in m :: (p.sites[m[id].site], m[id].page)
    {
      assert forall id :: id in m ==> m[id].site in SiteKeys(m);
    }

    lemma PeopleOfImport(m: Sources, p: Placing, target: int, before: Tables, after: Tables, n: Report)
      requires Imported(m, p, target, before, after, n)
      ensures p.sites.Keys == SiteKeys(m) && p.author == text.author
      ensures Found(before, after, AuthorKeys(m, p), ThreadKeys(m, p), TallyOf(n))
    {
      ImportedIs(m, p, target, before, after, n);
    }

    /**
     The row of one record, with its reply chain: published at its own date unless it is pending,
     never pinned or deleted, a root or under the new comments of its parent and of the last of the chain.
     */
    lemma ImportedRow(m: Sources, p: Placing, target: int, before: Tables, after: Tables, n: Report, id: string)
      returns (line: seq<string>)
      requires Imported(m, p, target, before, after, n) && id in m
      ensures IsLine(m, line) && line[0] == id && forall i :: 0 <= i < |line| ==> line[i] in p.ids
      ensures p.ids[id] in after.comments
      ensures var row, s := after.comments[p.ids[id]], m[id];
              && row.status == (if s.pending then Pending else Published)
              && row.publishedAt == (if s.pending then None else Some(s.createdAt))
              && row.createdAt == s.createdAt
              && !row.pinned && row.deletedAt == None && row.statusBeforeDelete == None
              && row.depth == |line| - 1
              && (s.parent == "" ==> row.parent == None && row.root == None)
              && (s.parent != "" ==> s.parent in p.ids && row.parent == Some(p.ids[s.parent]))
              && (s.parent != "" ==> row.root == Some(p.ids[line[|line| - 1]]))
    {
      RowsOfImport(m, p, target, before, after, n);
      ImportableIsLine(m, id);
      line :| line != [] && line[0] == id && IsLine(m, line);
      assert InLine(m, line, 0);
      forall i: nat | i < |line|
        ensures line[i] in p.ids
      {
        assert InLine(m, line, i);
      }
      NewRowMeans(m, p, before.comments, after.comments, id, line);
    }

    /** When the sites can be found, spelled out. */
    lemma SitesReadyMeans(t0: Table, sites0: map<Id, string>, target: int, m: Sources)
      ensures target > 0 ==>
                (SitesReady(t0, sites0, target, SiteKeys(m)) <==> target in sites0 && forall c :: c in t0 ==> t0[c].site != target)
      ensures target <= 0 ==>
                (SitesReady(t0, sites0, target, SiteKeys(m))
                 <==> forall id :: id in m ==> HasRoom(t0, sites0, m[id].site))
    {
      if target > 0 {
        EmptyMeans(t0, target);
      } else {
        forall k
          ensures SiteReady(t0, sites0, k) <==> HasRoom(t0, sites0, k)
        {
          ReadyIsRoom(t0, sites0, k);
        }
        assert forall id :: id in m ==> m[id].site in SiteKeys(m);
      }
    }

    /** The key has an address, no two sites have it, and no comment is on a site that has it. */
    ghost predicate HasRoom(t0: Table, sites0: map<Id, string>, key: string) {
      text.canonical(key).Some?
      && (forall a, b :: a in sites0 && b in sites0 && sites0[a] == sites0[b] == text.canonical(key).value ==> a == b)
      && (forall c :: c in t0 && t0[c].site in sites0 ==> sites0[t0[c].site] != text.canonical(key).value)
    }

    lemma EmptyMeans(t0: Table, site: Id)
      ensures CommentsOn(t0, site) == {} <==> forall c :: c in t0 ==> t0[c].site != site
    {
      if c :| c in t0 && t0[c].site == site {
        assert c in CommentsOn(t0, site);
      } else {
        assert forall c :: c !in CommentsOn(t0, site);
      }
    }

    lemma ReadyIsRoom(t0: Table, sites0: map<Id, string>, key: string)
      ensures SiteReady(t0, sites0, key) <==> HasRoom(t0, sites0, key)
    {
      if text.canonical(key).Some? {
        var at := SitesAt(sites0, text.canonical(key).value);
        AtMostOne(at);
        forall s
          ensures CommentsOn(t0, s) == {} <==> forall c :: c in t0 ==> t0[c].site != s
        {
          EmptyMeans(t0, s);
        }
        if HasRoom(t0, sites0, key) {
          assert forall a, b :: a in at && b in at ==> a == b;
        } else if SiteReady(t0, sites0, key) {
          assert forall a :: a in sites0 && sites0[a] == text.canonical(key).value ==> a in at;
        }
      }
    }

    /** Every imported row points at entries of the tables: its site, its author's user, its page's thread. */
    lemma RowsReferToTables(m: Sources, p: Placing, target: int, before: Tables, after: Tables, n: Report, id: string)
      requires Imported(m, p, target, before, after, n) && id in m
      ensures id in p.ids && p.ids[id] in after.comments && m[id].site in p.sites
      ensures var row := after.comments[p.ids[id]];
              && row.site == p.sites[m[id].site] && row.site in after.sites
              && (if target > 0 then row.site == target else text.canonical(m[id].site) == Some(after.sites[row.site]))
              && text.author(m[id]) in after.users && row.user == after.users[text.author(m[id])]
              && (row.site, m[id].page) in after.threads && row.thread == after.threads[(row.site, m[id].page)]
    {
      ImportedIs(m, p, target, before, after, n);
      KeysHold(m, p, id);
      FoundHas(before, after, AuthorKeys(m, p), ThreadKeys(m, p), TallyOf(n), text.author(m[id]), (SiteOf(p, m[id]), m[id].page));
      assert after.comments[p.ids[id]] == RowFor(m, p, id);
      assert SiteOk(before.comments, p.sites, target, after.sites, m[id].site);
      ResolvedIsEmpty(before.comments, p.sites, target, before.sites, after.sites, m[id].site);
    }

    /** A comment from before the import is on none of the target sites. */
    lemma OldStaysElsewhere(p: Placing, target: int, before: Tables, after: Tables, c: Id)
      requires SitesResolved(before.comments, p.sites, target, before.sites, after.sites) && c in before.comments
      ensures before.comments[c].site !in p.sites.Values
    {
      forall key | key in p.sites
        ensures p.sites[key] != before.comments[c].site
      {
        ResolvedIsEmpty(before.comments, p.sites, target, before.sites, after.sites, key);
        assert c !in CommentsOn(before.comments, p.sites[key]);
      }
    }

    /** After a committed import the target sites hold exactly the imported comments. */
    lemma TargetSitesHoldTheImport(m: Sources, p: Placing, target: int, before: Tables, after: Tables, n: Report, c: Id)
      requires Imported(m, p, target, before, after, n) && c in after.comments
      ensures p.ids.Keys == m.Keys
      ensures after.comments[c].site in p.sites.Values <==> exists id :: id in m && p.ids[id] == c
    {
      ImportedIs(m, p, target, before, after, n);
      if c in before.comments {
        OldStaysElsewhere(p, target, before, after, c);
      }
      forall id | id in m && p.ids[id] == c
        ensures after.comments[c].site in p.sites.Values
      {
        RowsReferToTables(m, p, target, before, after, n, id);
      }
    }

    ghost predicate SameTables(comments0: Table, users0: map<string, Id>, threads0: map<(Id, string), Id>, sites0: map<Id, string>)
      reads this`comments, this`users, this`threads, this`sites
    {
      comments == comments0 && users == users0 && threads == threads0 && sites == sites0
    }

    /** Runs the second pass; anything but a real, complete run is rolled back. */
    method InTransaction(cs: seq<Prepared>, byID: Index, ghost m: Sources, options: Options, ghost input: nat)
      returns (r: Result<(), ImportError>, ghost p: Placing, ghost after: Tables)
      requires Valid() && Batch(cs, byID, m)
      modifies this, set c | c in cs
      ensures Valid()
      ensures r.Err? || options.dryRun ==> SameTables(old(comments), old(users), old(threads), old(sites))
      ensures r.Ok? ==> Imported(m, p, options.targetSite, old(Now()), after, Totals(input))
      ensures r.Ok? && !options.dryRun ==> after == Now()
      ensures r.Ok? ==> SitesReady(old(comments), old(sites), options.targetSite, SiteKeys(m))
      ensures r.Err? ==> r.error == WriteFailed || !SitesReady(old(comments), old(sites), options.targetSite, SiteKeys(m))
    {
      var comments0, users0, threads0, sites0 := comments, users, threads, sites;
      ghost var next0 := nextId;
      r, p := ImportPrepared(cs, byID, m, options.targetSite, input);
      after := Now();
      if r.Err? || options.dryRun {
        comments, users, threads, sites := comments0, users0, threads0, sites0;
        NumberedLater(users0, next0, nextId);
        NumberedLater(threads0, next0, nextId);
      }
    }

    function Totals(input: nat): Report
      reads this`imported, this`published, this`pending, this`createdUsers, this`reusedUsers,
            this`createdSites, this`reusedSites, this`createdThreads, this`reusedThreads
    {
      Report(input, imported, published, pending, createdUsers, reusedUsers, createdSites, reusedSites, createdThreads, reusedThreads)
    }

    /** What an import needs: sound options, sound records, and sites for all of them. */
    ghost predicate Accepts(records: seq<Record>, options: Options, before: Tables) {
      && options.targetSite >= 0 && options.modesValid
      && records != [] && RowsOk(records) && (forall i :: 0 <= i < |records| ==> Importable(SourcesOf(records), records[i].id))
      && SitesReady(before.comments, before.sites, options.targetSite, SiteKeys(SourcesOf(records)))
    }

    /**
     A whole import in one transaction. Apart from failing writes it succeeds exactly when it accepts
     its input. Its report tells of the tables `after`: a committed run leaves those, a dry run or a
     failed one leaves every table as it was. Another import can follow.
     */
    method Import(records: seq<Record>, options: Options)
      returns (r: Result<Report, ImportError>, ghost p: Placing, ghost after: Tables)
      requires Valid()
      modifies this
      ensures Valid()
      ensures r.Err? || options.dryRun ==> SameTables(old(comments), old(users), old(threads), old(sites))
      ensures r.Ok? ==> Accepts(records, options, old(Now()))
      ensures r.Err? ==> r.error == WriteFailed || !Accepts(records, options, old(Now()))
      ensures r.Ok? ==> Imported(SourcesOf(records), p, options.targetSite, old(Now()), after, r.value)
      ensures r.Ok? ==> r.value.input == r.value.imported == |records|
      ensures r.Ok? && !options.dryRun ==> after == Now()
    {
      p, after := Placing(map[], map[], map[], map[], text.author), Now();
      if options.targetSite < 0 || !options.modesValid {
        return Err(BadOptions), p, after;
      }
      var prepared := Prepare(records);
      if prepared.Err? {
        return Err(Unprepared(prepared.error)), p, after;
      }
      var (cs, byID) := prepared.value;
      assert forall i :: 0 <= i < |cs| ==> fresh(cs[i]);
      AllRecordsCounted(records);
      var done;
      done, p, after := InTransaction(cs, byID, SourcesOf(records), options, |records|);
      r := if done.Ok? then Ok(Totals(|records|)) else Err(done.error);
      if r.Ok? {
        ImportedIs(SourcesOf(records), p, options.targetSite, old(Now()), after, r.value);
      }
    }
  }

  /** Every record is counted: input, imported and published plus pending agree. */
  lemma AllRecordsCounted(records: seq<Record>)
    requires RowsOk(records)
    ensures |SourcesOf(records)| == |records|
  {
    var m, l := SourcesOf(records), RecordIds(records);
    SourcesHold(records, |records|);
    forall id
      ensures id in Elements(l, |l|) <==> id in m.Keys
    {
      if id in m.Keys {
        var i :| 0 <= i < |records| && records[i].id == id;
        assert l[i] == id;
      }
    }
    AllKeysCounted(l, m.Keys);
    assert |m.Keys| == |m|;
  }

  lemma SitesOfBatch(cs: seq<Prepared>, byID: Index, m: Sources)
    requires Batch(cs, byID, m)
    ensures KeysOf(cs, SITE_NAME) == SiteKeys(m)
  {
    BatchKeys(cs, byID, m, SITE_NAME);
  }

  lemma BatchKeySets(cs: seq<Prepared>, byID: Index, m: Sources, p: Placing)
    requires Batch(cs, byID, m)
    ensures KeysOf(cs, p.author) == AuthorKeys(m, p)
    ensures KeysOf(cs, PageOf(p.sites)) == ThreadKeys(m, p)
    ensures KeysOf(cs, SITE_NAME) == SiteKeys(m)
    ensures forall id :: id in m ==> m[id].site in SiteKeys(m)
  {
    BatchKeys(cs, byID, m, p.author);
    BatchKeys(cs, byID, m, PageOf(p.sites));
    BatchKeys(cs, byID, m, SITE_NAME);
  }

  /** The counters for a set of comments. */
  ghost predicate CommentsCounted(m: Sources, ids: set<string>, imported: nat, published: nat, pending: nat) {
    imported == |ids| == published + pending && pending == |PendingOf(m, ids)|
  }

  function PendingOf(m: Sources, ids: set<string>): set<string> {
    set id | id in ids && id in m && m[id].pending
  }

  lemma SplitByPending(m: Sources)
    ensures |m| == |set id | id in m && m[id].pending| + |set id | id in m && !m[id].pending|
  {
    var a, b := set id | id in m && m[id].pending, set id | id in m && !m[id].pending;
    assert m.Keys == a + b;
    assert |m| == |m.Keys|;
  }

  lemma PendingOne(m: Sources, ids: set<string>, id: string)
    requires id in m && id !in ids
    ensures |PendingOf(m, ids + {id})| == |PendingOf(m, ids)| + if m[id].pending then 1 else 0
  {
    if m[id].pending {
      assert PendingOf(m, ids + {id}) == PendingOf(m, ids) + {id};
    } else {
      assert PendingOf(m, ids + {id}) == PendingOf(m, ids);
    }
  }

  lemma CountOne(m: Sources, ids: map<string, Id>, id: string, newId: Id)
    requires id in m && id !in ids
    ensures |ids[id := newId].Keys| == |ids.Keys| + 1
    ensures |PendingOf(m, ids[id := newId].Keys)| == |PendingOf(m, ids.Keys)| + if m[id].pending then 1 else 0
  {
    assert ids[id := newId].Keys == ids.Keys + {id};
    PendingOne(m, ids.Keys, id);
  }

  function AuthorKeys(m: Sources, p: Placing): set<string> {
    set id | id in m :: p.author(m[id])
  }

  function ThreadKeys(m: Sources, p: Placing): set<(Id, string)> {
    set id | id in m :: (SiteOf(p, m[id]), m[id].page)
  }

  function SiteKeys(m: Sources): set<string> {
    set id | id in m :: m[id].site
  }

  lemma BatchKeys<K>(cs: seq<Prepared>, byID: Index, m: Sources, f: Source -> K)
    requires Batch(cs, byID, m)
    ensures KeysOf(cs, f) == set id | id in m :: f(m[id])
  {
    forall k
      ensures k in KeysOf(cs, f) <==> k in (set id | id in m :: f(m[id]))
    {
      if k in KeysOf(cs, f) {
        var c :| c in cs && f(c.src) == k;
        assert m[c.src.id] == c.src;
      }
      if k in (set id | id in m :: f(m[id])) {
        var id :| id in m && f(m[id]) == k;
        var c :| c in cs && c.src.id == id;
      }
    }
  }

  lemma KeysHold(m: Sources, p: Placing, id: string)
    requires id in m
    ensures m[id].site in SiteKeys(m) && p.author(m[id]) in AuthorKeys(m, p)
    ensures (SiteOf(p, m[id]), m[id].page) in ThreadKeys(m, p)
  {
  }

  const SITE_NAME: Source -> string := (s: Source) => s.site

  function PageOf(siteIds: map<string, Id>): Source -> (Id, string) {
    (s: Source) => (At(siteIds, s.site), s.page)
  }

  lemma ElementIn<K>(l: seq<K>, n: nat)
    requires n < |l|
    ensures l[n] in Elements(l, |l|)
  {
  }

  lemma AllKeysCounted<K>(l: seq<K>, keys: set<K>)
    requires NoRepeats(l) && Elements(l, |l|) == keys
    ensures |l| == |keys|
    ensures forall k :: k in keys <==> exists i :: 0 <= i < |l| && l[i] == k
  {
    HitsCount(l, |l|, keys);
    assert keys * keys == keys && keys - keys == {};
    forall k
      ensures k in keys <==> exists i :: 0 <= i < |l| && l[i] == k
    {
      assert k in keys <==> k in Elements(l, |l|);
    }
  }
}
