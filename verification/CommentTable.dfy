/** The comments table, its reply links, and what it means for a comment to hang under a root. */
module CommentTable {
  import opened Prelude

  type Id = int

  datatype Status = Pending | Published | Spam | Deleted

  /** The columns of a comment that listings and updates look at. */
  datatype Row = Row(
    site: Id, thread: Id, user: Id,
    parent: Option<Id>, root: Option<Id>, depth: nat,
    status: Status, statusBeforeDelete: Option<Status>,
    pinned: bool, createdAt: int, publishedAt: Option<int>, deletedAt: Option<int>)

  type Table = map<Id, Row>

  predicate InThread(t: Table, id: Id, site: Id, thread: Id) {
    id in t && t[id].site == site && t[id].thread == thread
  }

  predicate IsPublished(t: Table, id: Id) {
    id in t && t[id].status == Published
  }

  /** `c` is a reply to `p` in the same thread. */
  predicate Link(t: Table, p: Id, c: Id) {
    p in t && c in t && t[c].parent == Some(p) && t[c].site == t[p].site && t[c].thread == t[p].thread
  }

  /** The parent chain of `id` ends at a parentless comment after exactly `n` links. */
  predicate Rooted(t: Table, id: Id, n: nat)
    decreases n
  {
    && id in t
    && if n == 0 then t[id].parent == None
       else t[id].parent.Some? && Link(t, t[id].parent.value, id) && Rooted(t, t[id].parent.value, n - 1)
  }

  /** The proper ancestors of `id`, nearest first. */
  function Ancestors(t: Table, id: Id, n: nat): (a: seq<Id>)
    requires Rooted(t, id, n)
    ensures |a| == n
    decreases n
  {
    if n == 0 then [] else [t[id].parent.value] + Ancestors(t, t[id].parent.value, n - 1)
  }

  /** Foreign keys: parents and roots exist in the same site. */
  ghost predicate References(t: Table) {
    forall c :: c in t ==>
      && (t[c].parent.Some? ==> t[c].parent.value in t && t[t[c].parent.value].site == t[c].site)
      && (t[c].root.Some? ==> t[c].root.value in t && t[t[c].root.value].site == t[c].site)
  }

  /** Every reference holds and every comment hangs under a root of its own thread. */
  ghost predicate Forest(t: Table) {
    References(t) && forall c :: c in t ==> exists n: nat :: Rooted(t, c, n)
  }

  lemma {:induction false} RootedOnce(t: Table, id: Id, m: nat, n: nat)
    requires Rooted(t, id, m) && Rooted(t, id, n)
    ensures m == n
    decreases m
  {
    if m > 0 && n > 0 {
      RootedOnce(t, t[id].parent.value, m - 1, n - 1);
    }
  }

  /** A parent chain written out: each next comment is the parent, in the same thread, and the last has none. */
  ghost predicate IsChain(t: Table, chain: seq<Id>) {
    && chain != []
    && (forall i :: 0 <= i < |chain| ==> chain[i] in t)
    && (forall i :: 0 <= i < |chain| - 1 ==>
          && t[chain[i]].parent == Some(chain[i + 1])
          && t[chain[i]].site == t[chain[i + 1]].site && t[chain[i]].thread == t[chain[i + 1]].thread)
    && t[chain[|chain| - 1]].parent == None
  }

  /** Being rooted is having such a chain, and the ancestors are the chain without its first comment. */
  lemma {:induction false} RootedIsChain(t: Table, id: Id, n: nat)
    ensures Rooted(t, id, n) <==> exists chain :: |chain| == n + 1 && chain[0] == id && IsChain(t, chain)
    ensures Rooted(t, id, n) ==> |Ancestors(t, id, n)| == n && IsChain(t, [id] + Ancestors(t, id, n))
    decreases n
  {
    if n > 0 && id in t && t[id].parent.Some? {
      RootedIsChain(t, t[id].parent.value, n - 1);
    }
    if Rooted(t, id, n) {
      var chain := [id] + Ancestors(t, id, n);
      if n > 0 {
        var up := [t[id].parent.value] + Ancestors(t, t[id].parent.value, n - 1);
        assert chain == [id] + up;
        ChainGrows(t, id, up);
      }
      assert |chain| == n + 1 && chain[0] == id && IsChain(t, chain);
    }
    if chain :| |chain| == n + 1 && chain[0] == id && IsChain(t, chain) {
      if n > 0 {
        var up := chain[1..];
        assert chain == [chain[0]] + up && chain[1] == up[0];
        ChainGrows(t, id, up);
      }
    }
  }

  lemma ChainGrows(t: Table, id: Id, up: seq<Id>)
    requires up != []
    ensures IsChain(t, [id] + up) <==> Link(t, up[0], id) && IsChain(t, up)
  {
    var chain := [id] + up;
    assert chain[1..] == up && chain[0] == id && chain[1] == up[0];
    if IsChain(t, chain) {
      forall i | 0 <= i < |up|
        ensures up[i] in t
        ensures i < |up| - 1 ==> t[up[i]].parent == Some(up[i + 1])
        ensures i < |up| - 1 ==> t[up[i]].site == t[up[i + 1]].site && t[up[i]].thread == t[up[i + 1]].thread
      {
        assert up[i] == chain[i + 1] && (i < |up| - 1 ==> up[i + 1] == chain[i + 2]);
      }
    }
    if Link(t, up[0], id) && IsChain(t, up) {
      forall i | 0 <= i < |chain|
        ensures chain[i] in t
        ensures i < |chain| - 1 ==> t[chain[i]].parent == Some(chain[i + 1])
        ensures i < |chain| - 1 ==> t[chain[i]].site == t[chain[i + 1]].site && t[chain[i]].thread == t[chain[i + 1]].thread
      {
        assert i > 0 ==> chain[i] == up[i - 1] && (i < |chain| - 1 ==> chain[i + 1] == up[i]);
      }
    }
  }

  ghost predicate RootedWithin(t: Table, id: Id, n: nat) {
    exists k: nat :: k <= n && Rooted(t, id, k)
  }

  /** A chain of `n` links visits `n + 1` different comments, so it cannot be longer than the table. */
  lemma {:induction false} ChainFits(t: Table, id: Id, n: nat) returns (seen: set<Id>)
    requires Rooted(t, id, n)
    ensures |seen| == n + 1 && seen <= t.Keys && |t| > n
    ensures forall x :: x in seen ==> RootedWithin(t, x, n)
    decreases n
  {
    if n == 0 {
      seen := {id};
    } else {
      var above := ChainFits(t, t[id].parent.value, n - 1);
      if id in above {
        var k: nat :| k <= n - 1 && Rooted(t, id, k);
        RootedOnce(t, id, k, n);
      }
      seen := above + {id};
    }
    assert RootedWithin(t, id, n);
    SubsetSize(seen, t.Keys);
  }

  /** Ancestors stay in the thread, and each ancestor's own ancestors are the rest of the list. */
  lemma {:induction false} AncestorsNest(t: Table, id: Id, n: nat, i: nat)
    requires Rooted(t, id, n) && i < n
    ensures var a := Ancestors(t, id, n);
            && Rooted(t, a[i], n - 1 - i)
            && Ancestors(t, a[i], n - 1 - i) == a[i + 1..]
            && InThread(t, a[i], t[id].site, t[id].thread)
    decreases n
  {
    if i > 0 {
      AncestorsNest(t, t[id].parent.value, n - 1, i - 1);
    }
  }
}
