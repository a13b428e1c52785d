/** The rows a sorted batch should produce, and why they form a forest. */
module ImportRows {
  import opened Prelude
  import opened CommentTable
  import opened ImportSource

  /** Where the source's ids, sites, authors and pages went in the target. */
  datatype Placing = Placing(
    ids: map<string, Id>, sites: map<string, Id>, users: map<string, Id>, threads: map<(Id, string), Id>,
    author: Source -> string)

  function At<K>(m: map<K, Id>, k: K): Id {
    if k in m then m[k] else 0
  }

  ghost function DepthOf(m: Sources, id: string): nat {
    if n: nat :| Anchored(m, id, n) then n else 0
  }

  ghost function Top(m: Sources, id: string, n: nat): string
    decreases n
  {
    if n == 0 || id !in m then id else Top(m, m[id].parent, n - 1)
  }

  ghost function TopOf(m: Sources, id: string): string {
    Top(m, id, DepthOf(m, id))
  }

  lemma DepthIs(m: Sources, id: string, n: nat)
    requires Anchored(m, id, n)
    ensures DepthOf(m, id) == n
  {
    AnchoredOnce(m, id, DepthOf(m, id), n);
  }

  /** One link down: depth grows by one, the top of the chain is the parent's. */
  lemma DepthStep(m: Sources, id: string)
    requires Importable(m, id)
    ensures m[id].parent == "" <==> DepthOf(m, id) == 0
    ensures DepthOf(m, id) == 0 ==> TopOf(m, id) == id
    ensures m[id].parent != "" ==>
              && HasParent(m, id) && Importable(m, m[id].parent)
              && DepthOf(m, id) == DepthOf(m, m[id].parent) + 1 && TopOf(m, id) == TopOf(m, m[id].parent)
  {
    var n: nat :| Anchored(m, id, n);
    DepthIs(m, id, n);
    if n > 0 {
      DepthIs(m, m[id].parent, n - 1);
    }
  }

  /** On a reply chain written out, depth and top can be read off. */
  lemma {:induction false} LineGives(m: Sources, line: seq<string>)
    requires IsLine(m, line)
    ensures Importable(m, line[0])
    ensures DepthOf(m, line[0]) == |line| - 1 && TopOf(m, line[0]) == line[|line| - 1]
    decreases |line|
  {
    assert InLine(m, line, 0);
    ImportableIsLine(m, line[0]);
    DepthStep(m, line[0]);
    if |line| > 1 {
      var up := line[1..];
      assert line == [line[0]] + up;
      LineGrows(m, line[0], up);
      LineGives(m, up);
    }
  }

  function SiteOf(p: Placing, s: Source): Id {
    At(p.sites, s.site)
  }

  function ThreadOf(p: Placing, s: Source): Id {
    At(p.threads, (SiteOf(p, s), s.page))
  }

  /** The row for one comment: depth and root are those of its source chain. */
  ghost function RowFor(m: Sources, p: Placing, id: string): Row
    requires id in m
  {
    var s, n := m[id], DepthOf(m, id);
    Row(SiteOf(p, s), ThreadOf(p, s), At(p.users, p.author(s)),
        if n == 0 then None else Some(At(p.ids, s.parent)),
        if n == 0 then None else Some(At(p.ids, TopOf(m, id))),
        n,
        if s.pending then Pending else Published, None,
        false, s.createdAt, if s.pending then None else Some(s.createdAt), None)
  }

  /** `t` is `t0` plus one new row for every placed comment. */
  ghost predicate Adds(ids: map<string, Id>, t0: Table, t: Table) {
    && (forall id :: id in ids ==> ids[id] in t && ids[id] !in t0)
    && (forall a, b :: a in ids && b in ids && a != b ==> ids[a] != ids[b])
    && (forall c :: c in t0 ==> c in t && t[c] == t0[c])
    && (forall c :: c in t ==> c in t0 || exists id :: id in ids && ids[id] == c)
  }

  /** The new rows are the right ones, and with every placed comment its parent is placed. */
  ghost predicate Extends(m: Sources, p: Placing, t0: Table, t: Table) {
    && Adds(p.ids, t0, t)
    && (forall id :: id in p.ids ==> id in m && t[p.ids[id]] == RowFor(m, p, id))
    && (forall id :: id in p.ids ==> Importable(m, id) && (m[id].parent != "" ==> m[id].parent in p.ids))
  }

  /** The same for two placed comments and one row. */
  ghost predicate ExtendedAt(m: Sources, p: Placing, t0: Table, t: Table, a: string, b: string, c: Id) {
    && (a in p.ids ==>
          && a in m && Importable(m, a) && (m[a].parent != "" ==> m[a].parent in p.ids)
          && p.ids[a] in t && p.ids[a] !in t0 && t[p.ids[a]] == RowFor(m, p, a))
    && (a in p.ids && b in p.ids && a != b ==> p.ids[a] != p.ids[b])
    && (c in t0 ==> c in t && t[c] == t0[c])
    && (c in t ==> c in t0 || exists id :: id in p.ids && p.ids[id] == c)
  }

  ghost predicate Extended(m: Sources, p: Placing, t0: Table, t: Table) {
    forall a, b, c {:trigger ExtendedAt(m, p, t0, t, a, b, c)} :: ExtendedAt(m, p, t0, t, a, b, c)
  }

  lemma ExtendedIs(m: Sources, p: Placing, t0: Table, t: Table)
    ensures Extended(m, p, t0, t) <==> Extends(m, p, t0, t)
  {
    if Extended(m, p, t0, t) {
      assert forall a, b, c :: ExtendedAt(m, p, t0, t, a, b, c);
      forall a, b | a in p.ids && b in p.ids
        ensures p.ids[a] in t && p.ids[a] !in t0 && (a != b ==> p.ids[a] != p.ids[b])
        ensures a in m && t[p.ids[a]] == RowFor(m, p, a)
        ensures Importable(m, a) && (m[a].parent != "" ==> m[a].parent in p.ids)
      {
        assert ExtendedAt(m, p, t0, t, a, b, 0);
      }
      forall c
        ensures c in t0 ==> c in t && t[c] == t0[c]
        ensures c in t ==> c in t0 || exists id :: id in p.ids && p.ids[id] == c
      {
        assert ExtendedAt(m, p, t0, t, "", "", c);
      }
    }
  }

  /** The table before, and a comment of its own for every placed record. */
  lemma AddsMeans(ids: map<string, Id>, t0: Table, t: Table)
    ensures Adds(ids, t0, t)
            <==> && t.Keys == t0.Keys + (set id | id in ids :: ids[id])
                 && (forall id :: id in ids ==> ids[id] !in t0)
                 && (forall a, b :: a in ids && b in ids && a != b ==> ids[a] != ids[b])
                 && (forall c :: c in t0 && c in t ==> t[c] == t0[c])
  {
    var added := set id | id in ids :: ids[id];
    assert forall id :: id in ids ==> ids[id] in added;
    if Adds(ids, t0, t) {
      assert forall c :: c in t <==> c in t0.Keys + added;
    }
  }

  lemma AddsOne(ids: map<string, Id>, t0: Table, t: Table, id: string, newId: Id, row: Row)
    requires Adds(ids, t0, t) && id !in ids && newId !in t && newId !in t0
    ensures Adds(ids[id := newId], t0, t[newId := row])
    ensures forall x :: x in ids ==> t[newId := row][ids[x]] == t[ids[x]]
  {
    var ids', t' := ids[id := newId], t[newId := row];
    forall c | c in t' && c !in t0
      ensures exists x :: x in ids' && ids'[x] == c
    {
      if c == newId {
        assert ids'[id] == c;
      } else {
        var x :| x in ids && ids[x] == c;
        assert ids'[x] == c;
      }
    }
  }

  lemma {:induction false} OldIsRooted(t0: Table, t: Table, c: Id, n: nat)
    requires (forall x :: x in t0 ==> x in t && t[x] == t0[x]) && Rooted(t0, c, n)
    ensures Rooted(t, c, n)
    decreases n
  {
    if n > 0 {
      OldIsRooted(t0, t, t0[c].parent.value, n - 1);
    }
  }

  /** An imported comment hangs under the image of its top, at its source depth. */
  lemma {:induction false} NewIsRooted(m: Sources, p: Placing, t0: Table, t: Table, id: string)
    requires Extends(m, p, t0, t) && id in p.ids
    ensures Rooted(t, p.ids[id], DepthOf(m, id))
    ensures TopOf(m, id) in p.ids && t[p.ids[TopOf(m, id)]].site == t[p.ids[id]].site
    ensures DepthOf(m, id) > 0 ==>
              Ancestors(t, p.ids[id], DepthOf(m, id))[DepthOf(m, id) - 1] == p.ids[TopOf(m, id)]
    decreases DepthOf(m, id)
  {
    DepthStep(m, id);
    if m[id].parent != "" {
      NewIsRooted(m, p, t0, t, m[id].parent);
    }
  }

  /**
   A new row, column by column: published at its own date unless it is pending, never pinned or
   deleted, a root or under the image of its parent and of the top of its chain.
   */
  lemma NewRowMeans(m: Sources, p: Placing, t0: Table, t: Table, id: string, line: seq<string>)
    requires Extends(m, p, t0, t) && id in p.ids && id in m && IsLine(m, line) && line[0] == id
    ensures p.ids[id] in t && p.ids[id] !in t0 && (|line| > 1 ==> line[1] in p.ids && line[|line| - 1] in p.ids)
    ensures var row, s := t[p.ids[id]], m[id];
            && row.status == (if s.pending then Pending else Published)
            && row.publishedAt == (if s.pending then None else Some(s.createdAt))
            && row.createdAt == s.createdAt
            && !row.pinned && row.deletedAt == None && row.statusBeforeDelete == None
            && row.depth == |line| - 1
            && row.parent == (if s.parent == "" then None else Some(p.ids[line[1]]))
            && row.root == (if s.parent == "" then None else Some(p.ids[line[|line| - 1]]))
  {
    LineGives(m, line);
    NewIsRooted(m, p, t0, t, id);
    DepthStep(m, id);
    assert InLine(m, line, 0);
    assert t[p.ids[id]] == RowFor(m, p, id);
  }

  /** Importing into a forest gives a forest. */
  lemma ImportKeepsForest(m: Sources, p: Placing, t0: Table, t: Table)
    requires Extends(m, p, t0, t) && Forest(t0)
    ensures Forest(t)
  {
    forall c | c in t
      ensures exists n: nat :: Rooted(t, c, n)
      ensures t[c].parent.Some? ==> t[c].parent.value in t && t[t[c].parent.value].site == t[c].site
      ensures t[c].root.Some? ==> t[c].root.value in t && t[t[c].root.value].site == t[c].site
    {
      if c in t0 {
        var n: nat :| Rooted(t0, c, n);
        OldIsRooted(t0, t, c, n);
      } else {
        var id :| id in p.ids && p.ids[id] == c;
        NewIsRooted(m, p, t0, t, id);
        assert Rooted(t, c, DepthOf(m, id));
        DepthStep(m, id);
      }
    }
  }

  /** One more comment, its parent being placed already, extends the table. */
  lemma ExtendsStep(m: Sources, p: Placing, t0: Table, t: Table, id: string, newId: Id)
    requires Extends(m, p, t0, t) && id in m && id !in p.ids && newId !in t && newId !in t0
    requires Importable(m, id) && (m[id].parent != "" ==> m[id].parent in p.ids)
    ensures var p' := p.(ids := p.ids[id := newId]);
            RowFor(m, p', id) == RowFor(m, p, id) && Extends(m, p', t0, t[newId := RowFor(m, p, id)])
  {
    var p' := p.(ids := p.ids[id := newId]);
    AddsOne(p.ids, t0, t, id, newId, RowFor(m, p, id));
    forall x | x in p'.ids
      ensures RowFor(m, p', x) == RowFor(m, p, x)
    {
      RowIsSettled(m, p, t0, t, id, newId, x);
    }
  }

  /** The row of a placed comment, or of the next one, does not depend on where the next one goes. */
  lemma RowIsSettled(m: Sources, p: Placing, t0: Table, t: Table, id: string, newId: Id, x: string)
    requires Extends(m, p, t0, t) && id in m && id !in p.ids && (x in p.ids || x == id)
    requires Importable(m, id) && (m[id].parent != "" ==> m[id].parent in p.ids)
    ensures RowFor(m, p.(ids := p.ids[id := newId]), x) == RowFor(m, p, x)
  {
    DepthStep(m, x);
    if m[x].parent != "" {
      NewIsRooted(m, p, t0, t, m[x].parent);
    }
  }
}
