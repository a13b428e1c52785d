/** Public listings over the visible tree: all comments, roots with a reply flag, and one root's replies. */
module PublicPages {
  import opened Prelude
  import opened CommentTable
  import opened VisibleTree
  import opened Pagination

  /** Like counts are read from another table; only their values matter here. */
  type Likes = Id -> int

  datatype ListError = NotFound

  function KeyOf(t: Table, likes: Likes, id: Id): Key
    requires id in t
  {
    Key(id, t[id].pinned, likes(id), t[id].createdAt)
  }

  /** The rows of ListPublic. */
  ghost function Listed(t: Table, likes: Likes, rows: seq<Vis>): set<Key> {
    set v | v in rows && IsPublished(t, v.id) :: KeyOf(t, likes, v.id)
  }

  /** The rows of ListPublicRoots. */
  ghost function Roots(t: Table, likes: Likes, rows: seq<Vis>): set<Key> {
    set v | v in rows && IsPublished(t, v.id) && v.parent == None :: KeyOf(t, likes, v.id)
  }

  /** The rows of ListPublicReplies for one root, before the cursor. */
  ghost function RepliesOf(t: Table, likes: Likes, rows: seq<Vis>, root: Id): set<Key> {
    set v | v in rows && IsPublished(t, v.id) && v.root == Some(root) && v.id != root :: KeyOf(t, likes, v.id)
  }

  /** The `has_replies` column of a root. */
  ghost predicate HasReplies(t: Table, rows: seq<Vis>, root: Id) {
    exists v :: v in rows && v.root == Some(root) && IsPublished(t, v.id)
  }

  lemma ListingsAreSnapshots(t: Table, likes: Likes, rows: seq<Vis>, root: Id)
    ensures Snapshot(Listed(t, likes, rows)) && Snapshot(Roots(t, likes, rows)) && Snapshot(RepliesOf(t, likes, rows, root))
  {
  }

  // ---------------------------------------------------------------- rows of the query

  lemma RowsAreProper(t: Table, scan: seq<Id>, site: Id, thread: Id, v: Vis)
    requires Scan(t, scan) && v in Visible(t, scan, site, thread)
    ensures Proper(t, site, thread, v)
  {
    RoundsCarry(t, scan, site, thread, 0, v);
  }

  lemma RowExists(t: Table, scan: seq<Id>, site: Id, thread: Id, c: Id, n: nat)
    requires Scan(t, scan) && InThread(t, c, site, thread) && Rooted(t, c, n)
    ensures Carried(t, c, n) in Visible(t, scan, site, thread)
  {
    var rows := Visible(t, scan, site, thread);
    RoundsHold(t, scan, site, thread, 0, c, n);
    CountIn(rows, c);
    var i :| 0 <= i < |rows| && rows[i].id == c;
    RowIs(t, scan, site, thread, rows[i], n);
  }

  lemma RowIs(t: Table, scan: seq<Id>, site: Id, thread: Id, v: Vis, n: nat)
    requires Scan(t, scan) && v in Visible(t, scan, site, thread) && Rooted(t, v.id, n)
    ensures v == Carried(t, v.id, n)
  {
    RowsAreProper(t, scan, site, thread, v);
    var k: nat :| Rooted(t, v.id, k) && v == Carried(t, v.id, k);
    RootedOnce(t, v.id, k, n);
  }

  lemma OneRowEach(t: Table, scan: seq<Id>, site: Id, thread: Id, v: Vis, w: Vis)
    requires Scan(t, scan) && v in Visible(t, scan, site, thread) && w in Visible(t, scan, site, thread) && v.id == w.id
    ensures v == w
  {
    RowsAreProper(t, scan, site, thread, v);
    var k: nat :| Rooted(t, v.id, k) && v == Carried(t, v.id, k);
    RowIs(t, scan, site, thread, w, k);
  }

  /** The topmost published ancestor of a comment is itself carried without parent and root. */
  lemma {:induction false} TopmostIsRoot(t: Table, c: Id, n: nat) returns (m: nat)
    requires Rooted(t, c, n)
    ensures var v := Carried(t, c, n);
            && (v.parent == None <==> v.root == None)
            && (v.root.Some? ==>
                  && m < n && Rooted(t, v.root.value, m) && Carried(t, v.root.value, m) == Vis(v.root.value, None, None)
                  && IsPublished(t, v.root.value) && InThread(t, v.root.value, t[c].site, t[c].thread))
    decreases n
  {
    m := 0;
    if n > 0 {
      var p := t[c].parent.value;
      m := TopmostIsRoot(t, p, n - 1);
      if Carried(t, p, n - 1).root == None {
        m := n - 1;
      }
    }
  }

  /** The visible root of a row is itself a published row without a visible parent or root. */
  lemma RootOfRow(t: Table, scan: seq<Id>, site: Id, thread: Id, v: Vis)
    requires Scan(t, scan) && v in Visible(t, scan, site, thread)
    ensures v.parent == None <==> v.root == None
    ensures v.root.Some? ==> v.root.value != v.id && IsPublished(t, v.root.value)
                             && Vis(v.root.value, None, None) in Visible(t, scan, site, thread)
  {
    RowsAreProper(t, scan, site, thread, v);
    var k: nat :| Rooted(t, v.id, k) && v == Carried(t, v.id, k);
    var m := TopmostIsRoot(t, v.id, k);
    if v.root.Some? {
      if v.root.value == v.id {
        RootedOnce(t, v.id, m, k);
      }
      RowExists(t, scan, site, thread, v.root.value, m);
    }
  }

  /** In a forest the listing holds exactly the thread's published comments. */
  lemma ListedIsPublished(t: Table, likes: Likes, scan: seq<Id>, site: Id, thread: Id, c: Id)
    requires Scan(t, scan) && Forest(t) && c in t
    ensures KeyOf(t, likes, c) in Listed(t, likes, Visible(t, scan, site, thread))
            <==> InThread(t, c, site, thread) && IsPublished(t, c)
  {
    var rows := Visible(t, scan, site, thread);
    if InThread(t, c, site, thread) && IsPublished(t, c) {
      var n: nat :| Rooted(t, c, n);
      RowExists(t, scan, site, thread, c, n);
      assert Carried(t, c, n) in rows && Carried(t, c, n).id == c;
    }
    if KeyOf(t, likes, c) in Listed(t, likes, rows) {
      var v :| v in rows && IsPublished(t, v.id) && KeyOf(t, likes, v.id) == KeyOf(t, likes, c);
      RowsAreProper(t, scan, site, thread, v);
    }
  }

  /**
   Roots and reply sets partition the published comments: each is a root and nobody's reply,
   or a reply of exactly one comment, which is a root.
   */
  lemma RootsAndRepliesPartition(t: Table, likes: Likes, scan: seq<Id>, site: Id, thread: Id, k: Key)
    requires Scan(t, scan) && k in Listed(t, likes, Visible(t, scan, site, thread))
    ensures var rows := Visible(t, scan, site, thread);
            if k in Roots(t, likes, rows)
            then forall r :: k !in RepliesOf(t, likes, rows, r)
            else exists r ::
              && r in t && KeyOf(t, likes, r) in Roots(t, likes, rows)
              && forall r' :: k in RepliesOf(t, likes, rows, r') <==> r' == r
  {
    var rows := Visible(t, scan, site, thread);
    var v :| v in rows && IsPublished(t, v.id) && k == KeyOf(t, likes, v.id);
    RootOfRow(t, scan, site, thread, v);
    forall w | w in rows && w.id == v.id
      ensures w == v
    {
      OneRowEach(t, scan, site, thread, v, w);
    }
    if v.root.Some? {
      var r := v.root.value;
      assert KeyOf(t, likes, r) in Roots(t, likes, rows) by {
        assert Vis(r, None, None) in rows;
      }
      forall r'
        ensures k in RepliesOf(t, likes, rows, r') <==> r' == r
      {
        if r' == r {
          assert k in RepliesOf(t, likes, rows, r);
        }
      }
    }
  }

  /** `has_replies` is set exactly when the first page of replies has a row, whatever the limit. */
  lemma HasRepliesMeansFirstPage(t: Table, likes: Likes, scan: seq<Id>, site: Id, thread: Id, root: Id, limit: int)
    requires Scan(t, scan)
    ensures Snapshot(RepliesOf(t, likes, Visible(t, scan, site, thread), root))
    ensures var rows := Visible(t, scan, site, thread);
            HasReplies(t, rows, root) <==> Page(Oldest, RepliesOf(t, likes, rows, root), None, limit) != []
  {
    var rows := Visible(t, scan, site, thread);
    ListingsAreSnapshots(t, likes, rows, root);
    var s := RepliesOf(t, likes, rows, root);
    assert Rest(Oldest, s, None) == s;
    if v :| v in rows && v.root == Some(root) && IsPublished(t, v.id) {
      RootOfRow(t, scan, site, thread, v);
      assert KeyOf(t, likes, v.id) in s;
    }
  }

  /** Every listed row shows the columns of a published comment of the thread, and its likes. */
  lemma ListedRowsMean(t: Table, likes: Likes, scan: seq<Id>, site: Id, thread: Id, k: Key)
    requires Scan(t, scan) && k in Listed(t, likes, Visible(t, scan, site, thread))
    ensures k.id in t && t[k.id].status == Published && t[k.id].site == site && t[k.id].thread == thread
    ensures k == Key(k.id, t[k.id].pinned, likes(k.id), t[k.id].createdAt)
  {
    var rows := Visible(t, scan, site, thread);
    var v :| v in rows && IsPublished(t, v.id) && k == KeyOf(t, likes, v.id);
    VisibleRows(t, scan, site, thread, v);
  }

  /** The row of a listing for one comment. */
  lemma OnlyRow(t: Table, scan: seq<Id>, site: Id, thread: Id, c: Id, n: nat)
    requires Scan(t, scan) && Rooted(t, c, n) && t[c].site == site && t[c].thread == thread
    ensures var rows := Visible(t, scan, site, thread);
            Carried(t, c, n) in rows && Carried(t, c, n).id == c && forall w :: w in rows && w.id == c ==> w == Carried(t, c, n)
    ensures Carried(t, c, n).parent == None <==> Carried(t, c, n).root == None
    ensures Carried(t, c, n).root != Some(c)
  {
    assert InThread(t, c, site, thread);
    RowExists(t, scan, site, thread, c, n);
    CarriedIsNearestAndTopmost(t, c, n);
    RootOfRow(t, scan, site, thread, Carried(t, c, n));
    forall w | w in Visible(t, scan, site, thread) && w.id == c
      ensures w == Carried(t, c, n)
    {
      OneRowEach(t, scan, site, thread, Carried(t, c, n), w);
    }
  }

  /** The listing shows a comment if it is published; as a root if no comment above it is. */
  lemma RootsMean(t: Table, likes: Likes, scan: seq<Id>, site: Id, thread: Id, c: Id, n: nat)
    requires Scan(t, scan) && Rooted(t, c, n) && t[c].site == site && t[c].thread == thread
    ensures forall i :: 0 <= i < |Ancestors(t, c, n)| ==> Ancestors(t, c, n)[i] in t
    ensures var rows, up, k := Visible(t, scan, site, thread), Ancestors(t, c, n), Key(c, t[c].pinned, likes(c), t[c].createdAt);
            && (k in Listed(t, likes, rows) <==> t[c].status == Published)
            && (k in Roots(t, likes, rows)
                <==> t[c].status == Published && forall i :: 0 <= i < |up| ==> t[up[i]].status != Published)
  {
    AncestorsExist(t, c, n);
    OnlyRow(t, scan, site, thread, c, n);
    CarriedIsNearestAndTopmost(t, c, n);
  }

  /** And as a reply of `r` if `r` is the last published comment on the way up. */
  lemma RepliesMean(t: Table, likes: Likes, scan: seq<Id>, site: Id, thread: Id, c: Id, n: nat, r: Id)
    requires Scan(t, scan) && Rooted(t, c, n) && t[c].site == site && t[c].thread == thread
    ensures forall i :: 0 <= i < |Ancestors(t, c, n)| ==> Ancestors(t, c, n)[i] in t
    ensures var rows, up, k := Visible(t, scan, site, thread), Ancestors(t, c, n), Key(c, t[c].pinned, likes(c), t[c].createdAt);
            k in RepliesOf(t, likes, rows, r)
            <==> && t[c].status == Published
                 && exists i :: 0 <= i < |up| && up[i] == r && t[r].status == Published
                                && forall j :: i < j < |up| ==> t[up[j]].status != Published
  {
    AncestorsExist(t, c, n);
    OnlyRow(t, scan, site, thread, c, n);
    CarriedIsNearestAndTopmost(t, c, n);
    LastUnique(t, Ancestors(t, c, n), Carried(t, c, n).root, r);
  }

  lemma LastUnique(t: Table, up: seq<Id>, root: Option<Id>, r: Id)
    requires IsLast(t, up, root)
    ensures root == Some(r)
            <==> exists i :: 0 <= i < |up| && up[i] == r && IsPublished(t, r) && forall j :: i < j < |up| ==> !IsPublished(t, up[j])
  {
  }

  lemma AncestorsExist(t: Table, c: Id, n: nat)
    requires Rooted(t, c, n)
    ensures forall i :: 0 <= i < |Ancestors(t, c, n)| ==> Ancestors(t, c, n)[i] in t
  {
    RootedIsChain(t, c, n);
    var chain := [c] + Ancestors(t, c, n);
    forall i | 0 <= i < |Ancestors(t, c, n)|
      ensures Ancestors(t, c, n)[i] in t
    {
      assert chain[i + 1] == Ancestors(t, c, n)[i];
    }
  }

  // ---------------------------------------------------------------- one root's replies

  /** A row of the joined query; the id of a missing reply scans as zero. */
  datatype ReplyRow = ReplyRow(requestedRoot: Id, id: Id, key: Option<Key>)

  ghost predicate IsVisibleRoot(t: Table, rows: seq<Vis>, id: Id) {
    IsPublished(t, id) && exists v :: v in rows && v.id == id && v.parent == None
  }

  /** A visible root is a published comment of the thread with no published ancestor. */
  lemma VisibleRootMeans(t: Table, scan: seq<Id>, site: Id, thread: Id, c: Id, n: nat)
    requires Scan(t, scan) && Rooted(t, c, n)
    ensures IsVisibleRoot(t, Visible(t, scan, site, thread), c)
            <==> && t[c].status == Published && t[c].site == site && t[c].thread == thread
                 && forall x :: x in Ancestors(t, c, n) && x in t ==> t[x].status != Published
  {
    var rows, v := Visible(t, scan, site, thread), Carried(t, c, n);
    CarriedIsNearestAndTopmost(t, c, n);
    AncestorsExist(t, c, n);
    if w :| w in rows && w.id == c && w.parent == None {
      VisibleRows(t, scan, site, thread, w);
      RowIs(t, scan, site, thread, w, n);
    }
    if t[c].site == site && t[c].thread == thread {
      assert InThread(t, c, site, thread);
      RowExists(t, scan, site, thread, c, n);
    }
  }

  /** The requested root, looked up in the visible rows. */
  ghost function RequestedRoot(t: Table, rows: seq<Vis>, root: Id): seq<Id> {
    if rows == [] then []
    else
      (if rows[0].id == root && IsPublished(t, root) && rows[0].parent == None then [root] else [])
      + RequestedRoot(t, rows[1..], root)
  }

  /** The page the query cuts; without a requested root the subquery is NULL and matches nothing. */
  ghost function ReplyPage(t: Table, likes: Likes, rows: seq<Vis>, requested: seq<Id>, root: Id, cursor: Option<Cursor>, limit: int): seq<Key> {
    if requested == [] then []
    else
      ListingsAreSnapshots(t, likes, rows, requested[0]);
      Page(Oldest, (set k | k in RepliesOf(t, likes, rows, requested[0]) && k.id != root), cursor, limit)
  }

  /** LEFT JOIN: a root without a page row still yields one row. */
  ghost function LeftJoin(requested: seq<Id>, page: seq<Key>): seq<ReplyRow> {
    if requested == [] then []
    else
      (if page == [] then [ReplyRow(requested[0], 0, None)]
       else seq(|page|, i requires 0 <= i < |page| => ReplyRow(requested[0], page[i].id, Some(page[i]))))
      + LeftJoin(requested[1..], page)
  }

  ghost function ReplyQuery(t: Table, likes: Likes, rows: seq<Vis>, root: Id, cursor: Option<Cursor>, limit: int): seq<ReplyRow> {
    var requested := RequestedRoot(t, rows, root);
    LeftJoin(requested, ReplyPage(t, likes, rows, requested, root, cursor, limit))
  }

  lemma {:induction false} RequestedRootIs(t: Table, rows: seq<Vis>, root: Id)
    requires Count(rows, root) <= 1
    ensures RequestedRoot(t, rows, root) == if IsVisibleRoot(t, rows, root) then [root] else []
  {
    if rows != [] {
      RequestedRootIs(t, rows[1..], root);
      CountIn(rows[1..], root);
      assert rows == [rows[0]] + rows[1..];
      if IsVisibleRoot(t, rows, root) && rows[0].id != root {
        var v :| v in rows && v.id == root && v.parent == None;
        assert v in rows[1..];
      }
    }
  }

  lemma RowsOnce(t: Table, scan: seq<Id>, site: Id, thread: Id, c: Id)
    requires Scan(t, scan)
    ensures Count(Visible(t, scan, site, thread), c) <= 1
  {
    var rows := Visible(t, scan, site, thread);
    CountIn(rows, c);
    if Count(rows, c) > 0 {
      var i :| 0 <= i < |rows| && rows[i].id == c;
      RowsAreProper(t, scan, site, thread, rows[i]);
      var k: nat :| Rooted(t, c, k) && rows[i] == Carried(t, c, k);
      RoundsHold(t, scan, site, thread, 0, c, k);
    }
  }

  /**
   Filters the scanned rows. NotFound exactly when the id is not a visible root of the thread;
   otherwise the page of its replies, which may be empty.
   */
  method ListPublicReplies(scanned: seq<ReplyRow>, root: Id,
                           ghost t: Table, ghost likes: Likes, ghost scan: seq<Id>, ghost site: Id, ghost thread: Id,
                           ghost cursor: Option<Cursor>, ghost limit: int)
    returns (r: Result<seq<Key>, ListError>)
    requires Scan(t, scan) && 0 !in t
    requires scanned == ReplyQuery(t, likes, Visible(t, scan, site, thread), root, cursor, limit)
    ensures r.Err? <==> !IsVisibleRoot(t, Visible(t, scan, site, thread), root)
    ensures Snapshot(RepliesOf(t, likes, Visible(t, scan, site, thread), root))
    ensures r.Ok? ==> r.value == Page(Oldest, RepliesOf(t, likes, Visible(t, scan, site, thread), root), cursor, limit)
    ensures r.Ok? ==>
              var left := |Rest(Oldest, RepliesOf(t, likes, Visible(t, scan, site, thread), root), cursor)|;
              var n := if limit > 0 then limit else 50;
              |r.value| == if left < n then left else n
  {
    ghost var rows := Visible(t, scan, site, thread);
    ghost var page := ScannedIs(t, likes, scan, site, thread, root, cursor, limit);
    if |scanned| == 0 {
      return Err(NotFound);
    }
    var kept := KeepReplies(scanned, root, page);
    PageSize(Oldest, RepliesOf(t, likes, rows, root), cursor, limit);
    return Ok(kept);
  }

  /** The loop over the scanned rows: keeps those of the requested root that are really there. */
  method KeepReplies(scanned: seq<ReplyRow>, root: Id, ghost page: seq<Key>) returns (kept: seq<Key>)
    requires scanned == LeftJoin([root], page) && forall i :: 0 <= i < |page| ==> page[i].id != 0
    ensures kept == page
  {
    kept := [];
    assert page != [] ==> |scanned| == |page| && forall i :: 0 <= i < |page| ==> scanned[i] == ReplyRow(root, page[i].id, Some(page[i]));
    assert page == [] ==> scanned == [ReplyRow(root, 0, None)];
    for i := 0 to |scanned|
      invariant if page == [] then kept == [] else kept == page[..i]
    {
      var row := scanned[i];
      if row.requestedRoot == root && row.id != 0 {
        kept := kept + [row.key.value];
      }
    }
  }

  lemma ScannedIs(t: Table, likes: Likes, scan: seq<Id>, site: Id, thread: Id, root: Id, cursor: Option<Cursor>, limit: int)
    returns (page: seq<Key>)
    requires Scan(t, scan) && 0 !in t
    ensures var rows := Visible(t, scan, site, thread);
            && Snapshot(RepliesOf(t, likes, rows, root))
            && page == Page(Oldest, RepliesOf(t, likes, rows, root), cursor, limit)
            && ReplyQuery(t, likes, rows, root, cursor, limit) == (if IsVisibleRoot(t, rows, root) then LeftJoin([root], page) else [])
    ensures forall i :: 0 <= i < |page| ==> page[i].id != 0
  {
    var rows := Visible(t, scan, site, thread);
    RowsOnce(t, scan, site, thread, root);
    RequestedRootIs(t, rows, root);
    ListingsAreSnapshots(t, likes, rows, root);
    var s := RepliesOf(t, likes, rows, root);
    page := Page(Oldest, s, cursor, limit);
    assert (set k | k in s && k.id != root) == s;
    ListingLists(Oldest, Rest(Oldest, s, cursor));
    forall i | 0 <= i < |page|
      ensures page[i].id != 0
    {
      assert page[i] in Listing(Oldest, Rest(Oldest, s, cursor));
      assert page[i] in s;
    }
  }
}
