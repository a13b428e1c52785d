/** What hiding or publishing one comment does to the visible tree. */
module Moderation {
  import opened Prelude
  import opened CommentTable
  import opened VisibleTree
  import opened PublicPages

  /** The same comments and reply links, whatever their status. */
  ghost predicate SameLinks(t: Table, u: Table) {
    t.Keys == u.Keys && forall c :: c in t ==> t[c].site == u[c].site && t[c].thread == u[c].thread && t[c].parent == u[c].parent
  }

  /** `u` is `t` with exactly `h` taken out of the published comments. */
  ghost predicate Hides(t: Table, u: Table, h: Id) {
    SameLinks(t, u) && IsPublished(t, h) && forall c :: IsPublished(u, c) <==> IsPublished(t, c) && c != h
  }

  lemma {:induction false} RootedSame(t: Table, u: Table, c: Id, n: nat)
    requires SameLinks(t, u)
    ensures Rooted(t, c, n) <==> Rooted(u, c, n)
    decreases n
  {
    if n > 0 && c in t && t[c].parent.Some? {
      RootedSame(t, u, t[c].parent.value, n - 1);
    }
  }

  /** Only links and published comments matter, so publishing again undoes hiding. */
  lemma {:induction false} CarriedDependsOnPublished(t: Table, u: Table, c: Id, n: nat)
    requires SameLinks(t, u) && Rooted(t, c, n) && forall x :: IsPublished(t, x) <==> IsPublished(u, x)
    ensures Rooted(u, c, n) && Carried(u, c, n) == Carried(t, c, n)
    decreases n
  {
    RootedSame(t, u, c, n);
    if n > 0 {
      CarriedDependsOnPublished(t, u, t[c].parent.value, n - 1);
    }
  }

  /** A carried parent or root is higher up than the comment, so it is another comment. */
  lemma {:induction false} CarriedIsAbove(t: Table, c: Id, n: nat, x: Id)
    requires Rooted(t, c, n) && (Carried(t, c, n).parent == Some(x) || Carried(t, c, n).root == Some(x))
    ensures exists m: nat :: m < n && Rooted(t, x, m)
    decreases n
  {
    var p := t[c].parent.value;
    assert n > 0 && Rooted(t, p, n - 1);
    var up := Carried(t, p, n - 1);
    if up.parent == Some(x) || up.root == Some(x) {
      CarriedIsAbove(t, p, n - 1, x);
      var m: nat :| m < n - 1 && Rooted(t, x, m);
      assert m < n && Rooted(t, x, m);
    } else {
      assert x == p;
    }
  }

  lemma NotItsOwnAncestor(t: Table, c: Id, n: nat)
    requires Rooted(t, c, n)
    ensures Carried(t, c, n).parent != Some(c) && Carried(t, c, n).root != Some(c)
  {
    if Carried(t, c, n).parent == Some(c) || Carried(t, c, n).root == Some(c) {
      CarriedIsAbove(t, c, n, c);
      var m: nat :| m < n && Rooted(t, c, m);
      RootedOnce(t, c, m, n);
    }
  }

  ghost predicate Under(t: Table, c: Id, x: Id) {
    exists n: nat :: Rooted(t, c, n) && x in Ancestors(t, c, n)
  }

  lemma UnderStep(t: Table, c: Id, n: nat, x: Id)
    requires Rooted(t, c, n) && n > 0 && (x == t[c].parent.value || Under(t, t[c].parent.value, x))
    ensures Under(t, c, x)
  {
    var p := t[c].parent.value;
    if x != p {
      var k: nat :| Rooted(t, p, k) && x in Ancestors(t, p, k);
      RootedOnce(t, p, k, n - 1);
    }
    assert x in Ancestors(t, c, n);
  }

  /** The visible child of `h` that `c` hangs under. */
  ghost predicate ChildOnTheWay(t: Table, h: Id, c: Id, x: Id) {
    Under(t, c, x) && IsPublished(t, x) && exists k: nat :: Rooted(t, x, k) && Carried(t, x, k).parent == Some(h)
  }

  /** The root a comment has once `h` is hidden, given the rows before and after. */
  ghost predicate RootAfterHiding(t: Table, h: Id, v: Vis, v': Vis) {
    if v.root != Some(h) then v'.root == v.root
    else if v.parent == Some(h) then v'.root == None
    else v'.root.Some? && ChildOnTheWay(t, h, v.id, v'.root.value)
  }

  /**
   Hiding `h` contracts the visible tree: exactly the visible children of `h` move to its own
   visible parent, and only the comments under the root `h` change root, to the visible child
   of `h` they hang under, or to none for those children themselves.
   */
  lemma {:induction false} HidingContracts(t: Table, u: Table, h: Id, m: nat, c: Id, n: nat)
    requires Hides(t, u, h) && Rooted(t, h, m) && Rooted(t, c, n)
    ensures Rooted(u, c, n)
    ensures Carried(u, c, n).parent
            == if Carried(t, c, n).parent == Some(h) then Carried(t, h, m).parent else Carried(t, c, n).parent
    ensures RootAfterHiding(t, h, Carried(t, c, n), Carried(u, c, n))
    decreases n
  {
    RootedSame(t, u, c, n);
    if n > 0 {
      var p := t[c].parent.value;
      HidingContracts(t, u, h, m, p, n - 1);
      var up, up' := Carried(t, p, n - 1), Carried(u, p, n - 1);
      if p == h {
        RootedOnce(t, h, m, n - 1);
        NotItsOwnAncestor(t, h, m);
        var k := TopmostIsRoot(t, h, m);
      } else if up.root == Some(h) && Carried(t, c, n).parent != Some(h) {
        var x := if up.parent == Some(h) then p else up'.root.value;
        UnderStep(t, c, n, x);
      }
    }
  }

  /** How the row of a comment after hiding `h` follows from its row before. */
  ghost predicate RowFollows(t: Table, h: Id, v: Vis, v': Vis) {
    && v'.id == v.id
    && (exists m: nat :: Rooted(t, h, m) && v'.parent == if v.parent == Some(h) then Carried(t, h, m).parent else v.parent)
    && RootAfterHiding(t, h, v, v')
  }

  /** The same for the rows of the query: every row before has one after that follows from it. */
  lemma HidingContractsRows(t: Table, u: Table, h: Id, scan: seq<Id>, site: Id, thread: Id, v: Vis)
    requires Hides(t, u, h) && Scan(t, scan) && Scan(u, scan) && v in Visible(t, scan, site, thread)
    requires exists m: nat :: Rooted(t, h, m)
    ensures exists v' :: v' in Visible(u, scan, site, thread) && RowFollows(t, h, v, v')
  {
    var n := RowDepth(t, scan, site, thread, v);
    RowPair(t, u, h, v.id, n);
    RowExists(u, scan, site, thread, v.id, n);
  }

  /** And every row after follows from one before: hiding adds no row and loses none. */
  lemma HidingAddsNoRows(t: Table, u: Table, h: Id, scan: seq<Id>, site: Id, thread: Id, v': Vis)
    requires Hides(t, u, h) && Scan(t, scan) && Scan(u, scan) && v' in Visible(u, scan, site, thread)
    requires exists m: nat :: Rooted(t, h, m)
    ensures exists v :: v in Visible(t, scan, site, thread) && RowFollows(t, h, v, v')
  {
    var n := RowDepth(u, scan, site, thread, v');
    RootedSame(t, u, v'.id, n);
    RowPair(t, u, h, v'.id, n);
    RowExists(t, scan, site, thread, v'.id, n);
  }

  lemma RowPair(t: Table, u: Table, h: Id, c: Id, n: nat)
    requires Hides(t, u, h) && Rooted(t, c, n)
    requires exists m: nat :: Rooted(t, h, m)
    ensures Rooted(u, c, n) && RowFollows(t, h, Carried(t, c, n), Carried(u, c, n))
  {
    var m: nat :| Rooted(t, h, m);
    HidingContracts(t, u, h, m, c, n);
    CarriedId(t, c, n);
    CarriedId(u, c, n);
  }

  lemma CarriedId(t: Table, c: Id, n: nat)
    requires Rooted(t, c, n)
    ensures Carried(t, c, n).id == c
  {
  }

  lemma RowDepth(t: Table, scan: seq<Id>, site: Id, thread: Id, v: Vis) returns (n: nat)
    requires Scan(t, scan) && v in Visible(t, scan, site, thread)
    ensures InThread(t, v.id, site, thread) && Rooted(t, v.id, n) && v == Carried(t, v.id, n)
  {
    RowsAreProper(t, scan, site, thread, v);
    n :| Rooted(t, v.id, n) && v == Carried(t, v.id, n);
  }

  /** Publishing the comment again brings back the rows the query had before. */
  lemma PublishingUndoesHiding(t: Table, u: Table, w: Table, h: Id, scan: seq<Id>, site: Id, thread: Id, v: Vis)
    requires Hides(t, u, h) && Hides(w, u, h) && Scan(t, scan) && Scan(w, scan)
    ensures v in Visible(t, scan, site, thread) <==> v in Visible(w, scan, site, thread)
  {
    if v in Visible(t, scan, site, thread) {
      RowsAreProper(t, scan, site, thread, v);
      var n: nat :| Rooted(t, v.id, n) && v == Carried(t, v.id, n);
      CarriedDependsOnPublished(t, w, v.id, n);
      RowExists(w, scan, site, thread, v.id, n);
    }
    if v in Visible(w, scan, site, thread) {
      RowsAreProper(w, scan, site, thread, v);
      var n: nat :| Rooted(w, v.id, n) && v == Carried(w, v.id, n);
      CarriedDependsOnPublished(w, t, v.id, n);
      RowExists(t, scan, site, thread, v.id, n);
    }
  }
}
