/**
 The recursive query behind every public listing. It walks a thread down from its roots,
 one level of replies at a time, and carries for each comment its nearest and its topmost
 published ancestor, so that hidden comments are bridged.
 */
module VisibleTree {
  import opened Prelude
  import opened CommentTable

  /** A row of the query: a comment with its visible parent and visible root. */
  datatype Vis = Vis(id: Id, parent: Option<Id>, root: Option<Id>)

  /** `scan` lists the ids of the table once each, in whatever order the engine reads them. */
  ghost predicate Scan(t: Table, scan: seq<Id>) {
    NoRepeats(scan) && forall id :: id in t <==> id in scan
  }

  function Anchors(t: Table, scan: seq<Id>, site: Id, thread: Id): seq<Vis> {
    if scan == [] then []
    else
      var here := if InThread(t, scan[0], site, thread) && t[scan[0]].parent == None then [Vis(scan[0], None, None)] else [];
      here + Anchors(t, scan[1..], site, thread)
  }

  /** What a reply to `v` carries: `v` itself if it is published, else what `v` carries. */
  function Below(t: Table, v: Vis, c: Id): Vis {
    if IsPublished(t, v.id) then Vis(c, Some(v.id), if v.root.Some? then v.root else Some(v.id))
    else Vis(c, v.parent, v.root)
  }

  function Replies(t: Table, v: Vis, scan: seq<Id>, site: Id, thread: Id): seq<Vis> {
    if scan == [] then []
    else
      var here := if Link(t, v.id, scan[0]) && InThread(t, scan[0], site, thread) then [Below(t, v, scan[0])] else [];
      here + Replies(t, v, scan[1..], site, thread)
  }

  function Join(t: Table, work: seq<Vis>, scan: seq<Id>, site: Id, thread: Id): seq<Vis> {
    if work == [] then [] else Replies(t, work[0], scan, site, thread) + Join(t, work[1..], scan, site, thread)
  }

  /** The rows that round `n` of the recursion produces. */
  function Level(t: Table, scan: seq<Id>, site: Id, thread: Id, n: nat): seq<Vis> {
    if n == 0 then Anchors(t, scan, site, thread) else Join(t, Level(t, scan, site, thread, n - 1), scan, site, thread)
  }

  /** How often a comment occurs among rows. */
  function Count(rows: seq<Vis>, c: Id): nat {
    if rows == [] then 0 else (if rows[0].id == c then 1 else 0) + Count(rows[1..], c)
  }

  lemma {:induction false} CountConcat(a: seq<Vis>, b: seq<Vis>, c: Id)
    ensures Count(a + b, c) == Count(a, c) + Count(b, c)
  {
    if a == [] {
      assert a + b == b;
    } else {
      CountConcat(a[1..], b, c);
      assert (a + b)[1..] == a[1..] + b;
    }
  }

  lemma {:induction false} CountIn(rows: seq<Vis>, c: Id)
    ensures Count(rows, c) > 0 <==> exists i :: 0 <= i < |rows| && rows[i].id == c
  {
    if rows != [] {
      CountIn(rows[1..], c);
      if Count(rows[1..], c) > 0 {
        var i :| 0 <= i < |rows[1..]| && rows[1..][i].id == c;
        assert rows[i + 1].id == c;
      }
      if i :| 0 <= i < |rows| && rows[i].id == c {
        if i > 0 {
          assert rows[1..][i - 1].id == c;
        }
      }
    }
  }

  lemma {:induction false} AnchorsCount(t: Table, scan: seq<Id>, site: Id, thread: Id, c: Id)
    requires NoRepeats(scan)
    ensures Count(Anchors(t, scan, site, thread), c)
            == if c in scan && InThread(t, c, site, thread) && t[c].parent == None then 1 else 0
    ensures forall v :: v in Anchors(t, scan, site, thread) ==> v == Vis(v.id, None, None)
  {
    if scan != [] {
      AnchorsCount(t, scan[1..], site, thread, c);
      var here := if InThread(t, scan[0], site, thread) && t[scan[0]].parent == None then [Vis(scan[0], None, None)] else [];
      CountConcat(here, Anchors(t, scan[1..], site, thread), c);
      assert c in scan <==> c == scan[0] || c in scan[1..];
    }
  }

  lemma {:induction false} RepliesCount(t: Table, v: Vis, scan: seq<Id>, site: Id, thread: Id, c: Id)
    requires NoRepeats(scan)
    ensures Count(Replies(t, v, scan, site, thread), c)
            == if c in scan && Link(t, v.id, c) && InThread(t, c, site, thread) then 1 else 0
    ensures forall w :: w in Replies(t, v, scan, site, thread) ==> Link(t, v.id, w.id) && w == Below(t, v, w.id)
  {
    if scan != [] {
      RepliesCount(t, v, scan[1..], site, thread, c);
      var here := if Link(t, v.id, scan[0]) && InThread(t, scan[0], site, thread) then [Below(t, v, scan[0])] else [];
      CountConcat(here, Replies(t, v, scan[1..], site, thread), c);
      assert c in scan <==> c == scan[0] || c in scan[1..];
    }
  }

  /** A reply occurs once for every occurrence of its parent. */
  lemma {:induction false} JoinCount(t: Table, work: seq<Vis>, scan: seq<Id>, site: Id, thread: Id, c: Id)
    requires Scan(t, scan)
    ensures Count(Join(t, work, scan, site, thread), c)
            == if InThread(t, c, site, thread) && t[c].parent.Some? && Link(t, t[c].parent.value, c)
               then Count(work, t[c].parent.value) else 0
    ensures forall w :: w in Join(t, work, scan, site, thread) ==>
              exists v :: v in work && Link(t, v.id, w.id) && w == Below(t, v, w.id)
  {
    if work != [] {
      JoinCount(t, work[1..], scan, site, thread, c);
      RepliesCount(t, work[0], scan, site, thread, c);
      CountConcat(Replies(t, work[0], scan, site, thread), Join(t, work[1..], scan, site, thread), c);
    }
  }

  // ---------------------------------------------------------------- what the levels hold

  /** The visible parent and root of a comment, read off its ancestors one link at a time. */
  function Carried(t: Table, c: Id, n: nat): Vis
    requires Rooted(t, c, n)
    decreases n
  {
    if n == 0 then Vis(c, None, None) else Below(t, Carried(t, t[c].parent.value, n - 1), c)
  }

  /** Level `n` holds the thread's comments that are `n` links below a root, once each. */
  lemma {:induction false} LevelHolds(t: Table, scan: seq<Id>, site: Id, thread: Id, n: nat, c: Id)
    requires Scan(t, scan)
    ensures Count(Level(t, scan, site, thread, n), c) == if InThread(t, c, site, thread) && Rooted(t, c, n) then 1 else 0
    decreases n
  {
    if n == 0 {
      AnchorsCount(t, scan, site, thread, c);
    } else {
      var above := Level(t, scan, site, thread, n - 1);
      JoinCount(t, above, scan, site, thread, c);
      if c in t && t[c].parent.Some? {
        LevelHolds(t, scan, site, thread, n - 1, t[c].parent.value);
      }
    }
  }

  lemma {:induction false} RowCarries(t: Table, scan: seq<Id>, site: Id, thread: Id, n: nat, w: Vis)
    requires Scan(t, scan) && w in Level(t, scan, site, thread, n)
    ensures Rooted(t, w.id, n) && w == Carried(t, w.id, n)
    decreases n
  {
    if n == 0 {
      AnchorCarries(t, scan, site, thread, w);
    } else {
      var above := Level(t, scan, site, thread, n - 1);
      var v := ReplyIsBelow(t, above, scan, site, thread, w);
      RowCarries(t, scan, site, thread, n - 1, v);
      BelowCarries(t, v, w, n);
    }
  }

  /** Every row of level `n` is `n` links deep and carries what its ancestors say. */
  lemma LevelCarries(t: Table, scan: seq<Id>, site: Id, thread: Id, n: nat)
    requires Scan(t, scan)
    ensures forall v :: v in Level(t, scan, site, thread, n) ==> Rooted(t, v.id, n) && v == Carried(t, v.id, n)
  {
    forall v | v in Level(t, scan, site, thread, n)
      ensures Rooted(t, v.id, n) && v == Carried(t, v.id, n)
    {
      RowCarries(t, scan, site, thread, n, v);
    }
  }

  lemma BelowCarries(t: Table, v: Vis, w: Vis, n: nat)
    requires n > 0 && Rooted(t, v.id, n - 1) && v == Carried(t, v.id, n - 1)
    requires Link(t, v.id, w.id) && w == Below(t, v, w.id)
    ensures Rooted(t, w.id, n) && w == Carried(t, w.id, n)
  {
  }

  lemma AnchorCarries(t: Table, scan: seq<Id>, site: Id, thread: Id, v: Vis)
    requires Scan(t, scan) && v in Anchors(t, scan, site, thread)
    ensures Rooted(t, v.id, 0) && v == Vis(v.id, None, None)
  {
    AnchorsCount(t, scan, site, thread, v.id);
    CountIn(Anchors(t, scan, site, thread), v.id);
  }

  lemma ReplyIsBelow(t: Table, above: seq<Vis>, scan: seq<Id>, site: Id, thread: Id, w: Vis) returns (v: Vis)
    requires Scan(t, scan) && w in Join(t, above, scan, site, thread)
    ensures v in above && Link(t, v.id, w.id) && w == Below(t, v, w.id)
  {
    JoinCount(t, above, scan, site, thread, w.id);
    v :| v in above && Link(t, v.id, w.id) && w == Below(t, v, w.id);
  }

  /** The recursion runs dry: a level that is not empty is shallower than the table is large. */
  lemma LevelIsShallow(t: Table, scan: seq<Id>, site: Id, thread: Id, n: nat)
    requires Scan(t, scan) && Level(t, scan, site, thread, n) != []
    ensures n < |t|
  {
    LevelCarries(t, scan, site, thread, n);
    var v := Level(t, scan, site, thread, n)[0];
    assert v in Level(t, scan, site, thread, n);
    var _ := ChainFits(t, v.id, n);
  }

  /** The whole query from round `n` on; it stops at the first round without rows. */
  ghost function Rounds(t: Table, scan: seq<Id>, site: Id, thread: Id, n: nat): seq<Vis>
    requires Scan(t, scan)
    decreases |t| - n
  {
    var work := Level(t, scan, site, thread, n);
    if work == [] then []
    else
      LevelIsShallow(t, scan, site, thread, n);
      work + Rounds(t, scan, site, thread, n + 1)
  }

  ghost function Visible(t: Table, scan: seq<Id>, site: Id, thread: Id): seq<Vis>
    requires Scan(t, scan)
  {
    Rounds(t, scan, site, thread, 0)
  }

  /** A comment is on the level of its own depth only, and no level up to that one is empty. */
  lemma HeldOnItsLevel(t: Table, scan: seq<Id>, site: Id, thread: Id, n: nat, c: Id, k: nat)
    requires Scan(t, scan) && InThread(t, c, site, thread) && Rooted(t, c, k)
    ensures Count(Level(t, scan, site, thread, n), c) == if n == k then 1 else 0
    ensures Level(t, scan, site, thread, n) == [] ==> n > k
  {
    LevelHolds(t, scan, site, thread, n, c);
    if Rooted(t, c, n) {
      RootedOnce(t, c, n, k);
    }
    if Level(t, scan, site, thread, n) == [] && n <= k {
      EmptyStaysEmpty(t, scan, site, thread, n, k);
      LevelHolds(t, scan, site, thread, k, c);
    }
  }

  lemma {:induction false} RoundsHold(t: Table, scan: seq<Id>, site: Id, thread: Id, n: nat, c: Id, k: nat)
    requires Scan(t, scan) && InThread(t, c, site, thread) && Rooted(t, c, k)
    ensures Count(Rounds(t, scan, site, thread, n), c) == if n <= k then 1 else 0
    decreases |t| - n
  {
    var work := Level(t, scan, site, thread, n);
    HeldOnItsLevel(t, scan, site, thread, n, c, k);
    if work != [] {
      LevelIsShallow(t, scan, site, thread, n);
      RoundsHold(t, scan, site, thread, n + 1, c, k);
      CountConcat(work, Rounds(t, scan, site, thread, n + 1), c);
    }
  }

  /** Stopping at the first empty round loses nothing. */
  lemma {:induction false} EmptyStaysEmpty(t: Table, scan: seq<Id>, site: Id, thread: Id, n: nat, k: nat)
    requires n <= k && Level(t, scan, site, thread, n) == []
    ensures Level(t, scan, site, thread, k) == []
    decreases k
  {
    if n < k {
      EmptyStaysEmpty(t, scan, site, thread, n, k - 1);
    }
  }

  /** A row of the thread with the right carried values. */
  ghost predicate Proper(t: Table, site: Id, thread: Id, v: Vis) {
    InThread(t, v.id, site, thread) && exists k: nat :: Rooted(t, v.id, k) && v == Carried(t, v.id, k)
  }

  lemma LevelIsProper(t: Table, scan: seq<Id>, site: Id, thread: Id, n: nat, v: Vis)
    requires Scan(t, scan) && v in Level(t, scan, site, thread, n)
    ensures Proper(t, site, thread, v)
  {
    LevelCarries(t, scan, site, thread, n);
    LevelHolds(t, scan, site, thread, n, v.id);
    CountIn(Level(t, scan, site, thread, n), v.id);
  }

  lemma {:induction false} RoundsCarry(t: Table, scan: seq<Id>, site: Id, thread: Id, n: nat, v: Vis)
    requires Scan(t, scan) && v in Rounds(t, scan, site, thread, n)
    ensures Proper(t, site, thread, v)
    decreases |t| - n
  {
    LevelIsShallow(t, scan, site, thread, n);
    if v in Level(t, scan, site, thread, n) {
      LevelIsProper(t, scan, site, thread, n, v);
    } else {
      RoundsCarry(t, scan, site, thread, n + 1, v);
    }
  }

  // ---------------------------------------------------------------- nearest and topmost published ancestor

  /** `r` is the first published comment of a list, if there is one. */
  ghost predicate IsFirst(t: Table, a: seq<Id>, r: Option<Id>) {
    match r
    case None => forall i :: 0 <= i < |a| ==> !IsPublished(t, a[i])
    case Some(x) => exists i :: 0 <= i < |a| && a[i] == x && IsPublished(t, x) && forall j :: 0 <= j < i ==> !IsPublished(t, a[j])
  }

  /** `r` is the last published comment of a list, if there is one. */
  ghost predicate IsLast(t: Table, a: seq<Id>, r: Option<Id>) {
    match r
    case None => forall i :: 0 <= i < |a| ==> !IsPublished(t, a[i])
    case Some(x) => exists i :: 0 <= i < |a| && a[i] == x && IsPublished(t, x) && forall j :: i < j < |a| ==> !IsPublished(t, a[j])
  }

  lemma FirstCons(t: Table, p: Id, rest: seq<Id>, r: Option<Id>)
    requires IsFirst(t, rest, r)
    ensures IsFirst(t, [p] + rest, if IsPublished(t, p) then Some(p) else r)
  {
    var a := [p] + rest;
    assert a[0] == p && forall i :: 0 <= i < |rest| ==> a[i + 1] == rest[i];
    if !IsPublished(t, p) && r.Some? {
      var i :| 0 <= i < |rest| && rest[i] == r.value && forall j :: 0 <= j < i ==> !IsPublished(t, rest[j]);
      forall j | 0 <= j < i + 1
        ensures !IsPublished(t, a[j])
      {
        assert j > 0 ==> a[j] == rest[j - 1];
      }
      assert a[i + 1] == r.value;
    }
  }

  lemma LastCons(t: Table, p: Id, rest: seq<Id>, r: Option<Id>)
    requires IsLast(t, rest, r)
    ensures IsLast(t, [p] + rest, if r.Some? then r else if IsPublished(t, p) then Some(p) else None)
  {
    var a := [p] + rest;
    assert a[0] == p && forall i :: 1 <= i < |a| ==> a[i] == rest[i - 1];
    if r.Some? {
      var i :| 0 <= i < |rest| && rest[i] == r.value && forall j :: i < j < |rest| ==> !IsPublished(t, rest[j]);
      assert a[i + 1] == r.value;
    }
  }

  lemma {:induction false} CarriedIsNearestAndTopmost(t: Table, c: Id, n: nat)
    requires Rooted(t, c, n)
    ensures var v := Carried(t, c, n);
            v.id == c && IsFirst(t, Ancestors(t, c, n), v.parent) && IsLast(t, Ancestors(t, c, n), v.root)
    decreases n
  {
    if n > 0 {
      var p := t[c].parent.value;
      CarriedIsNearestAndTopmost(t, p, n - 1);
      var rest, up := Ancestors(t, p, n - 1), Carried(t, p, n - 1);
      FirstCons(t, p, rest, up.parent);
      LastCons(t, p, rest, up.root);
    }
  }

  /** The row of a rooted comment: nearest and topmost published proper ancestor. */
  ghost predicate NearestAndTopmost(t: Table, v: Vis) {
    exists k: nat :: Rooted(t, v.id, k) && IsFirst(t, Ancestors(t, v.id, k), v.parent) && IsLast(t, Ancestors(t, v.id, k), v.root)
  }

  /**
   For every table: the query stops, yields each comment of the thread that hangs under a root
   exactly once and nothing else, and gives each row its nearest and its topmost published
   proper ancestor.
   */
  lemma VisibleIsTheThread(t: Table, scan: seq<Id>, site: Id, thread: Id)
    requires Scan(t, scan)
    ensures var rows := Visible(t, scan, site, thread);
            && (forall c, k: nat :: InThread(t, c, site, thread) && Rooted(t, c, k) ==> Count(rows, c) == 1)
            && (forall v :: v in rows ==> InThread(t, v.id, site, thread) && NearestAndTopmost(t, v))
  {
    var rows := Visible(t, scan, site, thread);
    forall c, k: nat | InThread(t, c, site, thread) && Rooted(t, c, k)
      ensures Count(rows, c) == 1
    {
      RoundsHold(t, scan, site, thread, 0, c, k);
    }
    forall v | v in rows
      ensures InThread(t, v.id, site, thread) && NearestAndTopmost(t, v)
    {
      RoundsCarry(t, scan, site, thread, 0, v);
      var k: nat :| Rooted(t, v.id, k) && v == Carried(t, v.id, k);
      CarriedIsNearestAndTopmost(t, v.id, k);
    }
  }

  /** Every row of the query is a comment of the asked site and thread; what it carries is published there too. */
  lemma VisibleRows(t: Table, scan: seq<Id>, site: Id, thread: Id, v: Vis)
    requires Scan(t, scan) && v in Visible(t, scan, site, thread)
    ensures v.id in t && t[v.id].site == site && t[v.id].thread == thread
    ensures forall x :: v.parent == Some(x) || v.root == Some(x) ==>
              x in t && t[x].status == Published && t[x].site == site && t[x].thread == thread
  {
    RoundsCarry(t, scan, site, thread, 0, v);
    var k: nat :| Rooted(t, v.id, k) && v == Carried(t, v.id, k);
    CarriedIsNearestAndTopmost(t, v.id, k);
    forall i | 0 <= i < |Ancestors(t, v.id, k)|
      ensures InThread(t, Ancestors(t, v.id, k)[i], site, thread)
    {
      RootedIsChain(t, v.id, k);
      AncestorsNest(t, v.id, k, i);
    }
  }

  /** In a forest every comment of the site and thread, and no other, has exactly one row. */
  lemma ForestIsVisible(t: Table, scan: seq<Id>, site: Id, thread: Id, c: Id)
    requires Scan(t, scan) && Forest(t)
    ensures Count(Visible(t, scan, site, thread), c) == if c in t && t[c].site == site && t[c].thread == thread then 1 else 0
  {
    var rows := Visible(t, scan, site, thread);
    if c in t && t[c].site == site && t[c].thread == thread {
      var k: nat :| Rooted(t, c, k);
      VisibleIsTheThread(t, scan, site, thread);
      assert InThread(t, c, site, thread);
    } else {
      CountIn(rows, c);
      if Count(rows, c) > 0 {
        var i :| 0 <= i < |rows| && rows[i].id == c;
        VisibleRows(t, scan, site, thread, rows[i]);
      }
    }
  }
}
