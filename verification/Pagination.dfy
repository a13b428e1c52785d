/**
 Keyset pagination: the cursor predicates and orders of the public listings, pages cut from
 them, and walks over many pages while the rows underneath may change.
 */
module Pagination {
  import opened Prelude
  import opened CommentTable

  /** The orders in use: three for comments and roots, and the fixed one for replies. */
  datatype Sort = Hot | Desc | Asc | Oldest

  /** The columns of a listed row that orders and cursors read. */
  datatype Key = Key(id: Id, pinned: bool, likes: int, createdAt: int)

  datatype Cursor = Cursor(pinned: bool, createdAt: int, id: Id, likeCount: int)

  function CursorOf(k: Key): Cursor {
    Cursor(k.pinned, k.createdAt, k.id, k.likes)
  }

  function Bit(b: bool): int {
    if b then 1 else 0
  }

  /** The predicate the query adds for a cursor, column test by column test. */
  predicate AfterCursor(sort: Sort, k: Key, c: Cursor) {
    match sort
    case Hot =>
      || Bit(k.pinned) < Bit(c.pinned)
      || (Bit(k.pinned) == Bit(c.pinned)
          && (|| k.likes < c.likeCount
              || (k.likes == c.likeCount
                  && (k.createdAt < c.createdAt || (k.createdAt == c.createdAt && k.id < c.id)))))
    case Desc =>
      || Bit(k.pinned) < Bit(c.pinned)
      || (Bit(k.pinned) == Bit(c.pinned) && (k.createdAt < c.createdAt || (k.createdAt == c.createdAt && k.id < c.id)))
    case Asc =>
      || Bit(k.pinned) < Bit(c.pinned)
      || (Bit(k.pinned) == Bit(c.pinned) && (k.createdAt > c.createdAt || (k.createdAt == c.createdAt && k.id > c.id)))
    case Oldest =>
      k.createdAt > c.createdAt || (k.createdAt == c.createdAt && k.id > c.id)
  }

  /** The ORDER BY columns; a descending column is negated. */
  function Columns(sort: Sort, k: Key): seq<int> {
    match sort
    case Hot => [-Bit(k.pinned), -k.likes, -k.createdAt, -k.id]
    case Desc => [-Bit(k.pinned), -k.createdAt, -k.id]
    case Asc => [-Bit(k.pinned), k.createdAt, k.id]
    case Oldest => [k.createdAt, k.id]
  }

  predicate LexLess(a: seq<int>, b: seq<int>)
    requires |a| == |b|
  {
    a != [] && (a[0] < b[0] || (a[0] == b[0] && LexLess(a[1..], b[1..])))
  }

  predicate Before(sort: Sort, a: Key, b: Key) {
    LexLess(Columns(sort, a), Columns(sort, b))
  }

  lemma LexLess2(a: seq<int>, b: seq<int>)
    requires |a| == |b| && |a| >= 2
    ensures LexLess(a, b) <==>
            a[0] < b[0] || (a[0] == b[0] && (a[1] < b[1] || (a[1] == b[1] && LexLess(a[2..], b[2..]))))
  {
    assert a[1..][1..] == a[2..] && b[1..][1..] == b[2..];
  }

  /** The cursor taken from a row selects exactly the rows strictly after it in the ORDER BY. */
  lemma CursorIsStrictlyAfter(sort: Sort, r: Key, k: Key)
    ensures AfterCursor(sort, k, CursorOf(r)) <==> Before(sort, r, k)
  {
    var a, b := Columns(sort, r), Columns(sort, k);
    LexLess2(a, b);
    if sort == Hot {
      LexLess2(a[2..], b[2..]);
    } else if sort != Oldest {
      assert LexLess(a[2..], b[2..]) <==> a[2] < b[2];
    }
  }

  /** The orders, column by column: pinned rows first everywhere but among replies. */
  lemma OrderMeans(a: Key, b: Key)
    ensures Before(Oldest, a, b) <==> a.createdAt < b.createdAt || (a.createdAt == b.createdAt && a.id < b.id)
    ensures Before(Asc, a, b)
            <==> || (a.pinned && !b.pinned)
                 || (a.pinned == b.pinned && (a.createdAt < b.createdAt || (a.createdAt == b.createdAt && a.id < b.id)))
    ensures Before(Desc, a, b)
            <==> || (a.pinned && !b.pinned)
                 || (a.pinned == b.pinned && (a.createdAt > b.createdAt || (a.createdAt == b.createdAt && a.id > b.id)))
    ensures Before(Hot, a, b)
            <==> || (a.pinned && !b.pinned)
                 || (a.pinned == b.pinned
                     && (a.likes > b.likes
                         || (a.likes == b.likes
                             && (a.createdAt > b.createdAt || (a.createdAt == b.createdAt && a.id > b.id)))))
  {
    CursorIsStrictlyAfter(Oldest, a, b);
    CursorIsStrictlyAfter(Asc, a, b);
    CursorIsStrictlyAfter(Desc, a, b);
    CursorIsStrictlyAfter(Hot, a, b);
  }

  // ---------------------------------------------------------------- Before is a strict total order

  lemma {:induction false} LexTrans(a: seq<int>, b: seq<int>, c: seq<int>)
    requires |a| == |b| == |c| && LexLess(a, b) && LexLess(b, c)
    ensures LexLess(a, c)
  {
    if a[0] == b[0] == c[0] {
      LexTrans(a[1..], b[1..], c[1..]);
    }
  }

  lemma {:induction false} LexTotal(a: seq<int>, b: seq<int>)
    requires |a| == |b|
    ensures LexLess(a, b) || LexLess(b, a) || a == b
    ensures !(LexLess(a, b) && LexLess(b, a)) && !LexLess(a, a)
  {
    if a != [] {
      LexTotal(a[1..], b[1..]);
      if a[0] == b[0] && a[1..] == b[1..] {
        assert a == [a[0]] + a[1..] && b == [b[0]] + b[1..];
      }
    }
  }

  lemma BeforeTrans(sort: Sort, a: Key, b: Key, c: Key)
    requires Before(sort, a, b) && Before(sort, b, c)
    ensures Before(sort, a, c)
  {
    LexTrans(Columns(sort, a), Columns(sort, b), Columns(sort, c));
  }

  lemma BeforeTotal(sort: Sort, a: Key, b: Key)
    ensures Before(sort, a, b) || Before(sort, b, a) || a.id == b.id
    ensures !(Before(sort, a, b) && Before(sort, b, a)) && !Before(sort, a, a)
  {
    var x, y := Columns(sort, a), Columns(sort, b);
    LexTotal(x, y);
    LexTotal(x, x);
    if x == y {
      assert x[|x| - 1] == y[|y| - 1];
    }
  }

  // ---------------------------------------------------------------- listings and pages

  predicate SameRow(a: Key, b: Key) {
    a.id == b.id ==> a == b
  }

  /** What a query sees: rows with their primary keys. */
  ghost predicate Snapshot(s: set<Key>) {
    forall a, b {:trigger SameRow(a, b)} :: a in s && b in s ==> SameRow(a, b)
  }

  ghost predicate Sorted(sort: Sort, l: seq<Key>) {
    forall i, j :: 0 <= i < j < |l| ==> Before(sort, l[i], l[j])
  }

  ghost predicate Lists(sort: Sort, s: set<Key>, l: seq<Key>) {
    Sorted(sort, l) && forall k :: k in l <==> k in s
  }

  ghost predicate IsLeast(sort: Sort, s: set<Key>, m: Key) {
    m in s && forall k :: k in s && k != m ==> Before(sort, m, k)
  }

  lemma {:induction false} LeastExists(sort: Sort, s: set<Key>) returns (m: Key)
    requires Snapshot(s) && s != {}
    ensures IsLeast(sort, s, m)
  {
    var x :| x in s;
    if s == {x} {
      m := x;
    } else {
      var y := LeastExists(sort, s - {x});
      BeforeTotal(sort, x, y);
      assert SameRow(x, y);
      if Before(sort, x, y) {
        m := x;
        forall k | k in s && k != x && k != y
          ensures Before(sort, x, k)
        {
          BeforeTrans(sort, x, y, k);
        }
      } else {
        m := y;
      }
    }
  }

  lemma LeastIsExists(sort: Sort, s: set<Key>)
    requires Snapshot(s) && s != {}
    ensures exists m :: IsLeast(sort, s, m)
  {
    var _ := LeastExists(sort, s);
  }

  /** The rows of `s` in order. */
  ghost function Listing(sort: Sort, s: set<Key>): (l: seq<Key>)
    requires Snapshot(s)
    ensures |l| == |s|
  {
    if s == {} then []
    else
      LeastIsExists(sort, s);
      var m :| IsLeast(sort, s, m);
      [m] + Listing(sort, s - {m})
  }

  lemma {:induction false} ListingLists(sort: Sort, s: set<Key>)
    requires Snapshot(s)
    ensures Lists(sort, s, Listing(sort, s))
  {
    if s != {} {
      var l := Listing(sort, s);
      var m := l[0];
      assert IsLeast(sort, s, m) && l[1..] == Listing(sort, s - {m});
      ListingLists(sort, s - {m});
      forall k
        ensures k in l <==> k in s
      {
        assert k in l <==> k == m || k in l[1..];
      }
      forall i, j | 0 <= i < j < |l|
        ensures Before(sort, l[i], l[j])
      {
        if i == 0 {
          assert l[j] == l[1..][j - 1];
          assert l[j] in s - {m};
        } else {
          assert l[i] == l[1..][i - 1] && l[j] == l[1..][j - 1];
        }
      }
    }
  }

  /** A set of rows has one listing only. */
  lemma {:induction false} ListingUnique(sort: Sort, s: set<Key>, a: seq<Key>, b: seq<Key>)
    requires Lists(sort, s, a) && Lists(sort, s, b)
    ensures a == b
    decreases |a|
  {
    assert b != [] ==> b[0] in s;
    if a != [] {
      assert a[0] in s && b != [];
      SameHead(sort, s, a, b);
      TailLists(sort, s, a);
      TailLists(sort, s, b);
      ListingUnique(sort, s - {a[0]}, a[1..], b[1..]);
    }
  }

  lemma SameHead(sort: Sort, s: set<Key>, a: seq<Key>, b: seq<Key>)
    requires Lists(sort, s, a) && Lists(sort, s, b) && a != [] && b != []
    ensures a[0] == b[0]
  {
    assert a[0] in b && b[0] in a;
    if a[0] != b[0] {
      var i :| 0 <= i < |b| && b[i] == a[0];
      var j :| 0 <= j < |a| && a[j] == b[0];
      assert Before(sort, a[0], a[j]) && Before(sort, b[0], b[i]);
      BeforeTotal(sort, a[0], b[0]);
    }
  }

  lemma TailLists(sort: Sort, s: set<Key>, a: seq<Key>)
    requires Lists(sort, s, a) && a != []
    ensures Lists(sort, s - {a[0]}, a[1..])
  {
    forall k
      ensures k in a[1..] <==> k in s - {a[0]}
    {
      if k in a[1..] {
        var i :| 0 <= i < |a[1..]| && a[1..][i] == k;
        assert Before(sort, a[0], a[i + 1]);
        BeforeTotal(sort, k, k);
      }
    }
  }

  ghost predicate After(sort: Sort, k: Key, cursor: Option<Cursor>) {
    cursor.Some? ==> AfterCursor(sort, k, cursor.value)
  }

  ghost function Rest(sort: Sort, s: set<Key>, cursor: Option<Cursor>): set<Key> {
    set k | k in s && After(sort, k, cursor)
  }

  /** The LIMIT in force; without a positive one the query uses 50. */
  function EffectiveLimit(limit: int): nat {
    if limit <= 0 then 50 else limit
  }

  /** One query: WHERE cursor ORDER BY columns LIMIT limit. */
  ghost function Page(sort: Sort, s: set<Key>, cursor: Option<Cursor>, limit: int): (p: seq<Key>)
    requires Snapshot(s)
    ensures |p| <= EffectiveLimit(limit)
  {
    var l := Listing(sort, Rest(sort, s, cursor));
    if |l| <= EffectiveLimit(limit) then l else l[..EffectiveLimit(limit)]
  }

  /** How many rows a page has: all that are left, but no more than the limit asks for, or 50. */
  lemma PageSize(sort: Sort, s: set<Key>, cursor: Option<Cursor>, limit: int)
    requires Snapshot(s)
    ensures var n := if limit > 0 then limit else 50;
            |Page(sort, s, cursor, limit)| == if |Rest(sort, s, cursor)| < n then |Rest(sort, s, cursor)| else n
  {
  }

  /** The cursor taken from a row, if there is one. */
  function CursorAt(at: Option<Key>): Option<Cursor> {
    if at.None? then None else Some(CursorOf(at.value))
  }

  lemma RestMeans(sort: Sort, s: set<Key>, at: Option<Key>, k: Key)
    ensures k in Rest(sort, s, CursorAt(at)) <==> k in s && (at.Some? ==> Before(sort, at.value, k))
  {
    if at.Some? {
      CursorIsStrictlyAfter(sort, at.value, k);
    }
  }

  /** A page is in order, and holds rows of the snapshot that come after the cursor's row. */
  lemma PageOrder(sort: Sort, s: set<Key>, at: Option<Key>, limit: int, i: nat)
    requires Snapshot(s) && i < |Page(sort, s, CursorAt(at), limit)|
    ensures var p := Page(sort, s, CursorAt(at), limit);
            && p[i] in s && (at.Some? ==> Before(sort, at.value, p[i]))
            && forall j :: i < j < |p| ==> Before(sort, p[i], p[j])
  {
    var l := PageOfListing(sort, s, CursorAt(at), limit);
    assert Page(sort, s, CursorAt(at), limit)[i] == l[i] && l[i] in l;
    RestMeans(sort, s, at, Page(sort, s, CursorAt(at), limit)[i]);
  }

  /** It holds the first of them: all that do not come after its last row. */
  lemma PageIsFirst(sort: Sort, s: set<Key>, at: Option<Key>, limit: int, k: Key)
    requires Snapshot(s) && k in s && Page(sort, s, CursorAt(at), limit) != []
    ensures var p := Page(sort, s, CursorAt(at), limit);
            k in p <==> (at.Some? ==> Before(sort, at.value, k)) && !Before(sort, p[|p| - 1], k)
  {
    var r := Rest(sort, s, CursorAt(at));
    RestMeans(sort, s, at, k);
    var l := PageOfListing(sort, s, CursorAt(at), limit);
    PrefixHolds(sort, r, l, |Page(sort, s, CursorAt(at), limit)|, k);
  }

  lemma PageOfListing(sort: Sort, s: set<Key>, cursor: Option<Cursor>, limit: int) returns (l: seq<Key>)
    requires Snapshot(s)
    ensures Lists(sort, Rest(sort, s, cursor), l)
    ensures var p := Page(sort, s, cursor, limit); |p| <= |l| && p == l[..|p|]
  {
    l := Listing(sort, Rest(sort, s, cursor));
    ListingLists(sort, Rest(sort, s, cursor));
  }

  lemma PrefixHolds(sort: Sort, r: set<Key>, l: seq<Key>, n: nat, k: Key)
    requires Lists(sort, r, l) && 0 < n <= |l|
    ensures k in l[..n] <==> k in r && !Before(sort, l[n - 1], k)
  {
    if k in l {
      CutSplits(sort, l, n, k);
    }
    assert k in l[..n] ==> k in l;
  }

  lemma CutSplits(sort: Sort, l: seq<Key>, n: nat, x: Key)
    requires Sorted(sort, l) && x in l && 0 < n <= |l|
    ensures x in l[..n] <==> !Before(sort, l[n - 1], x)
  {
    var i :| 0 <= i < |l| && l[i] == x;
    BeforeTotal(sort, l[n - 1], x);
    if i < n {
      assert l[..n][i] == x;
      assert i < n - 1 ==> Before(sort, x, l[n - 1]);
    } else {
      assert Before(sort, l[n - 1], l[i]);
    }
  }

  lemma {:induction false} SortedOnce(sort: Sort, p: seq<Key>, x: Key)
    requires Sorted(sort, p)
    ensures multiset(p)[x] == if x in p then 1 else 0
  {
    if p != [] {
      var n := |p| - 1;
      SortedOnce(sort, p[..n], x);
      assert p == p[..n] + [p[n]];
      if p[n] == x && x in p[..n] {
        var i :| 0 <= i < n && p[i] == x;
        BeforeTotal(sort, x, x);
      }
    }
  }

  // ---------------------------------------------------------------- walks

  /**
   Reading page after page until a short one. Each read sees its own snapshot, and takes its
   cursor from the last row of the page before.
   */
  ghost function Walk(sort: Sort, snaps: seq<set<Key>>, cursor: Option<Cursor>, limit: int): seq<seq<Key>>
    requires forall i :: 0 <= i < |snaps| ==> Snapshot(snaps[i])
  {
    if snaps == [] then []
    else
      var p := Page(sort, snaps[0], cursor, limit);
      if |p| < EffectiveLimit(limit) then [p]
      else [p] + Walk(sort, snaps[1..], Some(CursorOf(p[|p| - 1])), limit)
  }

  ghost predicate Finished(pages: seq<seq<Key>>, limit: int) {
    pages != [] && |pages[|pages| - 1]| < EffectiveLimit(limit)
  }

  ghost function Occurrences(pages: seq<seq<Key>>, x: Key): nat {
    if pages == [] then 0 else multiset(pages[0])[x] + Occurrences(pages[1..], x)
  }

  ghost function Flatten(pages: seq<seq<Key>>): seq<Key> {
    if pages == [] then [] else pages[0] + Flatten(pages[1..])
  }

  function RowAt(c: Cursor): Key {
    Key(c.id, c.pinned, c.likeCount, c.createdAt)
  }

  /** What lies after a row that is after the cursor lies after the cursor. */
  lemma AfterAfter(sort: Sort, cursor: Option<Cursor>, r: Key, x: Key)
    requires After(sort, r, cursor) && Before(sort, r, x)
    ensures After(sort, x, cursor)
  {
    if cursor.Some? {
      var c := RowAt(cursor.value);
      CursorIsStrictlyAfter(sort, c, r);
      CursorIsStrictlyAfter(sort, c, x);
      BeforeTrans(sort, c, r, x);
    }
  }

  /** A row after the cursor is on the page, or after the last row of a full page, never both. */
  lemma PageStep(sort: Sort, s: set<Key>, cursor: Option<Cursor>, limit: int, x: Key)
    requires Snapshot(s) && x in s
    ensures var p := Page(sort, s, cursor, limit);
            multiset(p)[x] + (if |p| == EffectiveLimit(limit) && After(sort, x, Some(CursorOf(p[|p| - 1]))) then 1 else 0)
            == if After(sort, x, cursor) then 1 else 0
  {
    var r, p := Rest(sort, s, cursor), Page(sort, s, cursor, limit);
    var l := Listing(sort, r);
    ListingLists(sort, r);
    SortedOnce(sort, p, x);
    assert x in p ==> x in l;
    if |p| == EffectiveLimit(limit) {
      var last := p[|p| - 1];
      CursorIsStrictlyAfter(sort, last, x);
      assert p == l[..|p|] && last in l;
      if x in r {
        CutSplits(sort, l, |p|, x);
      } else if Before(sort, last, x) {
        AfterAfter(sort, cursor, last, x);
      }
    }
  }

  /**
   A row whose sort columns and membership stay put is returned exactly once by a walk that
   ends on a short page, whatever happens to the other rows between the reads.
   */
  lemma {:induction false} StableRowOnce(sort: Sort, snaps: seq<set<Key>>, cursor: Option<Cursor>, limit: int, x: Key)
    requires forall i :: 0 <= i < |snaps| ==> Snapshot(snaps[i]) && x in snaps[i]
    requires Finished(Walk(sort, snaps, cursor, limit), limit)
    ensures Occurrences(Walk(sort, snaps, cursor, limit), x) == if After(sort, x, cursor) then 1 else 0
    decreases |snaps|
  {
    FirstPageCounts(sort, snaps, cursor, limit, x);
    if LastRow(sort, snaps, cursor, limit).Some? {
      StableRowOnce(sort, snaps[1..], LastRow(sort, snaps, cursor, limit), limit, x);
    }
  }

  /** The cursor that a full first page leaves. */
  ghost function LastRow(sort: Sort, snaps: seq<set<Key>>, cursor: Option<Cursor>, limit: int): Option<Cursor>
    requires snaps != [] && Snapshot(snaps[0])
  {
    var p := Page(sort, snaps[0], cursor, limit);
    if |p| < EffectiveLimit(limit) then None else Some(CursorOf(p[|p| - 1]))
  }

  lemma FirstPageCounts(sort: Sort, snaps: seq<set<Key>>, cursor: Option<Cursor>, limit: int, x: Key)
    requires snaps != [] && x in snaps[0] && forall i :: 0 <= i < |snaps| ==> Snapshot(snaps[i])
    ensures var pages, next := Walk(sort, snaps, cursor, limit), LastRow(sort, snaps, cursor, limit);
            var due := if After(sort, x, cursor) then 1 else 0;
            if next.None? then Occurrences(pages, x) == due
            else
              var rest := Walk(sort, snaps[1..], next, limit);
              Occurrences(pages, x) + (if After(sort, x, next) then 1 else 0) == due + Occurrences(rest, x)
              && (Finished(pages, limit) ==> Finished(rest, limit))
  {
    FirstPage(sort, snaps, cursor, limit, x);
    PageStep(sort, snaps[0], cursor, limit, x);
  }

  /** A walk is its first page and, after a full page, the walk from the last row on. */
  lemma FirstPage(sort: Sort, snaps: seq<set<Key>>, cursor: Option<Cursor>, limit: int, x: Key)
    requires snaps != [] && forall i :: 0 <= i < |snaps| ==> Snapshot(snaps[i])
    ensures var pages, p := Walk(sort, snaps, cursor, limit), Page(sort, snaps[0], cursor, limit);
            if |p| < EffectiveLimit(limit) then Occurrences(pages, x) == multiset(p)[x]
            else
              var rest := Walk(sort, snaps[1..], Some(CursorOf(p[|p| - 1])), limit);
              Occurrences(pages, x) == multiset(p)[x] + Occurrences(rest, x)
              && (Finished(pages, limit) ==> Finished(rest, limit))
  {
    var p := Page(sort, snaps[0], cursor, limit);
    if |p| < EffectiveLimit(limit) {
      OneMorePage(p, [], limit, x);
    } else {
      OneMorePage(p, Walk(sort, snaps[1..], Some(CursorOf(p[|p| - 1])), limit), limit, x);
    }
  }

  lemma OneMorePage(p: seq<Key>, rest: seq<seq<Key>>, limit: int, x: Key)
    ensures Occurrences([p] + rest, x) == multiset(p)[x] + Occurrences(rest, x)
    ensures Finished([p] + rest, limit) && |p| == EffectiveLimit(limit) ==> Finished(rest, limit)
    ensures Occurrences([], x) == 0 && [p] + [] == [p]
  {
    assert ([p] + rest)[1..] == rest;
  }

  /** No page of such a walk shows the row's id under other sort columns either. */
  lemma {:induction false} StableRowUnchanged(sort: Sort, snaps: seq<set<Key>>, cursor: Option<Cursor>, limit: int, x: Key, i: nat, j: nat)
    requires forall m :: 0 <= m < |snaps| ==> Snapshot(snaps[m]) && x in snaps[m]
    requires var pages := Walk(sort, snaps, cursor, limit); i < |pages| && j < |pages[i]| && pages[i][j].id == x.id
    ensures Walk(sort, snaps, cursor, limit)[i][j] == x
    decreases |snaps|
  {
    WalkPages(sort, snaps, cursor, limit);
    if i == 0 {
      PageHoldsRows(sort, snaps[0], cursor, limit, j);
      assert SameRow(Page(sort, snaps[0], cursor, limit)[j], x);
    } else {
      StableRowUnchanged(sort, snaps[1..], LastRow(sort, snaps, cursor, limit), limit, x, i - 1, j);
    }
  }

  lemma WalkPages(sort: Sort, snaps: seq<set<Key>>, cursor: Option<Cursor>, limit: int)
    requires snaps != [] && forall i :: 0 <= i < |snaps| ==> Snapshot(snaps[i])
    ensures var pages, next := Walk(sort, snaps, cursor, limit), LastRow(sort, snaps, cursor, limit);
            && pages != [] && pages[0] == Page(sort, snaps[0], cursor, limit)
            && pages[1..] == if next.None? then [] else Walk(sort, snaps[1..], next, limit)
  {
  }

  lemma PageHoldsRows(sort: Sort, s: set<Key>, cursor: Option<Cursor>, limit: int, j: nat)
    requires Snapshot(s) && j < |Page(sort, s, cursor, limit)|
    ensures Page(sort, s, cursor, limit)[j] in s
  {
    ListingLists(sort, Rest(sort, s, cursor));
    assert Page(sort, s, cursor, limit)[j] in Rest(sort, s, cursor);
  }

  /** On one snapshot the pages, joined, are the whole listing after the cursor, and the walk ends. */
  lemma {:induction false} FixedWalkIsListing(sort: Sort, s: set<Key>, snaps: seq<set<Key>>, cursor: Option<Cursor>, limit: int)
    requires Snapshot(s) && forall i :: 0 <= i < |snaps| ==> snaps[i] == s
    requires |snaps| > |Rest(sort, s, cursor)|
    ensures Finished(Walk(sort, snaps, cursor, limit), limit)
    ensures Flatten(Walk(sort, snaps, cursor, limit)) == Listing(sort, Rest(sort, s, cursor))
    decreases |snaps|
  {
    var p, next := FixedStep(sort, s, snaps, cursor, limit);
    if next.None? {
      LastPage(p, limit);
    } else {
      FixedWalkIsListing(sort, s, snaps[1..], next, limit);
      JoinPages(p, Walk(sort, snaps[1..], next, limit), limit);
    }
  }

  /** The first page of a walk over one snapshot, and the cursor it leaves. */
  lemma FixedStep(sort: Sort, s: set<Key>, snaps: seq<set<Key>>, cursor: Option<Cursor>, limit: int)
    returns (p: seq<Key>, next: Option<Cursor>)
    requires snaps != [] && Snapshot(s) && forall i :: 0 <= i < |snaps| ==> snaps[i] == s
    ensures next.None? ==>
              && Walk(sort, snaps, cursor, limit) == [p] && p == Listing(sort, Rest(sort, s, cursor))
              && |p| < EffectiveLimit(limit)
    ensures next.Some? ==>
              && Walk(sort, snaps, cursor, limit) == [p] + Walk(sort, snaps[1..], next, limit)
              && Listing(sort, Rest(sort, s, cursor)) == p + Listing(sort, Rest(sort, s, next))
              && |Rest(sort, s, next)| < |Rest(sort, s, cursor)|
  {
    assert snaps[0] == s;
    WalkPages(sort, snaps, cursor, limit);
    p, next := Page(sort, s, cursor, limit), LastRow(sort, snaps, cursor, limit);
    assert Walk(sort, snaps, cursor, limit) == [p] + Walk(sort, snaps, cursor, limit)[1..];
    if next.Some? {
      PageAndRest(sort, s, cursor, limit);
    }
  }

  lemma LastPage(p: seq<Key>, limit: int)
    requires |p| < EffectiveLimit(limit)
    ensures Finished([p], limit) && Flatten([p]) == p
  {
    assert Flatten([p]) == p + Flatten([]);
  }

  /** After a full page the listing goes on with the rows after its last row, and there are fewer of them. */
  lemma PageAndRest(sort: Sort, s: set<Key>, cursor: Option<Cursor>, limit: int)
    requires Snapshot(s) && |Page(sort, s, cursor, limit)| == EffectiveLimit(limit)
    ensures var p := Page(sort, s, cursor, limit);
            var rest := Rest(sort, s, Some(CursorOf(p[|p| - 1])));
            Listing(sort, Rest(sort, s, cursor)) == p + Listing(sort, rest) && |rest| < |Rest(sort, s, cursor)|
  {
    var p, l := Page(sort, s, cursor, limit), Listing(sort, Rest(sort, s, cursor));
    assert p == l[..|p|] && l == p + l[|p|..];
    RestOfListing(sort, s, cursor, |p|);
  }

  lemma JoinPages(p: seq<Key>, rest: seq<seq<Key>>, limit: int)
    requires Finished(rest, limit)
    ensures Finished([p] + rest, limit) && Flatten([p] + rest) == p + Flatten(rest)
  {
    assert ([p] + rest)[1..] == rest;
  }

  lemma TailIsAfter(sort: Sort, l: seq<Key>, n: nat, k: Key)
    requires Sorted(sort, l) && 0 < n <= |l|
    ensures k in l[n..] <==> k in l && Before(sort, l[n - 1], k)
  {
    if k in l {
      CutSplits(sort, l, n, k);
      assert l == l[..n] + l[n..];
    }
    if k in l[n..] {
      var i :| n <= i < |l| && l[i] == k;
      assert Before(sort, l[n - 1], l[i]);
    }
  }

  /** What lies after row `n - 1` of a listing is the listing's tail. */
  lemma RestOfListing(sort: Sort, s: set<Key>, cursor: Option<Cursor>, n: nat)
    requires Snapshot(s) && 0 < n <= |Rest(sort, s, cursor)|
    ensures var l := Listing(sort, Rest(sort, s, cursor));
            var rest := Rest(sort, s, Some(CursorOf(l[n - 1])));
            Listing(sort, rest) == l[n..] && |rest| < |Rest(sort, s, cursor)|
  {
    var r := Rest(sort, s, cursor);
    var l := Listing(sort, r);
    var last := l[n - 1];
    var rest := Rest(sort, s, Some(CursorOf(last)));
    ListingLists(sort, r);
    ListingLists(sort, rest);
    forall k
      ensures k in l[n..] <==> k in rest
    {
      CursorIsStrictlyAfter(sort, last, k);
      TailIsAfter(sort, l, n, k);
      assert last in r;
      if k in s && Before(sort, last, k) {
        AfterAfter(sort, cursor, last, k);
      }
    }
    assert |Listing(sort, rest)| == |rest|;
    ListingUnique(sort, rest, l[n..], Listing(sort, rest));
  }
}
