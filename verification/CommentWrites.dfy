/** Updates of the comments table: status changes, detaching replies, and hard deletes with their cascades. */
module CommentWrites {
  import opened Prelude
  import opened CommentTable
  import opened VisibleTree

  datatype RepoError = NotFound

  /** A comment named together with its site. */
  datatype Target = Target(site: Id, id: Id)

  // ---------------------------------------------------------------- values

  function Cleared(ref: Option<Id>, hit: bool): Option<Id> {
    if hit then None else ref
  }

  predicate HitsTarget(site: Id, ref: Option<Id>, targets: set<Target>) {
    ref.Some? && Target(site, ref.value) in targets
  }

  /** Two updates: references to the targets become NULL, column by column. */
  function DetachParents(t: Table, targets: set<Target>): Table {
    map c | c in t :: t[c].(parent := Cleared(t[c].parent, HitsTarget(t[c].site, t[c].parent, targets)))
  }

  function DetachRoots(t: Table, targets: set<Target>): Table {
    map c | c in t :: t[c].(root := Cleared(t[c].root, HitsTarget(t[c].site, t[c].root, targets)))
  }

  function Detached(t: Table, targets: set<Target>): Table {
    DetachRoots(DetachParents(t, targets), targets)
  }

  function CommentsOf(t: Table, users: set<Id>): set<Id> {
    set c | c in t && t[c].user in users
  }

  predicate HitsUser(t: Table, c: Id, ref: Option<Id>, users: set<Id>)
    requires c in t
  {
    t[c].user !in users && ref.Some? && ref.value in CommentsOf(t, users)
  }

  /** The same for all comments of some users; references between those users stay. */
  function UserDetached(t: Table, users: set<Id>): Table {
    var t1 := map c | c in t :: t[c].(parent := Cleared(t[c].parent, HitsUser(t, c, t[c].parent, users)));
    map c | c in t1 :: t1[c].(root := Cleared(t1[c].root, HitsUser(t1, c, t1[c].root, users)))
  }

  /** A row with a foreign key, parent or root, on `p`. */
  predicate RefersTo(t: Table, c: Id, p: Id) {
    c in t && p in t && t[c].site == t[p].site && (t[c].parent == Some(p) || t[c].root == Some(p))
  }

  function Orphans(t: Table, dead: set<Id>): set<Id> {
    set c | c in t && c !in dead && exists p :: p in dead && RefersTo(t, c, p)
  }

  /** ON DELETE CASCADE: what the engine deletes along with `dead`, round after round. */
  function Cascade(t: Table, dead: set<Id>): set<Id>
    decreases t.Keys - dead
  {
    var more := Orphans(t, dead);
    if more == {} then dead
    else
      assert exists c :: c in more;
      Cascade(t, dead + more)
  }

  function AfterDelete(t: Table, dead: set<Id>): Table {
    t - Cascade(t, dead)
  }

  function Cut(row: Row, gone: set<Id>): Row {
    row.(parent := Cleared(row.parent, row.parent.Some? && row.parent.value in gone),
         root := Cleared(row.root, row.root.Some? && row.root.value in gone))
  }

  /** What a delete is meant to leave: the survivors, with references to the deleted cleared. */
  function Removed(t: Table, gone: set<Id>): Table {
    map c | c in t && c !in gone :: Cut(t[c], gone)
  }

  // ---------------------------------------------------------------- deletes

  /** A delete takes exactly its targets when, and only when, no other row refers to them. */
  lemma CascadeIsExact(t: Table, dead: set<Id>)
    ensures Cascade(t, dead) == dead <==> forall c, p :: c !in dead && p in dead ==> !RefersTo(t, c, p)
  {
    CascadeGrows(t, dead);
    if Orphans(t, dead) == {} {
      forall c, p | c !in dead && p in dead
        ensures !RefersTo(t, c, p)
      {
        assert c !in Orphans(t, dead);
      }
    } else {
      var c :| c in Orphans(t, dead);
      assert exists p :: p in dead && RefersTo(t, c, p);
      CascadeGrows(t, dead + Orphans(t, dead));
    }
  }

  /** A foreign key of `c`, parent or root, names `p` in its own site. */
  lemma RefersToMeans(t: Table, c: Id, p: Id)
    ensures RefersTo(t, c, p)
            <==> c in t && p in t && t[c].site == t[p].site && (t[c].parent == Some(p) || t[c].root == Some(p))
  {
  }

  /** A cascade is the least set around `dead` that holds, with a comment, all that refer to it. */
  lemma {:induction false} CascadeIsLeast(t: Table, dead: set<Id>, s: set<Id>)
    requires dead <= s
    requires forall c, p :: (c in t && p in s && p in t && t[c].site == t[p].site
                             && (t[c].parent == Some(p) || t[c].root == Some(p))) ==> c in s
    ensures dead <= Cascade(t, dead) <= s
    ensures forall c, p :: p in Cascade(t, dead) && RefersTo(t, c, p) ==> c in Cascade(t, dead)
    decreases t.Keys - dead
  {
    var more := Orphans(t, dead);
    if more == {} {
      forall c, p | p in dead && RefersTo(t, c, p)
        ensures c in dead
      {
        assert c !in Orphans(t, dead);
      }
    } else {
      var c :| c in more;
      CascadeIsLeast(t, dead + more, s);
    }
  }

  /** So no delete, detached or not, leaves a dangling reference. */
  lemma DeleteKeepsReferences(t: Table, dead: set<Id>)
    requires References(t)
    ensures References(AfterDelete(t, dead))
  {
    CascadeIsLeast(t, dead, t.Keys + dead);
    var t', gone := AfterDelete(t, dead), Cascade(t, dead);
    assert forall c | c in t' :: c in t && c !in gone && t'[c] == t[c];
    forall c | c in t'
      ensures t'[c].parent.Some? ==> t'[c].parent.value in t' && t'[t'[c].parent.value].site == t'[c].site
      ensures t'[c].root.Some? ==> t'[c].root.value in t' && t'[t'[c].root.value].site == t'[c].site
    {
      assert t[c].parent.Some? ==> RefersTo(t, c, t[c].parent.value);
      assert t[c].root.Some? ==> RefersTo(t, c, t[c].root.value);
    }
  }

  lemma {:induction false} CascadeGrows(t: Table, dead: set<Id>)
    ensures dead <= Cascade(t, dead)
    decreases t.Keys - dead
  {
    var more := Orphans(t, dead);
    if more != {} {
      var c :| c in more;
      CascadeGrows(t, dead + more);
    }
  }

  ghost predicate Existing(t: Table, targets: set<Target>) {
    forall x :: x in targets ==> x.id in t && t[x.id].site == x.site
  }

  function Ids(targets: set<Target>): set<Id> {
    set x | x in targets :: x.id
  }

  /** Detach, then delete: nothing is cascaded, and the result is what is meant. */
  lemma DetachThenDelete(t: Table, targets: set<Target>)
    requires References(t) && Existing(t, targets)
    ensures Cascade(Detached(t, targets), Ids(targets)) == Ids(targets)
    ensures AfterDelete(Detached(t, targets), Ids(targets)) == Removed(t, Ids(targets))
  {
    var t1, gone := Detached(t, targets), Ids(targets);
    forall c | c in t
      ensures t1[c] == Cut(t[c], gone)
    {
      DetachedIsCut(t, targets, c);
    }
    CutThenDelete(t, t1, gone);
  }

  /** With every reference to `gone` cleared, deleting `gone` takes nothing else along. */
  lemma CutThenDelete(t: Table, t1: Table, gone: set<Id>)
    requires t1.Keys == t.Keys && forall c :: c in t ==> t1[c] == Cut(t[c], gone)
    ensures Cascade(t1, gone) == gone && AfterDelete(t1, gone) == Removed(t, gone)
  {
    CascadeIsExact(t1, gone);
    assert forall c :: c in t1 <==> c in t;
    forall c | c in t && c !in gone
      ensures (t1 - gone)[c] == Removed(t, gone)[c]
    {
      assert t1[c] == Cut(t[c], gone);
    }
    assert t1 - gone == Removed(t, gone);
  }

  lemma DetachedIsCut(t: Table, targets: set<Target>, c: Id)
    requires References(t) && Existing(t, targets) && c in t
    ensures Detached(t, targets)[c] == Cut(t[c], Ids(targets))
  {
    HitsAreIds(t, targets, c, t[c].parent);
    HitsAreIds(t, targets, c, t[c].root);
  }

  lemma HitsAreIds(t: Table, targets: set<Target>, c: Id, ref: Option<Id>)
    requires References(t) && Existing(t, targets) && c in t && (ref == t[c].parent || ref == t[c].root)
    ensures HitsTarget(t[c].site, ref, targets) <==> ref.Some? && ref.value in Ids(targets)
  {
    if ref.Some? && ref.value in Ids(targets) {
      var x :| x in targets && x.id == ref.value;
      assert x == Target(t[c].site, ref.value);
    }
  }

  /** For users: only other people's references are cleared, and still nothing of theirs is cascaded. */
  lemma UserDetachThenDelete(t: Table, users: set<Id>)
    ensures var gone := CommentsOf(t, users);
            && Cascade(UserDetached(t, users), gone) == gone
            && AfterDelete(UserDetached(t, users), gone) == Removed(t, gone)
  {
    var t1, gone := UserDetached(t, users), CommentsOf(t, users);
    CascadeIsExact(t1, gone);
  }

  /** What detaching does to a row, and what a delete leaves of it. */
  lemma RowsAfterDetaching(t: Table, targets: set<Target>, c: Id)
    requires c in t
    ensures var parent, root := t[c].parent, t[c].root;
            Detached(t, targets).Keys == t.Keys
            && Detached(t, targets)[c] == t[c].(
                 parent := if parent.Some? && Target(t[c].site, parent.value) in targets then None else parent,
                 root := if root.Some? && Target(t[c].site, root.value) in targets then None else root)
  {
  }

  lemma RowsAfterDelete(t: Table, gone: set<Id>, c: Id)
    ensures c in Removed(t, gone) <==> c in t && c !in gone
    ensures c in t && c !in gone ==>
              var parent, root := t[c].parent, t[c].root;
              Removed(t, gone)[c] == t[c].(
                parent := if parent.Some? && parent.value in gone then None else parent,
                root := if root.Some? && root.value in gone then None else root)
  {
  }

  /** For users: their own rows stay as they are until they go, other rows lose references to theirs. */
  lemma RowsAfterUserDetaching(t: Table, users: set<Id>, c: Id)
    requires c in t
    ensures var parent, root := t[c].parent, t[c].root;
            UserDetached(t, users).Keys == t.Keys
            && UserDetached(t, users)[c] == if t[c].user in users then t[c] else t[c].(
                 parent := if parent.Some? && parent.value in t && t[parent.value].user in users then None else parent,
                 root := if root.Some? && root.value in t && t[root.value].user in users then None else root)
    ensures c in CommentsOf(t, users) <==> t[c].user in users
  {
    var t1 := map x | x in t :: t[x].(parent := Cleared(t[x].parent, HitsUser(t, x, t[x].parent, users)));
    assert forall x | x in t1 :: x in t && t1[x].user == t[x].user && t1[x].root == t[x].root;
    assert CommentsOf(t1, users) == CommentsOf(t, users);
  }

  /** Deleting in two steps is deleting at once. */
  lemma RemovedTwice(t: Table, a: set<Id>, b: set<Id>)
    ensures Removed(Removed(t, a), b) == Removed(t, a + b)
    ensures Removed(t, {}) == t
  {
    forall c | c in t
      ensures Cut(Cut(t[c], a), b) == Cut(t[c], a + b) && Cut(t[c], {}) == t[c]
    {
    }
  }

  /** No reference of a survivor dangles, so the next delete can rely on the foreign keys again. */
  lemma RemovedKeepsReferences(t: Table, gone: set<Id>)
    requires References(t)
    ensures References(Removed(t, gone))
  {
    var t' := Removed(t, gone);
    assert forall c | c in t' :: t'[c].site == t[c].site;
    forall c | c in t'
      ensures t'[c].parent.Some? ==> t'[c].parent.value in t' && t'[t'[c].parent.value].site == t'[c].site
      ensures t'[c].root.Some? ==> t'[c].root.value in t' && t'[t'[c].root.value].site == t'[c].site
    {
      assert t'[c] == Cut(t[c], gone);
    }
  }

  /** What the program runs when targets are deleted one at a time: detach, then delete, each in turn. */
  function OneByOne(t: Table, order: seq<Target>): Table {
    if order == [] then t
    else OneByOne(AfterDelete(Detached(t, {order[0]}), {order[0].id}), order[1..])
  }

  lemma {:induction false} OneByOneRemoves(t: Table, order: seq<Target>)
    requires References(t) && NoRepeats(order) && Existing(t, set x | x in order)
    ensures OneByOne(t, order) == Removed(t, Ids(set x | x in order))
  {
    if order == [] {
      RemovedTwice(t, {}, {});
      assert (set x | x in order) == {} && Ids({}) == {};
    } else {
      var first, rest := order[0], order[1..];
      HeadAndRest(order);
      assert Ids({first}) == {first.id};
      assert Existing(t, {first});
      DetachThenDelete(t, {first});
      RemovedKeepsReferences(t, {first.id});
      RestStillExists(t, order);
      OneByOneRemoves(Removed(t, {first.id}), rest);
      RemovedTwice(t, {first.id}, Ids(set x | x in rest));
    }
  }

  lemma HeadAndRest(order: seq<Target>)
    requires order != []
    ensures (set x | x in order) == {order[0]} + set x | x in order[1..]
    ensures Ids(set x | x in order) == {order[0].id} + Ids(set x | x in order[1..])
  {
    assert order == [order[0]] + order[1..];
  }

  lemma RestStillExists(t: Table, order: seq<Target>)
    requires order != [] && NoRepeats(order) && Existing(t, set x | x in order)
    ensures Existing(Removed(t, {order[0].id}), set x | x in order[1..])
  {
    forall x | x in order[1..]
      ensures x.id in t && x.id != order[0].id && t[x.id].site == x.site
    {
      var i :| 0 <= i < |order| - 1 && order[1..][i] == x;
      assert order[i + 1] == x && x in order && order[0] in order && x != order[0];
      assert x in (set y | y in order) && order[0] in (set y | y in order);
    }
  }

  /** Detaching and deleting the targets one at a time, in any order, gives what doing it at once gives. */
  lemma OrderDoesNotMatter(t: Table, order: seq<Target>)
    requires References(t) && NoRepeats(order) && Existing(t, set x | x in order)
    ensures var targets := set x | x in order;
            OneByOne(t, order) == AfterDelete(Detached(t, targets), Ids(targets))
  {
    OneByOneRemoves(t, order);
    DetachThenDelete(t, set x | x in order);
  }

  /** The same for users: their comments go by the foreign key when the user goes. */
  function UsersOneByOne(t: Table, order: seq<Id>): Table {
    if order == [] then t
    else
      var u := {order[0]};
      UsersOneByOne(AfterDelete(UserDetached(t, u), CommentsOf(t, u)), order[1..])
  }

  lemma {:induction false} UsersOneByOneRemoves(t: Table, order: seq<Id>)
    ensures UsersOneByOne(t, order) == Removed(t, CommentsOf(t, set u | u in order))
  {
    if order == [] {
      RemovedTwice(t, {}, {});
      assert CommentsOf(t, set u | u in order) == {};
    } else {
      var first, rest := {order[0]}, set u | u in order[1..];
      UserDetachThenDelete(t, first);
      UsersOneByOneRemoves(Removed(t, CommentsOf(t, first)), order[1..]);
      RemovedTwice(t, CommentsOf(t, first), CommentsOf(Removed(t, CommentsOf(t, first)), rest));
      assert order == [order[0]] + order[1..];
      assert (set u | u in order) == first + rest;
      OthersComments(t, first, rest);
    }
  }

  lemma OthersComments(t: Table, a: set<Id>, b: set<Id>)
    ensures CommentsOf(t, a) + CommentsOf(Removed(t, CommentsOf(t, a)), b) == CommentsOf(t, a + b)
  {
    var gone := CommentsOf(t, a);
    forall c
      ensures c in gone || c in CommentsOf(Removed(t, gone), b) <==> c in CommentsOf(t, a + b)
    {
      if c in t && c !in gone {
        assert Removed(t, gone)[c] == Cut(t[c], gone);
      }
    }
  }

  /** Users deleted one at a time, in any order, leave the table that deleting them together leaves. */
  lemma UserOrderDoesNotMatter(t: Table, order: seq<Id>)
    ensures var users := set u | u in order;
            UsersOneByOne(t, order) == AfterDelete(UserDetached(t, users), CommentsOf(t, users))
  {
    UsersOneByOneRemoves(t, order);
    UserDetachThenDelete(t, set u | u in order);
  }

  /** A survivor keeps its chain up to its old root, or up to the child at which the chain was cut. */
  lemma {:induction false} SurvivorIsRooted(t: Table, gone: set<Id>, c: Id, n: nat) returns (m: nat)
    requires Rooted(t, c, n) && c !in gone
    ensures m <= n && Rooted(Removed(t, gone), c, m)
    ensures Ancestors(Removed(t, gone), c, m) == Ancestors(t, c, n)[..m]
    ensures m < n ==> Ancestors(t, c, n)[m] in gone
    ensures forall i :: 0 <= i < m ==> Ancestors(t, c, n)[i] !in gone
    decreases n
  {
    if n == 0 || t[c].parent.value in gone {
      m := 0;
    } else {
      m := SurvivorIsRooted(t, gone, t[c].parent.value, n - 1);
      m := m + 1;
    }
  }

  /**
   What readers see of a survivor afterwards: its visible parent and root are the nearest and the
   topmost published comment on the part of its chain that is left.
   */
  lemma VisibleAfterDelete(t: Table, gone: set<Id>, c: Id, n: nat) returns (m: nat)
    requires Rooted(t, c, n) && c !in gone
    ensures m <= n && Rooted(Removed(t, gone), c, m) && (m < n ==> Ancestors(t, c, n)[m] in gone)
    ensures forall i :: 0 <= i < m ==> Ancestors(t, c, n)[i] !in gone
    ensures var v, left := Carried(Removed(t, gone), c, m), Ancestors(t, c, n)[..m];
            IsFirst(t, left, v.parent) && IsLast(t, left, v.root)
  {
    m := SurvivorIsRooted(t, gone, c, n);
    CarriedIsNearestAndTopmost(Removed(t, gone), c, m);
    assert forall x :: x !in gone ==> (IsPublished(Removed(t, gone), x) <==> IsPublished(t, x));
  }

  /**
   After a delete no reference dangles, the table is still a forest, survivors keep every other
   column, and the public query reaches each of them exactly once.
   */
  lemma RemovedIsForest(t: Table, gone: set<Id>)
    requires Forest(t)
    ensures Forest(Removed(t, gone))
    ensures forall c :: c in Removed(t, gone) <==> c in t && c !in gone
    ensures forall c :: c in Removed(t, gone) ==>
              Removed(t, gone)[c].(parent := t[c].parent, root := t[c].root) == t[c]
    ensures forall c, scan :: c in Removed(t, gone) && Scan(Removed(t, gone), scan) ==>
              Count(Visible(Removed(t, gone), scan, t[c].site, t[c].thread), c) == 1
  {
    var t' := Removed(t, gone);
    forall c | c in t'
      ensures exists m: nat :: Rooted(t', c, m)
    {
      var n: nat :| Rooted(t, c, n);
      var m := SurvivorIsRooted(t, gone, c, n);
    }
    forall c, scan | c in t' && Scan(t', scan)
      ensures Count(Visible(t', scan, t[c].site, t[c].thread), c) == 1
    {
      var m: nat :| Rooted(t', c, m);
      VisibleIsTheThread(t', scan, t[c].site, t[c].thread);
    }
  }
}
