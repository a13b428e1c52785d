/** The repository object: its writes change the table in place, inside the caller's transaction. */
module CommentRepo {
  import opened Prelude
  import opened CommentTable
  import opened CommentWrites
  import opened Moderation

  class Repo {
    var rows: Table

    constructor (rows: Table)
      ensures this.rows == rows
    {
      this.rows := rows;
    }

    /** Applies a moderation decision; it is an error if the site has no such comment. */
    method UpdateStatus(site: Id, id: Id, status: Status, before: Option<Status>, publishedAt: Option<int>, deletedAt: Option<int>)
      returns (r: Result<(), RepoError>)
      modifies this
      ensures r == if id in old(rows) && old(rows)[id].site == site then Ok(()) else Err(RepoError.NotFound)
      ensures r.Ok? ==> id in old(rows) && rows == old(rows)[id := old(rows)[id].(
                          status := status, statusBeforeDelete := before, publishedAt := publishedAt, deletedAt := deletedAt)]
      ensures r.Err? ==> rows == old(rows)
      ensures SameLinks(old(rows), rows)
      ensures r.Ok? && old(rows)[id].status == Published && status != Published ==> Hides(old(rows), rows, id)
      ensures r.Ok? && old(rows)[id].status != Published && status == Published ==> Hides(rows, old(rows), id)
    {
      if id !in rows || rows[id].site != site {
        return Err(RepoError.NotFound);
      }
      rows := rows[id := rows[id].(status := status, statusBeforeDelete := before, publishedAt := publishedAt, deletedAt := deletedAt)];
      return Ok(());
    }

    /** Two updates: first the parent references to the targets, then the root references. */
    method DetachCommentChildrenMany(targets: seq<Target>)
      modifies this
      ensures rows == Detached(old(rows), set x | x in targets)
    {
      var hit := set x | x in targets;
      if |targets| == 0 {
        assert hit == {};
        DetachNobody(rows);
        return;
      }
      rows := map c | c in rows :: rows[c].(parent := Cleared(rows[c].parent, HitsTarget(rows[c].site, rows[c].parent, hit)));
      rows := map c | c in rows :: rows[c].(root := Cleared(rows[c].root, HitsTarget(rows[c].site, rows[c].root, hit)));
    }

    method DetachCommentChildren(site: Id, id: Id)
      modifies this
      ensures rows == Detached(old(rows), {Target(site, id)})
    {
      DetachCommentChildrenMany([Target(site, id)]);
      assert (set x | x in [Target(site, id)]) == {Target(site, id)};
    }

    /** Deletes the targets, and whatever the foreign keys cascade to; reports the rows addressed. */
    method HardDeleteMany(targets: seq<Target>) returns (affected: nat)
      modifies this
      ensures var hit := set c | c in old(rows) && Target(old(rows)[c].site, c) in targets;
              rows == AfterDelete(old(rows), hit) && affected == |hit|
    {
      var hit := set c | c in rows && Target(rows[c].site, c) in targets;
      affected := |hit|;
      if |targets| == 0 {
        assert hit == {} && Orphans(rows, {}) == {};
        return;
      }
      rows := rows - Cascade(rows, hit);
    }

    method HardDelete(site: Id, id: Id) returns (r: Result<(), RepoError>)
      modifies this
      ensures r == if id in old(rows) && old(rows)[id].site == site then Ok(()) else Err(RepoError.NotFound)
      ensures rows == if r.Ok? then AfterDelete(old(rows), {id}) else old(rows)
    {
      if id !in rows || rows[id].site != site {
        return Err(RepoError.NotFound);
      }
      rows := rows - Cascade(rows, {id});
      return Ok(());
    }

    /** What the callers do in one transaction: detach the replies to the targets, then delete them. */
    method DetachAndDelete(targets: seq<Target>) returns (affected: nat)
      requires References(rows) && Existing(rows, set x | x in targets)
      modifies this
      ensures rows == Removed(old(rows), Ids(set x | x in targets))
      ensures affected == |Ids(set x | x in targets)|
      ensures old(Forest(rows)) ==> Forest(rows)
    {
      ghost var t, hit := rows, set x | x in targets;
      DetachCommentChildrenMany(targets);
      DetachThenDelete(t, hit);
      assert (set c | c in rows && Target(rows[c].site, c) in targets) == Ids(hit);
      affected := HardDeleteMany(targets);
      if Forest(t) {
        RemovedIsForest(t, Ids(hit));
      }
    }

    /** Clears what other people's comments say about the users' comments. */
    method DetachUserCommentChildrenMany(users: seq<Id>)
      modifies this
      ensures rows == UserDetached(old(rows), set u | u in users)
    {
      var gone := set u | u in users;
      if |users| == 0 {
        assert gone == {};
        DetachNoUser(rows);
        return;
      }
      rows := map c | c in rows :: rows[c].(parent := Cleared(rows[c].parent, HitsUser(rows, c, rows[c].parent, gone)));
      rows := map c | c in rows :: rows[c].(root := Cleared(rows[c].root, HitsUser(rows, c, rows[c].root, gone)));
    }

    /** Detaches, then deletes the users; their comments go with them by foreign key. */
    method DetachAndDeleteUsers(users: seq<Id>)
      modifies this
      ensures rows == Removed(old(rows), CommentsOf(old(rows), set u | u in users))
      ensures old(Forest(rows)) ==> Forest(rows)
    {
      ghost var t := rows;
      var gone := set u | u in users;
      DetachUserCommentChildrenMany(users);
      UserDetachThenDelete(t, gone);
      assert CommentsOf(rows, gone) == CommentsOf(t, gone);
      rows := rows - Cascade(rows, CommentsOf(rows, gone));
      if Forest(t) {
        RemovedIsForest(t, CommentsOf(t, gone));
      }
    }
  }

  lemma DetachNobody(t: Table)
    ensures Detached(t, {}) == t
  {
    assert forall c :: c in t ==> Detached(t, {})[c] == t[c];
  }

  lemma DetachNoUser(t: Table)
    ensures UserDetached(t, {}) == t
  {
    assert forall c :: c in t ==> UserDetached(t, {})[c] == t[c];
  }
}
