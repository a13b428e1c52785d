/** The first pass of an import: row checks, then a depth-first sort that puts parents first. */
module ImportPrepare {
  import opened Prelude
  import opened ImportSource

  datatype PrepareError =
    | NoComments
    | BadRow(row: nat)
    | Cycle(id: string)
    | MissingParent(id: string)
    | OtherThread(id: string)

  /** A comment on its way into the target: what was read, and what the second pass fills in. */
  class Prepared {
    const src: Source
    var authorKey: string
    var targetSite: int
    var targetUser: int
    var targetID: int
    var targetDepth: nat
    var targetRoot: Option<int>

    constructor (src: Source)
      ensures this.src == src
    {
      this.src := src;
      authorKey, targetSite, targetUser, targetID, targetDepth, targetRoot := "", 0, 0, 0, 0, None;
    }
  }

  type Index = map<string, Prepared>

  /** The index maps every id to its own comment. */
  ghost predicate Indexes(byID: Index, m: Sources) {
    byID.Keys == m.Keys && forall id :: id in byID ==> byID[id].src == m[id] && m[id].id == id
  }

  ghost function IdsOf(cs: seq<Prepared>): set<string> {
    set c | c in cs :: c.src.id
  }

  ghost predicate DistinctIds(cs: seq<Prepared>) {
    forall i, j :: 0 <= i < j < |cs| ==> cs[i].src.id != cs[j].src.id
  }

  /** Every comment comes after its parent. */
  ghost predicate ParentsFirst(cs: seq<Prepared>) {
    forall i :: 0 <= i < |cs| && cs[i].src.parent != "" ==> exists j :: 0 <= j < i && cs[j].src.id == cs[i].src.parent
  }

  lemma AppendKeepsOrder(cs: seq<Prepared>, c: Prepared)
    requires DistinctIds(cs) && ParentsFirst(cs) && c.src.id !in IdsOf(cs)
    requires c.src.parent != "" ==> c.src.parent in IdsOf(cs)
    ensures DistinctIds(cs + [c]) && ParentsFirst(cs + [c])
    ensures IdsOf(cs + [c]) == IdsOf(cs) + {c.src.id}
  {
    var all := cs + [c];
    forall i | 0 <= i < |all| && all[i].src.parent != ""
      ensures exists j :: 0 <= j < i && all[j].src.id == all[i].src.parent
    {
      if i < |cs| {
        var j :| 0 <= j < i && cs[j].src.id == cs[i].src.parent;
        assert all[j].src.id == all[i].src.parent;
      } else {
        var x :| x in cs && x.src.id == c.src.parent;
        var j :| 0 <= j < |cs| && cs[j] == x;
        assert all[j].src.id == all[i].src.parent;
      }
    }
    forall id
      ensures id in IdsOf(all) <==> id in IdsOf(cs) + {c.src.id}
    {
      if id in IdsOf(cs) {
        var x :| x in cs && x.src.id == id;
        assert x in all;
      }
      assert c in all;
    }
  }

  /** The error of a failed sort names a record that really is at fault. */
  ghost predicate NamesFault(m: Sources, e: PrepareError) {
    match e
    case Cycle(x) => LeadsTo(m, x, x)
    case MissingParent(x) => x in m && m[x].parent != "" && m[x].parent !in m
    case OtherThread(x) =>
      x in m && m[x].parent in m && (m[m[x].parent].site != m[x].site || m[m[x].parent].page != m[x].page)
    case _ => false
  }

  /** The depth-first sort; in `state`, 1 marks the comments on the current path and 2 the finished ones. */
  class Sorter {
    const byID: Index
    ghost const m: Sources
    var state: map<string, int>
    var ordered: seq<Prepared>

    ghost predicate Valid()
      reads this
    {
      && Indexes(byID, m)
      && state.Keys <= byID.Keys
      && (forall id :: id in state ==> state[id] == 1 || state[id] == 2)
      && (forall id :: Finished(id) <==> id in IdsOf(ordered))
      && (forall c :: c in ordered ==> c.src.id in byID && byID[c.src.id] == c)
      && DistinctIds(ordered) && ParentsFirst(ordered)
      && (forall id :: Finished(id) ==> Importable(m, id))
    }

    ghost predicate Finished(id: string)
      reads this
    {
      id in state && state[id] == 2
    }

    ghost predicate OnPath(id: string)
      reads this
    {
      id in state && state[id] == 1
    }

    constructor (byID: Index, ghost m: Sources)
      requires Indexes(byID, m)
      ensures Valid() && this.byID == byID && this.m == m && state == map[] && ordered == []
    {
      this.byID, this.m := byID, m;
      state, ordered := map[], [];
    }

    /** Everything on the path leads up to `id`. */
    ghost predicate PathLeadsTo(id: string)
      reads this
    {
      forall k :: OnPath(k) ==> LeadsTo(m, k, id)
    }

    method Visit(comment: Prepared) returns (r: Result<(), PrepareError>)
      requires Valid() && comment.src.id in byID && byID[comment.src.id] == comment
      requires PathLeadsTo(comment.src.id)
      modifies this
      ensures r.Ok? <==> Importable(m, comment.src.id)
      ensures r.Err? ==> NamesFault(m, r.error)
      ensures r.Ok? ==> Valid() && Finished(comment.src.id)
      ensures r.Ok? ==> forall k :: (OnPath(k) <==> old(OnPath(k))) && (old(Finished(k)) ==> Finished(k))
      decreases byID.Keys - state.Keys
    {
      var id := comment.src.id;
      ImportableStep(m, id);
      if id in state {
        if state[id] == 1 {
          assert OnPath(id);
          CycleIsNotImportable(m, id);
          return Err(Cycle(id));
        }
        assert Finished(id);
        return Ok(());
      }
      ghost var todo := byID.Keys - state.Keys;
      Enter(id);
      if comment.src.parent != "" {
        if comment.src.parent !in byID {
          return Err(MissingParent(id));
        }
        var parent := byID[comment.src.parent];
        if parent.src.site != comment.src.site || parent.src.page != comment.src.page {
          return Err(OtherThread(id));
        }
        forall k | OnPath(k)
          ensures LeadsTo(m, k, m[id].parent)
        {
          LeadsFurther(m, k, id);
        }
        assert byID.Keys - state.Keys == todo - {id};
        r := Visit(parent);
        if r.Err? {
          return;
        }
      }
      Leave(comment);
      r := Ok(());
    }

    /** Visits every comment in input order. */
    method VisitAll(input: seq<Prepared>) returns (r: Result<(), PrepareError>)
      requires Valid() && state == map[]
      requires forall i :: 0 <= i < |input| ==> input[i].src.id in byID && byID[input[i].src.id] == input[i]
      modifies this
      ensures r.Ok? <==> forall i :: 0 <= i < |input| ==> Importable(m, input[i].src.id)
      ensures r.Err? ==> NamesFault(m, r.error)
      ensures r.Ok? ==> Valid() && forall i :: 0 <= i < |input| ==> Finished(input[i].src.id)
    {
      for k := 0 to |input|
        invariant Valid()
        invariant forall x :: !OnPath(x)
        invariant forall i :: 0 <= i < k ==> Finished(input[i].src.id)
      {
        var visited := Visit(input[k]);
        if visited.Err? {
          return visited;
        }
      }
      return Ok(());
    }

    /** Puts a comment on the path. */
    method Enter(id: string)
      requires Valid() && id in byID && id !in state
      modifies this`state
      ensures Valid() && state == old(state)[id := 1]
      ensures forall k :: (OnPath(k) <==> old(OnPath(k)) || k == id) && (Finished(k) <==> old(Finished(k)))
    {
      state := state[id := 1];
      assert forall k :: Finished(k) <==> old(Finished(k));
    }

    /** Takes a comment off the path and appends it, its parent being there already. */
    method Leave(comment: Prepared)
      requires Valid() && comment.src.id in byID && byID[comment.src.id] == comment && OnPath(comment.src.id)
      requires Importable(m, comment.src.id)
      requires comment.src.parent != "" ==> Finished(comment.src.parent)
      modifies this
      ensures Valid()
      ensures forall k :: (OnPath(k) <==> old(OnPath(k)) && k != comment.src.id)
                       && (Finished(k) <==> old(Finished(k)) || k == comment.src.id)
    {
      state := state[comment.src.id := 2];
      ordered := ordered + [comment];
      AppendKeepsOrder(old(ordered), comment);
      assert forall k :: Finished(k) <==> old(Finished(k)) || k == comment.src.id;
    }
  }

  ghost function IdSeq(cs: seq<Prepared>): seq<string> {
    seq(|cs|, i requires 0 <= i < |cs| => cs[i].src.id)
  }

  ghost function RecordIds(rs: seq<Record>): seq<string> {
    seq(|rs|, i requires 0 <= i < |rs| => rs[i].id)
  }

  lemma {:induction false} DistinctCount(a: seq<string>, x: string)
    requires forall i, j :: 0 <= i < j < |a| ==> a[i] != a[j]
    ensures multiset(a)[x] == if x in a then 1 else 0
  {
    if a != [] {
      var n := |a| - 1;
      DistinctCount(a[..n], x);
      assert a == a[..n] + [a[n]];
    }
  }

  /** Two lists without repetition and with the same elements are permutations of each other. */
  lemma DistinctPermutation(a: seq<string>, b: seq<string>)
    requires forall i, j :: 0 <= i < j < |a| ==> a[i] != a[j]
    requires forall i, j :: 0 <= i < j < |b| ==> b[i] != b[j]
    requires forall x :: x in a <==> x in b
    ensures multiset(a) == multiset(b)
  {
    forall x
      ensures multiset(a)[x] == multiset(b)[x]
    {
      DistinctCount(a, x);
      DistinctCount(b, x);
    }
  }

  /** What the second pass needs of a sorted batch. */
  ghost predicate Batch(cs: seq<Prepared>, byID: Index, m: Sources) {
    && Indexes(byID, m)
    && DistinctIds(cs) && ParentsFirst(cs) && IdsOf(cs) == m.Keys
    && (forall i :: 0 <= i < |cs| ==> cs[i].src.id in byID && byID[cs[i].src.id] == cs[i])
    && (forall id :: id in m ==> Importable(m, id))
  }

  ghost predicate HasRow(records: seq<Record>, n: nat, id: string)
    requires n <= |records|
  {
    exists i :: 0 <= i < n && records[i].id == id
  }

  ghost predicate InputAt(records: seq<Record>, byID: Index, input: seq<Prepared>, i: nat) {
    i < |records| && i < |input| && records[i].id in byID && input[i] == byID[records[i].id]
  }

  /** The first `n` records are loaded, in order, under their ids. */
  ghost predicate Loaded(records: seq<Record>, n: nat, byID: Index, input: seq<Prepared>)
    requires n <= |records| && RowsOkUpTo(records, n)
  {
    && Indexes(byID, SourcesUpTo(records, n)) && |input| == n
    && (forall id {:trigger HasRow(records, n, id)} :: id in byID ==> HasRow(records, n, id))
    && (forall i: nat {:trigger InputAt(records, byID, input, i)} :: i < n ==> InputAt(records, byID, input, i))
  }

  lemma NewIdIsNew(records: seq<Record>, n: nat, byID: Index, input: seq<Prepared>)
    requires n < |records| && RowsOkUpTo(records, n) && Loaded(records, n, byID, input) && RowOk(records[n])
    ensures records[n].id !in byID <==> RowsOkUpTo(records, n + 1)
  {
    if records[n].id in byID {
      assert HasRow(records, n, records[n].id);
    } else {
      forall i | 0 <= i < n
        ensures records[i].id != records[n].id
      {
        assert InputAt(records, byID, input, i);
      }
    }
  }

  lemma IndexesOne(byID: Index, m: Sources, c: Prepared)
    requires Indexes(byID, m)
    ensures Indexes(byID[c.src.id := c], m[c.src.id := c.src])
  {
  }

  lemma LoadOne(records: seq<Record>, n: nat, byID: Index, input: seq<Prepared>, c: Prepared)
    requires n < |records| && RowsOkUpTo(records, n + 1) && Loaded(records, n, byID, input)
    requires c.src == SourceOf(records[n])
    ensures Loaded(records, n + 1, byID[records[n].id := c], input + [c])
  {
    var byID', input' := byID[records[n].id := c], input + [c];
    assert SourcesUpTo(records, n + 1) == SourcesUpTo(records, n)[records[n].id := c.src];
    IndexesOne(byID, SourcesUpTo(records, n), c);
    forall id | id in byID'
      ensures HasRow(records, n + 1, id)
    {
      if id in byID {
        assert HasRow(records, n, id);
      } else {
        assert records[n].id == id;
      }
    }
    forall i: nat | i < n + 1
      ensures InputAt(records, byID', input', i)
    {
      assert i < n ==> InputAt(records, byID, input, i) && records[i].id != records[n].id;
    }
  }

  /** The row named is the first that fails its checks or repeats an id; rows are counted from one. */
  ghost predicate FirstBadRow(records: seq<Record>, e: PrepareError) {
    e.BadRow? && 0 < e.row <= |records| && RowsOkUpTo(records, e.row - 1) && !RowsOkUpTo(records, e.row)
  }

  /** The row checks, in input order; the first bad row is an error. */
  method CheckRows(records: seq<Record>) returns (r: Result<(), PrepareError>, byID: Index, input: seq<Prepared>)
    ensures r.Ok? <==> RowsOk(records)
    ensures r.Ok? <==>
              && (forall i :: 0 <= i < |records| ==>
                    && records[i].id != "" && records[i].id != "0" && records[i].pageKey != ""
                    && records[i].createdAt != None && records[i].updatedAt != None
                    && records[i].pending != None && records[i].flagsParse)
              && (forall i, j :: 0 <= i < j < |records| ==> records[i].id != records[j].id)
    ensures r.Err? ==> FirstBadRow(records, r.error)
    ensures r.Ok? ==> Loaded(records, |records|, byID, input)
    ensures forall id :: id in byID ==> fresh(byID[id])
  {
    RowsMean(records, |records|);
    byID, input := map[], [];
    for idx := 0 to |records|
      invariant RowsOkUpTo(records, idx) && Loaded(records, idx, byID, input)
      invariant forall id :: id in byID ==> fresh(byID[id])
    {
      var record := records[idx];
      RowsOkPrefix(records, idx + 1);
      if !RowOk(record) {
        assert !RowsOkUpTo(records, idx + 1);
        return Err(BadRow(idx + 1)), byID, input;
      }
      NewIdIsNew(records, idx, byID, input);
      if record.id in byID {
        return Err(BadRow(idx + 1)), byID, input;
      }
      var comment := new Prepared(SourceOf(record));
      LoadOne(records, idx, byID, input, comment);
      byID := byID[record.id := comment];
      input := input + [comment];
    }
    r := Ok(());
  }

  lemma LoadedInOrder(records: seq<Record>, byID: Index, input: seq<Prepared>)
    requires RowsOk(records) && Loaded(records, |records|, byID, input)
    ensures |input| == |records|
    ensures forall i :: 0 <= i < |input| ==>
              input[i].src.id == records[i].id && records[i].id in byID && byID[records[i].id] == input[i]
  {
    forall i: nat | i < |input|
      ensures input[i].src.id == records[i].id && records[i].id in byID && byID[records[i].id] == input[i]
    {
      assert InputAt(records, byID, input, i);
    }
  }

  /** Sorts the comments, visiting them in input order. */
  method SortAll(records: seq<Record>, byID: Index, input: seq<Prepared>) returns (r: Result<seq<Prepared>, PrepareError>)
    requires RowsOk(records) && Loaded(records, |records|, byID, input)
    ensures r.Ok? <==> forall i :: 0 <= i < |records| ==> Importable(SourcesOf(records), records[i].id)
    ensures r.Err? ==> NamesFault(SourcesOf(records), r.error)
    ensures r.Ok? ==> Batch(r.value, byID, SourcesOf(records)) && multiset(IdSeq(r.value)) == multiset(RecordIds(records))
  {
    ghost var m := SourcesOf(records);
    var sorter := new Sorter(byID, m);
    LoadedInOrder(records, byID, input);
    var visited := sorter.VisitAll(input);
    if visited.Err? {
      return Err(visited.error);
    }
    SortedIsBatch(sorter.ordered, byID, records);
    return Ok(sorter.ordered);
  }

  /**
   Prepares a batch. It succeeds exactly when there are records, they pass the row checks, and
   every reply chain is sound and ends at a root; then the output is a permutation of the input
   with every parent before its replies.
   */
  method Prepare(records: seq<Record>) returns (r: Result<(seq<Prepared>, Index), PrepareError>)
    ensures r.Err? ==> if records == [] then r.error == NoComments
                       else if !RowsOk(records) then FirstBadRow(records, r.error)
                       else NamesFault(SourcesOf(records), r.error)
    ensures r.Ok? <==> records != [] && RowsOk(records) && forall i :: 0 <= i < |records| ==> Importable(SourcesOf(records), records[i].id)
    ensures r.Ok? ==> RowsOk(records) && Batch(r.value.0, r.value.1, SourcesOf(records))
    ensures r.Ok? ==> multiset(IdSeq(r.value.0)) == multiset(RecordIds(records))
    ensures r.Ok? ==> forall id :: id in r.value.1 ==> fresh(r.value.1[id])
  {
    if |records| == 0 {
      return Err(NoComments);
    }
    var checked, byID, input := CheckRows(records);
    if checked.Err? {
      return Err(checked.error);
    }
    var sorted := SortAll(records, byID, input);
    if sorted.Err? {
      return Err(sorted.error);
    }
    return Ok((sorted.value, byID));
  }

  lemma SortedIsBatch(cs: seq<Prepared>, byID: Index, records: seq<Record>)
    requires RowsOk(records) && Indexes(byID, SourcesOf(records))
    requires DistinctIds(cs) && ParentsFirst(cs)
    requires forall c :: c in cs ==> c.src.id in byID && byID[c.src.id] == c
    requires forall id :: id in IdsOf(cs) ==> Importable(SourcesOf(records), id)
    requires forall i :: 0 <= i < |records| ==> records[i].id in IdsOf(cs)
    ensures Batch(cs, byID, SourcesOf(records))
    ensures multiset(IdSeq(cs)) == multiset(RecordIds(records))
    ensures forall i :: 0 <= i < |records| ==> Importable(SourcesOf(records), records[i].id)
  {
    var m, a, b := SourcesOf(records), IdSeq(cs), RecordIds(records);
    forall x
      ensures x in a <==> x in IdsOf(cs)
      ensures x in b <==> x in m
      ensures x in IdsOf(cs) <==> x in m
    {
      IdSeqHolds(cs, x);
      RecordIdsHold(records, x);
      if x in b {
        var i :| 0 <= i < |b| && b[i] == x;
        assert records[i].id in IdsOf(cs);
      }
    }
    DistinctPermutation(a, b);
  }

  lemma IdSeqHolds(cs: seq<Prepared>, x: string)
    ensures x in IdSeq(cs) <==> x in IdsOf(cs)
  {
    if x in IdsOf(cs) {
      var c :| c in cs && c.src.id == x;
      var j :| 0 <= j < |cs| && cs[j] == c;
      assert IdSeq(cs)[j] == x;
    }
  }

  lemma RecordIdsHold(records: seq<Record>, x: string)
    requires RowsOk(records)
    ensures x in RecordIds(records) <==> x in SourcesOf(records)
  {
    SourcesHold(records, |records|);
    if x in SourcesOf(records) {
      var i :| 0 <= i < |records| && records[i].id == x;
      assert RecordIds(records)[i] == x;
    }
  }
}
