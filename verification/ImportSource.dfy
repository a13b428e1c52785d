/** Exported comments as the importer reads them, and what makes their reply links importable. */
module ImportSource {
  import opened Prelude

  /** One exported record; the fields that need parsing carry what the parser made of them. */
  datatype Record = Record(
    id: string, rid: string,
    siteName: string, siteUrls: string, pageKey: string,
    email: string, nick: string,
    createdAt: Option<int>, updatedAt: Option<int>,
    pending: Option<bool>, flagsParse: bool)

  /** A record that passed the row checks. */
  datatype Source = Source(id: string, parent: string, site: string, page: string, email: string, nick: string, createdAt: int, pending: bool)

  function Fold(c: char): char {
    if 'A' <= c <= 'Z' then c - 'A' + 'a' else c
  }

  predicate IsNull(s: string) {
    |s| == 4 && Fold(s[0]) == 'n' && Fold(s[1]) == 'u' && Fold(s[2]) == 'l' && Fold(s[3]) == 'l'
  }

  /** A blank, zero or null parent reference means no parent. */
  function NormalizeParent(rid: string): string {
    if rid == "" || rid == "0" || IsNull(rid) then "" else rid
  }

  /** The site a record belongs to: its name, else its URLs, else a fixed name. */
  function SiteKey(r: Record): string {
    if r.siteName != "" then r.siteName else if r.siteUrls != "" then r.siteUrls else "Artalk"
  }

  predicate RowOk(r: Record) {
    && r.id != "" && r.id != "0" && r.pageKey != ""
    && r.createdAt.Some? && r.updatedAt.Some? && r.pending.Some? && r.flagsParse
  }

  function SourceOf(r: Record): Source
    requires RowOk(r)
  {
    Source(r.id, NormalizeParent(r.rid), SiteKey(r), r.pageKey, r.email, r.nick, r.createdAt.value, r.pending.value)
  }

  /** The first `n` rows pass their checks and have different ids. */
  ghost predicate RowsOkUpTo(rs: seq<Record>, n: nat)
    requires n <= |rs|
  {
    && (forall i :: 0 <= i < n ==> RowOk(rs[i]))
    && (forall i, j :: 0 <= i < j < n ==> rs[i].id != rs[j].id)
  }

  /** All rows pass their checks and no id occurs twice. */
  ghost predicate RowsOk(rs: seq<Record>) {
    RowsOkUpTo(rs, |rs|)
  }

  lemma RowsOkPrefix(rs: seq<Record>, n: nat)
    requires n <= |rs|
    ensures RowsOk(rs) ==> RowsOkUpTo(rs, n)
  {
  }

  type Sources = map<string, Source>

  function SourcesUpTo(rs: seq<Record>, n: nat): Sources
    requires n <= |rs| && forall i :: 0 <= i < n ==> RowOk(rs[i])
  {
    if n == 0 then map[] else SourcesUpTo(rs, n - 1)[rs[n - 1].id := SourceOf(rs[n - 1])]
  }

  function SourcesOf(rs: seq<Record>): Sources
    requires forall i :: 0 <= i < |rs| ==> RowOk(rs[i])
  {
    SourcesUpTo(rs, |rs|)
  }

  lemma {:induction false} SourcesHold(rs: seq<Record>, n: nat)
    requires RowsOk(rs) && n <= |rs|
    ensures forall id :: id in SourcesUpTo(rs, n) ==> exists i :: 0 <= i < n && rs[i].id == id
    ensures forall i :: 0 <= i < n ==> rs[i].id in SourcesUpTo(rs, n) && SourcesUpTo(rs, n)[rs[i].id] == SourceOf(rs[i])
  {
    if n > 0 {
      SourcesHold(rs, n - 1);
      var m0, m1 := SourcesUpTo(rs, n - 1), SourcesUpTo(rs, n);
      assert m1 == m0[rs[n - 1].id := SourceOf(rs[n - 1])];
      forall i | 0 <= i < n
        ensures rs[i].id in m1 && m1[rs[i].id] == SourceOf(rs[i])
      {
        assert i < n - 1 ==> rs[i].id != rs[n - 1].id && rs[i].id in m0;
      }
    }
  }

  /** Which rows are sound, spelled out. */
  lemma RowsMean(rs: seq<Record>, n: nat)
    requires n <= |rs|
    ensures RowsOkUpTo(rs, n) <==>
              && (forall i :: 0 <= i < n ==>
                    && rs[i].id != "" && rs[i].id != "0" && rs[i].pageKey != ""
                    && rs[i].createdAt != None && rs[i].updatedAt != None && rs[i].pending != None && rs[i].flagsParse)
              && (forall i, j :: 0 <= i < j < n ==> rs[i].id != rs[j].id)
  {
  }

  /** The sources of a sound batch are its records, column by column, with a parent and a site worked out. */
  lemma SourceMeans(rs: seq<Record>, i: nat)
    requires RowsOk(rs) && i < |rs|
    ensures forall id :: id in SourcesOf(rs) <==> exists k :: 0 <= k < |rs| && rs[k].id == id
    ensures var r := rs[i]; r.id in SourcesOf(rs) && var c := SourcesOf(rs)[r.id];
            && c.id == r.id && c.page == r.pageKey && c.email == r.email && c.nick == r.nick
            && Some(c.createdAt) == r.createdAt && Some(c.pending) == r.pending
            && (var blank := |r.rid| == 4 && r.rid[0] in "nN" && r.rid[1] in "uU" && r.rid[2] in "lL" && r.rid[3] in "lL";
                c.parent == if r.rid == "" || r.rid == "0" || blank then "" else r.rid)
            && (r.siteName != "" ==> c.site == r.siteName)
            && (r.siteName == "" && r.siteUrls != "" ==> c.site == r.siteUrls)
            && (r.siteName == "" && r.siteUrls == "" ==> c.site == "Artalk")
  {
    SourcesHold(rs, |rs|);
  }

  predicate IsRoot(m: Sources, id: string) {
    id in m && m[id].parent == ""
  }

  /** The record has a parent, it exists, and it is on the same site and page. */
  predicate HasParent(m: Sources, id: string) {
    && id in m && m[id].parent != "" && m[id].parent in m
    && m[m[id].parent].site == m[id].site && m[m[id].parent].page == m[id].page
  }

  /** The parent chain of `id` is sound and ends at a root after `n` links. */
  predicate Anchored(m: Sources, id: string, n: nat)
    decreases n
  {
    if n == 0 then IsRoot(m, id) else HasParent(m, id) && Anchored(m, m[id].parent, n - 1)
  }

  ghost predicate Importable(m: Sources, id: string) {
    exists n: nat :: Anchored(m, id, n)
  }

  /** A reply chain written out: each next record is the parent, on the same site and page, and the last has none. */
  ghost predicate IsLine(m: Sources, line: seq<string>) {
    line != [] && forall i: nat :: i < |line| ==> InLine(m, line, i)
  }

  ghost predicate InLine(m: Sources, line: seq<string>, i: nat)
    requires i < |line|
  {
    line[i] in m && var c := m[line[i]];
    if i == |line| - 1 then c.parent == ""
    else
      && c.parent == line[i + 1] && line[i + 1] != "" && line[i + 1] in m
      && c.site == m[line[i + 1]].site && c.page == m[line[i + 1]].page
  }

  /** To be anchored is to be the first of such a chain; `n` counts its links. */
  lemma {:induction false} AnchoredIsLine(m: Sources, id: string, n: nat)
    ensures Anchored(m, id, n) <==> exists line :: |line| == n + 1 && line[0] == id && IsLine(m, line)
    decreases n
  {
    if Anchored(m, id, n) {
      if n == 0 {
        assert IsLine(m, [id]);
      } else {
        AnchoredIsLine(m, m[id].parent, n - 1);
        var up :| |up| == n && up[0] == m[id].parent && IsLine(m, up);
        LineGrows(m, id, up);
        assert ([id] + up)[0] == id;
      }
    }
    if line :| |line| == n + 1 && line[0] == id && IsLine(m, line) {
      assert InLine(m, line, 0);
      if n > 0 {
        var up := line[1..];
        assert line == [id] + up && line[1] == up[0];
        LineGrows(m, id, up);
        AnchoredIsLine(m, up[0], n - 1);
      }
    }
  }

  lemma LineGrows(m: Sources, id: string, up: seq<string>)
    requires up != []
    ensures IsLine(m, [id] + up) <==> HasParent(m, id) && m[id].parent == up[0] && IsLine(m, up)
  {
    var line := [id] + up;
    assert InLine(m, line, 0) <==> HasParent(m, id) && m[id].parent == up[0];
    forall i: nat | i < |up|
      ensures InLine(m, line, i + 1) <==> InLine(m, up, i)
    {
      assert line[i + 1] == up[i] && (i < |up| - 1 ==> line[i + 2] == up[i + 1]);
    }
    if IsLine(m, line) {
      assert InLine(m, line, 0);
      forall i: nat | i < |up|
        ensures InLine(m, up, i)
      {
        assert InLine(m, line, i + 1);
      }
    }
    if InLine(m, line, 0) && IsLine(m, up) {
      forall i: nat | i < |line|
        ensures InLine(m, line, i)
      {
        assert i > 0 ==> InLine(m, up, i - 1);
      }
    }
  }

  /** So a record is importable exactly when some such chain starts at it. */
  lemma ImportableIsLine(m: Sources, id: string)
    ensures Importable(m, id) <==> exists line :: line != [] && line[0] == id && IsLine(m, line)
  {
    if n: nat :| Anchored(m, id, n) {
      AnchoredIsLine(m, id, n);
    }
    if line :| line != [] && line[0] == id && IsLine(m, line) {
      AnchoredIsLine(m, id, |line| - 1);
      assert Anchored(m, id, |line| - 1);
    }
  }

  lemma {:induction false} AnchoredOnce(m: Sources, id: string, a: nat, b: nat)
    requires Anchored(m, id, a) && Anchored(m, id, b)
    ensures a == b
    decreases a
  {
    if a > 0 && b > 0 {
      AnchoredOnce(m, m[id].parent, a - 1, b - 1);
    }
  }

  lemma ImportableStep(m: Sources, id: string)
    ensures Importable(m, id) <==> IsRoot(m, id) || (HasParent(m, id) && Importable(m, m[id].parent))
  {
    if n: nat :| Anchored(m, id, n) {
      if n > 0 {
        assert Anchored(m, m[id].parent, n - 1);
      }
    }
    if HasParent(m, id) && Importable(m, m[id].parent) {
      var n: nat :| Anchored(m, m[id].parent, n);
      assert Anchored(m, id, n + 1);
    }
    if IsRoot(m, id) {
      assert Anchored(m, id, 0);
    }
  }

  /** `k` parent steps lead from `a` to `b`. */
  predicate Climbs(m: Sources, a: string, b: string, k: nat)
    decreases k
  {
    a in m && if k == 0 then a == b else m[a].parent in m && m[a].parent != "" && Climbs(m, m[a].parent, b, k - 1)
  }

  /** One or more parent steps lead from `a` to `b`. */
  ghost predicate LeadsTo(m: Sources, a: string, b: string) {
    exists k: nat :: k > 0 && Climbs(m, a, b, k)
  }

  /** What leads to a comment leads to its parent, and so does the comment. */
  lemma LeadsFurther(m: Sources, a: string, b: string)
    requires a == b || LeadsTo(m, a, b)
    requires b in m && m[b].parent in m && m[b].parent != ""
    ensures LeadsTo(m, a, m[b].parent)
  {
    var k: nat := 0;
    if LeadsTo(m, a, b) {
      k :| k > 0 && Climbs(m, a, b, k);
    } else {
      assert Climbs(m, a, b, 0);
    }
    ClimbsFurther(m, a, b, k);
    assert Climbs(m, a, m[b].parent, k + 1);
  }

  lemma {:induction false} ClimbsFurther(m: Sources, a: string, b: string, k: nat)
    requires Climbs(m, a, b, k) && b in m && m[b].parent in m && m[b].parent != ""
    ensures Climbs(m, a, m[b].parent, k + 1)
    decreases k
  {
    if k > 0 {
      ClimbsFurther(m, m[a].parent, b, k - 1);
    } else {
      assert Climbs(m, m[a].parent, m[b].parent, 0);
    }
  }

  lemma {:induction false} ClimbIsAnchored(m: Sources, a: string, b: string, k: nat, n: nat)
    requires Climbs(m, a, b, k) && Anchored(m, a, n)
    ensures k <= n && Anchored(m, b, n - k)
    decreases k
  {
    if k > 0 {
      ClimbIsAnchored(m, m[a].parent, b, k - 1, n - 1);
    }
  }

  /** A comment on a cycle is not importable. */
  lemma CycleIsNotImportable(m: Sources, id: string)
    requires LeadsTo(m, id, id)
    ensures !Importable(m, id)
  {
    var k: nat :| k > 0 && Climbs(m, id, id, k);
    if n: nat :| Anchored(m, id, n) {
      ClimbIsAnchored(m, id, id, k, n);
      AnchoredOnce(m, id, n, n - k);
    }
  }
}
