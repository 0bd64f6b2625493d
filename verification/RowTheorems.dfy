/** What the timeline rows show, and how they agree with the thread walk and the delete cascade. */
module RowTheorems {
  import opened Prelude
  import opened Timeline
  import opened Threads
  import opened RowSearch
  import opened TimelineRows

  // ----- the rows are determined by the timeline ------------------------------

  lemma {:induction false} ExpansionsAgree(loaded: set<string>, es: seq<Entry>, r: string, a: seq<Entry>,
                                           b: seq<Entry>, k: nat)
    requires a == AllKids(loaded, es, Nodes(r, a)) && ParentsFirst(r, a) && NoDuplicates(Nodes(r, a))
    requires b == AllKids(loaded, es, Nodes(r, b)) && k <= |a|
    ensures k <= |b| && a[..k] == b[..k]
  {
    if k > 0 {
      ExpansionsAgree(loaded, es, r, a, b, k - 1);
      assert ParentBefore(r, a, k - 1);
      AgreeFurther(loaded, es, r, a, b, k - 1);
    }
  }

  lemma AgreeFurther(loaded: set<string>, es: seq<Entry>, r: string, a: seq<Entry>, b: seq<Entry>, k: nat)
    requires k < |a| && k <= |b| && a[..k] == b[..k]
    requires a == AllKids(loaded, es, Nodes(r, a)) && ParentBefore(r, a, k) && NoDuplicates(Nodes(r, a))
    requires b == AllKids(loaded, es, Nodes(r, b))
    ensures k + 1 <= |b| && a[..k + 1] == b[..k + 1]
  {
    var found := AllKids(loaded, es, Nodes(r, a)[..k + 1]);
    assert found <= a && found <= b by {
      SameNodes(r, a, b, k);
      ExpansionStarts(loaded, es, r, a, k + 1);
      ExpansionStarts(loaded, es, r, b, k + 1);
    }
    assert |found| >= k + 1 by {
      NextIsFound(loaded, es, r, a, k);
    }
    CommonPrefix(a, b, found, k + 1);
  }

  lemma SameNodes(r: string, a: seq<Entry>, b: seq<Entry>, k: nat)
    requires k <= |a| && k <= |b| && a[..k] == b[..k]
    ensures Nodes(r, a)[..k + 1] == Nodes(r, b)[..k + 1]
  {
    forall i | 0 <= i < k + 1
      ensures Nodes(r, a)[i] == Nodes(r, b)[i]
    {
      if i > 0 {
        assert a[..k][i - 1] == b[..k][i - 1];
      }
    }
  }

  lemma ExpansionStarts(loaded: set<string>, es: seq<Entry>, r: string, out: seq<Entry>, k: nat)
    requires out == AllKids(loaded, es, Nodes(r, out)) && k <= |out| + 1
    ensures AllKids(loaded, es, Nodes(r, out)[..k]) <= out
  {
    AllKidsPrefix(loaded, es, Nodes(r, out), k);
  }

  lemma CommonPrefix<T>(a: seq<T>, b: seq<T>, p: seq<T>, k: nat)
    requires p <= a && p <= b && k <= |p|
    ensures k <= |b| && a[..k] == b[..k]
  {
    assert a[..k] == p[..k] == b[..k];
  }

  /** The reply at `i` is already contributed by the members before it. */
  lemma NextIsFound(loaded: set<string>, es: seq<Entry>, r: string, out: seq<Entry>, i: nat)
    requires i < |out| && ParentBefore(r, out, i)
    requires out == AllKids(loaded, es, Nodes(r, out)) && NoDuplicates(Nodes(r, out))
    ensures |AllKids(loaded, es, Nodes(r, out)[..i + 1])| > i
  {
    var nodes := Nodes(r, out);
    var found := AllKids(loaded, es, nodes[..i + 1]);
    AllKidsPrefix(loaded, es, nodes, i + 1);
    ReplyContributed(loaded, es, r, out, i);
    var j :| 0 <= j < |found| && found[j] == out[i];
    assert nodes[j + 1] == nodes[i + 1];
  }

  lemma ReplyContributed(loaded: set<string>, es: seq<Entry>, r: string, out: seq<Entry>, i: nat)
    requires i < |out| && ParentBefore(r, out, i) && out == AllKids(loaded, es, Nodes(r, out))
    ensures out[i] in AllKids(loaded, es, Nodes(r, out)[..i + 1])
  {
    assert Nodes(r, out[..i]) == Nodes(r, out)[..i + 1];
    assert out[i] in out;
    AllKidsMembers(loaded, es, Nodes(r, out));
    AllKidsMembers(loaded, es, Nodes(r, out)[..i + 1]);
  }

  lemma ExpansionIsUnique(loaded: set<string>, es: seq<Entry>, r: string, a: seq<Entry>, b: seq<Entry>)
    requires IsExpansion(loaded, es, r, a) && IsExpansion(loaded, es, r, b)
    ensures a == b
  {
    ExpansionsAgree(loaded, es, r, a, b, |a|);
    ExpansionsAgree(loaded, es, r, b, a, |b|);
  }

  // ----- climbing -----------------------------------------------------------------

  /** The parent chain of `x` runs into a cycle. */
  ghost predicate EntersCycle(up: map<string, string>, x: string) {
    exists y :: Reaches(up, x, y) && ProperlyClimbs(up, y, y)
  }

  lemma {:induction false} ClimbsCompare(up: map<string, string>, x: string, a: string, b: string, m: nat, n: nat)
    requires Climbs(up, x, a, m) && Climbs(up, x, b, n) && m <= n
    ensures Climbs(up, a, b, n - m)
    decreases m
  {
    if m > 0 {
      ClimbsCompare(up, up[x], a, b, m - 1, n - 1);
    }
  }

  lemma {:induction false} CycleNeverEnds(up: map<string, string>, y: string, k: nat, r: string, n: nat)
    requires k > 0 && Climbs(up, y, y, k) && Climbs(up, y, r, n)
    ensures r in up
    decreases n
  {
    if n > 0 {
      assert Climbs(up, y, up[y], 1) by { assert Climbs(up, up[y], up[y], 0); }
      ClimbConcat(up, up[y], y, up[y], k - 1, 1);
      CycleNeverEnds(up, up[y], k, r, n - 1);
    }
  }

  lemma EndingChainHasNoCycle(up: map<string, string>, x: string, r: string, n: nat)
    requires Climbs(up, x, r, n) && r !in up
    ensures !EntersCycle(up, x)
  {
    forall y, m: nat, k: nat | Climbs(up, x, y, m) && k > 0 && Climbs(up, y, y, k)
      ensures false
    {
      if m <= n {
        ClimbsCompare(up, x, y, r, m, n);
        CycleNeverEnds(up, y, k, r, n - m);
      } else {
        ClimbsCompare(up, x, r, y, n, m);
      }
    }
  }

  /** Every finite parent relation: a chain that enters no cycle ends somewhere. */
  lemma {:induction false} ChainEnds(up: map<string, string>, x: string, cur: string, n: nat, seen: set<string>)
    returns (r: string, m: nat)
    requires !EntersCycle(up, x) && Climbs(up, x, cur, n) && seen <= up.Keys
    requires forall s :: s in seen ==> ProperlyClimbs(up, s, cur)
    ensures Climbs(up, x, r, m) && r !in up
    decreases up.Keys - seen
  {
    r, m := cur, n;
    if cur in up {
      assert cur !in seen by { assert Reaches(up, x, cur); }
      var next := up[cur];
      assert Climbs(up, cur, next, 1) by { assert Climbs(up, next, next, 0); }
      ClimbConcat(up, x, cur, next, n, 1);
      forall s | s in seen + {cur}
        ensures ProperlyClimbs(up, s, next)
      {
        if s != cur {
          var k: nat :| k > 0 && Climbs(up, s, cur, k);
          ClimbConcat(up, s, cur, next, k, 1);
        }
      }
      r, m := ChainEnds(up, x, next, n + 1, seen + {cur});
    }
  }

  // ----- which entries are shown ----------------------------------------------------

  ghost predicate Member(row: Row, e: Entry) {
    e == row.entry || e in row.replies
  }

  ghost predicate Shown(rows: seq<Row>, e: Entry) {
    exists i :: 0 <= i < |rows| && Member(rows[i], e)
  }

  lemma ReplyIsLinked(es: seq<Entry>, e: Entry)
    requires DistinctIds(es) && e in es
    ensures IsReply(CommentIds(es), e) <==> e.id in Up(ById(es))
    ensures e.id in Up(ById(es)) ==> Up(ById(es))[e.id] == e.parentId.value
    ensures e.kind.Comment? <==> e.id in ById(es)
  {
    ByIdKeys(es);
    if e.kind.Comment? {
      ByIdDistinct(es, e);
    }
    assert CommentIds(es) == ById(es).Keys;
  }

  lemma OneMoreStep(up: map<string, string>, x: string, r: string)
    requires x in up && Reaches(up, up[x], r)
    ensures Reaches(up, x, r)
  {
    var n: nat :| Climbs(up, up[x], r, n);
    assert Climbs(up, x, r, n + 1);
  }

  lemma {:induction false} ReplyClimbs(es: seq<Entry>, r: string, out: seq<Entry>, i: nat)
    requires DistinctIds(es) && ParentsFirst(r, out) && i < |out|
    requires forall e :: e in out ==> e in es && IsReply(CommentIds(es), e)
    ensures Reaches(Up(ById(es)), out[i].id, r)
    decreases i
  {
    var up := Up(ById(es));
    assert out[i] in out && ParentBefore(r, out, i);
    ReplyIsLinked(es, out[i]);
    var p := out[i].parentId.value;
    if p == r {
      assert Climbs(up, p, r, 0);
    } else {
      NodesMembers(r, out[..i]);
      var j :| 0 <= j < i && out[j].id == p;
      ReplyClimbs(es, r, out, j);
    }
    OneMoreStep(up, out[i].id, r);
  }

  lemma MemberClimbs(es: seq<Entry>, rows: seq<Row>, i: nat, e: Entry)
    requires DistinctIds(es) && AreRows(es, rows) && i < |rows| && Member(rows[i], e)
    ensures e in es && Reaches(Up(ById(es)), e.id, rows[i].entry.id) && rows[i].entry.id !in Up(ById(es))
  {
    var row := rows[i];
    TopLevelMembers(CommentIds(es), es);
    assert row.entry in TopLevel(CommentIds(es), es);
    ReplyIsLinked(es, row.entry);
    if e == row.entry {
      assert Climbs(Up(ById(es)), e.id, e.id, 0);
    } else {
      AllKidsMembers(CommentIds(es), es, Nodes(row.entry.id, row.replies));
      var k :| 0 <= k < |row.replies| && row.replies[k] == e;
      ReplyClimbs(es, row.entry.id, row.replies, k);
    }
  }

  lemma ChildOfMember(es: seq<Entry>, row: Row, parent: Entry, e: Entry)
    requires row.entry.kind.Comment? && IsRow(CommentIds(es), es, row) && Member(row, parent)
    requires e in es && IsReply(CommentIds(es), e) && e.parentId.value == parent.id
    ensures Member(row, e)
  {
    AllKidsMembers(CommentIds(es), es, Nodes(row.entry.id, row.replies));
    NodesMembers(row.entry.id, row.replies);
  }

  /** Whatever climbs to a row's entry is in that row. */
  lemma {:induction false} ClimberIsMember(es: seq<Entry>, row: Row, e: Entry, n: nat)
    requires DistinctIds(es) && e in es && row.entry in es && IsRow(CommentIds(es), es, row)
    requires Climbs(Up(ById(es)), e.id, row.entry.id, n)
    ensures Member(row, e)
    decreases n
  {
    if n == 0 {
      SameIdSameEntry(es, e, row.entry);
    } else {
      ReplyIsLinked(es, e);
      ByIdKeys(es);
      var parent := ById(es)[Up(ById(es))[e.id]];
      ClimberIsMember(es, row, parent, n - 1);
      assert !row.entry.kind.Comment? ==> parent == row.entry;
      ChildOfMember(es, row, parent, e);
    }
  }

  /** The entries the rows drop are exactly the comments whose parent chain enters a cycle. */
  lemma ShownUnlessCyclic(es: seq<Entry>, rows: seq<Row>, e: Entry)
    requires DistinctIds(es) && AreRows(es, rows) && e in es
    ensures Shown(rows, e) <==> !EntersCycle(Up(ById(es)), e.id)
  {
    var up := Up(ById(es));
    if i :| 0 <= i < |rows| && Member(rows[i], e) {
      MemberClimbs(es, rows, i, e);
      var n: nat :| Climbs(up, e.id, rows[i].entry.id, n);
      EndingChainHasNoCycle(up, e.id, rows[i].entry.id, n);
    }
    if !EntersCycle(up, e.id) {
      var r, m := ChainEnds(up, e.id, e.id, 0, {});
      var root := ChainTop(es, e, r, m);
      TopLevelMembers(CommentIds(es), es);
      ReplyIsLinked(es, root);
      assert root in TopLevel(CommentIds(es), es);
      var i :| 0 <= i < |rows| && rows[i].entry == root;
      ClimberIsMember(es, rows[i], e, m);
    }
  }

  /** The last entry of a chain that ends. */
  lemma {:induction false} ChainTop(es: seq<Entry>, e: Entry, r: string, m: nat) returns (root: Entry)
    requires DistinctIds(es) && e in es && Climbs(Up(ById(es)), e.id, r, m)
    ensures root in es && root.id == r
    decreases m
  {
    root := e;
    if m > 0 {
      ByIdKeys(es);
      root := ChainTop(es, ById(es)[Up(ById(es))[e.id]], r, m - 1);
    }
  }

  /** No entry is in two rows. */
  lemma RowsAreDisjoint(es: seq<Entry>, rows: seq<Row>, i: nat, j: nat, e: Entry)
    requires DistinctIds(es) && AreRows(es, rows) && i < |rows| && j < |rows|
    requires Member(rows[i], e) && Member(rows[j], e)
    ensures i == j
  {
    var up := Up(ById(es));
    MemberClimbs(es, rows, i, e);
    MemberClimbs(es, rows, j, e);
    var a, b := rows[i].entry.id, rows[j].entry.id;
    var m: nat :| Climbs(up, e.id, a, m);
    var n: nat :| Climbs(up, e.id, b, n);
    if m <= n { ClimbsCompare(up, e.id, a, b, m, n); } else { ClimbsCompare(up, e.id, b, a, n, m); }
    TopLevelMembers(CommentIds(es), es);
    assert TopLevel(CommentIds(es), es)[i].id == TopLevel(CommentIds(es), es)[j].id;
  }

  function Flatten(rows: seq<Row>): seq<Entry> {
    if rows == [] then [] else
      var last := rows[|rows| - 1];
      Flatten(rows[..|rows| - 1]) + ([last.entry] + last.replies)
  }

  lemma {:induction false} FlattenMembers(rows: seq<Row>)
    ensures forall e :: e in Flatten(rows) <==> Shown(rows, e)
  {
    if rows != [] {
      var rest := rows[..|rows| - 1];
      FlattenMembers(rest);
      forall e
        ensures e in Flatten(rows) <==> Shown(rows, e)
      {
        if Shown(rest, e) {
          var i :| 0 <= i < |rest| && Member(rest[i], e);
          assert Member(rows[i], e);
        }
        if Shown(rows, e) {
          var i :| 0 <= i < |rows| && Member(rows[i], e);
          assert i < |rest| ==> Member(rest[i], e);
        }
        if Member(rows[|rows| - 1], e) {
          assert Shown(rows, e);
        }
      }
    }
  }

  lemma {:induction false} FlattenIsDistinct(es: seq<Entry>, rows: seq<Row>, k: nat)
    requires DistinctIds(es) && AreRows(es, rows) && k <= |rows|
    ensures NoDuplicates(Flatten(rows[..k]))
  {
    if k > 0 {
      FlattenIsDistinct(es, rows, k - 1);
      var rest, last := rows[..k - 1], rows[k - 1];
      assert rows[..k][..k - 1] == rest;
      var added := [last.entry] + last.replies;
      assert NoDuplicates(added) by { RowIsDistinct(CommentIds(es), es, last); }
      forall n | 0 <= n < |added|
        ensures added[n] !in Flatten(rest)
      {
        assert added[n] in added;
        RowIsNew(es, rows, k - 1, added[n]);
      }
      NoDuplicatesConcat(Flatten(rest), added);
      assert Flatten(rows[..k]) == Flatten(rest) + added;
    }
  }

  lemma RowIsNew(es: seq<Entry>, rows: seq<Row>, k: nat, e: Entry)
    requires DistinctIds(es) && AreRows(es, rows) && k < |rows| && Member(rows[k], e)
    ensures e !in Flatten(rows[..k])
  {
    FlattenMembers(rows[..k]);
    if Shown(rows[..k], e) {
      var i :| 0 <= i < k && Member(rows[..k][i], e);
      RowsAreDisjoint(es, rows, i, k, e);
    }
  }

  lemma RowIsDistinct(loaded: set<string>, es: seq<Entry>, row: Row)
    requires IsRow(loaded, es, row)
    ensures NoDuplicates([row.entry] + row.replies)
  {
    var all := [row.entry] + row.replies;
    if row.entry.kind.Comment? {
      forall i, j | 0 <= i < j < |all|
        ensures all[i] != all[j]
      {
        assert Nodes(row.entry.id, row.replies)[i] != Nodes(row.entry.id, row.replies)[j];
      }
    }
  }

  /** Conservation: the rows hold, each exactly once, the entries whose parent chain enters no
      cycle. They are as many as the timeline's exactly when no chain does. */
  lemma RowsConserveEntries(es: seq<Entry>, rows: seq<Row>)
    requires DistinctIds(es) && AreRows(es, rows)
    ensures NoDuplicates(Flatten(rows))
    ensures forall e :: e in Flatten(rows) <==> e in es && !EntersCycle(Up(ById(es)), e.id)
    ensures |Flatten(rows)| == |es| <==> forall e :: e in es ==> !EntersCycle(Up(ById(es)), e.id)
  {
    FlattenIsDistinct(es, rows, |rows|);
    assert rows[..|rows|] == rows;
    FlattenMembers(rows);
    forall e
      ensures e in Flatten(rows) <==> e in es && !EntersCycle(Up(ById(es)), e.id)
    {
      if Shown(rows, e) {
        var i :| 0 <= i < |rows| && Member(rows[i], e);
        MemberClimbs(es, rows, i, e);
      }
      if e in es {
        ShownUnlessCyclic(es, rows, e);
      }
    }
    if forall e :: e in es ==> !EntersCycle(Up(ById(es)), e.id) {
      DistinctFit(Flatten(rows), es);
      DistinctFit(es, Flatten(rows));
    } else {
      var lost :| lost in es && EntersCycle(Up(ById(es)), lost.id);
      FitWithout(Flatten(rows), es, lost);
    }
  }

  lemma TwoCycle(up: map<string, string>, x: string, y: string)
    requires x in up && up[x] == y && y in up && up[y] == x
    ensures EntersCycle(up, x)
  {
    assert Climbs(up, x, x, 0) && Reaches(up, x, x);
    assert Climbs(up, y, x, 1) && Climbs(up, x, x, 2) && ProperlyClimbs(up, x, x);
  }

  /** Two comments that are each other's parent: no row shows either of them. */
  lemma MutualParentsAreLost(a: Entry, b: Entry, rows: seq<Row>)
    requires a.kind.Comment? && b.kind.Comment? && a.id != b.id && a.id != "" && b.id != ""
    requires a.parentId == Some(b.id) && b.parentId == Some(a.id) && AreRows([a, b], rows)
    ensures Flatten(rows) == []
  {
    var es := [a, b];
    var up := Up(ById(es));
    assert up[a.id] == b.id && up[b.id] == a.id by {
      assert es[0] in es && es[1] in es;
      ByIdDistinct(es, a);
      ByIdDistinct(es, b);
    }
    TwoCycle(up, a.id, b.id);
    TwoCycle(up, b.id, a.id);
    RowsConserveEntries(es, rows);
    assert forall e :: e in Flatten(rows) ==> e == a || e == b;
  }

  // ----- the order of the rows ----------------------------------------------------------

  ghost predicate HasLoadedParent(es: seq<Entry>, e: Entry) {
    exists p :: p in es && p.kind.Comment? && ChildOf(e, p.id)
  }

  /** The rows' entries are the entries without a loaded parent, each once, in timeline order. */
  lemma RowsFollowTimeline(es: seq<Entry>, rows: seq<Row>)
    requires DistinctIds(es) && AreRows(es, rows)
    ensures Follows(es, Entries(rows)) && NoDuplicates(Entries(rows))
    ensures forall e :: e in Entries(rows) <==> e in es && !(e.kind.Comment? && HasLoadedParent(es, e))
  {
    var loaded := CommentIds(es);
    assert Entries(rows) == TopLevel(loaded, es);
    TopLevelFollows(loaded, es);
    TopLevelMembers(loaded, es);
  }

  /** That settles the order: there is only one such list. */
  lemma RowOrderIsUnique(es: seq<Entry>, rows: seq<Row>, entries: seq<Entry>)
    requires DistinctIds(es) && AreRows(es, rows) && Follows(es, entries) && NoDuplicates(entries)
    requires forall e :: e in entries <==> e in Entries(rows)
    ensures entries == Entries(rows)
  {
    RowsFollowTimeline(es, rows);
    InOrderIsUnique(es, entries, Entries(rows));
  }

  /** Among the replies to `nodes`, `x` belongs before `y`: its parent comes first, or they share
      their parent and `x` comes first in the timeline. */
  ghost predicate RepliesInOrder(es: seq<Entry>, nodes: seq<string>, x: Entry, y: Entry) {
    exists a, b ::
      && 0 <= a <= b < |nodes| && ChildOf(x, nodes[a]) && ChildOf(y, nodes[b])
      && (a == b ==> Precedes(es, x, y))
  }

  lemma {:induction false} AllKidsInOrder(loaded: set<string>, es: seq<Entry>, nodes: seq<string>, i: nat, j: nat)
    requires i < j < |AllKids(loaded, es, nodes)|
    ensures RepliesInOrder(es, nodes, AllKids(loaded, es, nodes)[i], AllKids(loaded, es, nodes)[j])
  {
    var m := |nodes| - 1;
    var front, kids := AllKids(loaded, es, nodes[..m]), Kids(loaded, es, nodes[m]);
    var x, y := (front + kids)[i], (front + kids)[j];
    KidsMembers(loaded, es, nodes[m]);
    if j < |front| {
      AllKidsInOrder(loaded, es, nodes[..m], i, j);
      var a, b :| 0 <= a <= b < m && ChildOf(x, nodes[..m][a]) && ChildOf(y, nodes[..m][b])
        && (a == b ==> Precedes(es, x, y));
      assert ChildOf(x, nodes[a]) && ChildOf(y, nodes[b]);
    } else {
      assert y == kids[j - |front|] && y in kids && ChildOf(y, nodes[m]);
      if i < |front| {
        assert x in front;
        AllKidsMembers(loaded, es, nodes[..m]);
        var a :| 0 <= a < m && nodes[..m][a] == x.parentId.value;
        assert ChildOf(x, nodes[a]);
      } else {
        assert x == kids[i - |front|] && x in kids;
        KidsFollow(loaded, es, nodes[m]);
        assert ChildOf(x, nodes[m]) && Precedes(es, x, y);
      }
    }
  }

  /** The replies of a row are in the order of their parents in the row, and those of one parent in
      timeline order. */
  lemma RepliesFollowParents(loaded: set<string>, es: seq<Entry>, rootId: string, out: seq<Entry>, i: nat, j: nat)
    requires IsExpansion(loaded, es, rootId, out) && i < j < |out|
    ensures RepliesInOrder(es, Nodes(rootId, out), out[i], out[j])
  {
    AllKidsInOrder(loaded, es, Nodes(rootId, out), i, j);
  }

  // ----- deleting and rebuilding ------------------------------------------------------

  /** The rows with the deleted entries struck out. */
  function Prune(rows: seq<Row>, gone: set<string>): seq<Row> {
    if rows == [] then [] else
      var rest := Prune(rows[..|rows| - 1], gone);
      var last := rows[|rows| - 1];
      if last.entry.id in gone then rest else rest + [Row(last.entry, Without(last.replies, gone))]
  }

  lemma CommentIdsWithout(es: seq<Entry>, gone: set<string>)
    ensures CommentIds(Without(es, gone)) == CommentIds(es) - gone
  {
    WithoutMembers(es, gone);
  }

  /** Outside `gone`, an entry is a reply after the delete exactly if it was one before. */
  lemma ReplyStaysReply(es: seq<Entry>, gone: set<string>, e: Entry)
    requires ChildClosed(Elements(es), gone) && e in es && e.id !in gone
    ensures IsReply(CommentIds(es), e) <==> IsReply(CommentIds(es) - gone, e)
  {
    assert e in Elements(es);
  }

  lemma {:induction false} KidsWithout(loaded: set<string>, es: seq<Entry>, all: seq<Entry>, gone: set<string>,
                                       p: string)
    requires ChildClosed(Elements(all), gone) && loaded == CommentIds(all) && forall e :: e in es ==> e in all
    ensures p !in gone ==> Kids(loaded - gone, Without(es, gone), p) == Without(Kids(loaded, es, p), gone)
    ensures p in gone ==> Without(Kids(loaded, es, p), gone) == []
  {
    if es != [] {
      KidsWithout(loaded, es[..|es| - 1], all, gone, p);
      var e := es[|es| - 1];
      assert e in Elements(all);
      if e.id !in gone {
        ReplyStaysReply(all, gone, e);
      }
    }
  }

  function NodesWithout(nodes: seq<string>, gone: set<string>): seq<string> {
    if nodes == [] then [] else
      var rest := NodesWithout(nodes[..|nodes| - 1], gone);
      if nodes[|nodes| - 1] in gone then rest else rest + [nodes[|nodes| - 1]]
  }

  lemma {:induction false} NodesOfWithout(r: string, out: seq<Entry>, gone: set<string>)
    requires r !in gone
    ensures NodesWithout(Nodes(r, out), gone) == Nodes(r, Without(out, gone))
  {
    var nodes := Nodes(r, out);
    if out == [] {
      assert nodes[..0] == [];
    } else {
      NodesOfWithout(r, out[..|out| - 1], gone);
      assert nodes[..|nodes| - 1] == Nodes(r, out[..|out| - 1]);
      NodesConcat(r, Without(out[..|out| - 1], gone), [out[|out| - 1]]);
    }
  }

  lemma {:induction false} AllKidsWithout(es: seq<Entry>, gone: set<string>, nodes: seq<string>)
    requires ChildClosed(Elements(es), gone)
    ensures AllKids(CommentIds(es) - gone, Without(es, gone), NodesWithout(nodes, gone))
         == Without(AllKids(CommentIds(es), es, nodes), gone)
  {
    if nodes != [] {
      var front, last := nodes[..|nodes| - 1], nodes[|nodes| - 1];
      AllKidsWithout(es, gone, front);
      KidsWithout(CommentIds(es), es, es, gone, last);
      WithoutConcat(AllKids(CommentIds(es), es, front), Kids(CommentIds(es), es, last), gone);
      if last !in gone {
        var kept := NodesWithout(nodes, gone);
        assert kept[..|kept| - 1] == NodesWithout(front, gone);
      }
    }
  }

  lemma {:induction false} TopLevelWithout(es: seq<Entry>, all: seq<Entry>, gone: set<string>)
    requires ChildClosed(Elements(all), gone) && forall e :: e in es ==> e in all
    ensures TopLevel(CommentIds(all) - gone, Without(es, gone)) == Without(TopLevel(CommentIds(all), es), gone)
  {
    if es != [] {
      TopLevelWithout(es[..|es| - 1], all, gone);
      var e := es[|es| - 1];
      if e.id !in gone {
        ReplyStaysReply(all, gone, e);
      }
    }
  }

  lemma {:induction false} ParentsFirstWithout(es: seq<Entry>, gone: set<string>, r: string, out: seq<Entry>)
    requires ChildClosed(Elements(es), gone) && r !in gone
    requires ParentsFirst(r, out) && forall e :: e in out ==> e in es
    ensures ParentsFirst(r, Without(out, gone))
  {
    if out != [] {
      var n := |out| - 1;
      var front, last := out[..n], out[n];
      forall i: nat | i < n
        ensures ParentBefore(r, front, i)
      {
        assert ParentBefore(r, out, i);
        assert front[..i] == out[..i];
      }
      ParentsFirstWithout(es, gone, r, front);
      if last.id !in gone {
        assert ParentBefore(r, out, n) && out == front + [last];
        LastParentKept(es, gone, r, front, last);
        var kept := Without(front, gone);
        forall i: nat | i < |kept| + 1
          ensures ParentBefore(r, kept + [last], i)
        {
          assert i < |kept| ==> ParentBefore(r, kept, i);
          assert (kept + [last])[..i] == kept[..i];
        }
      }
    }
  }

  lemma LastParentKept(es: seq<Entry>, gone: set<string>, r: string, front: seq<Entry>, last: Entry)
    requires ChildClosed(Elements(es), gone) && r !in gone && last in es && last.id !in gone
    requires ParentBefore(r, front + [last], |front|)
    ensures HasParent(last) && last.parentId.value in Nodes(r, Without(front, gone))
  {
    assert last in Elements(es);
    assert (front + [last])[..|front|] == front;
    NodesMembers(r, front);
    WithoutMembers(front, gone);
    NodesMembers(r, Without(front, gone));
  }

  lemma ExpansionWithout(es: seq<Entry>, gone: set<string>, r: string, out: seq<Entry>)
    requires ChildClosed(Elements(es), gone) && r !in gone
    requires IsExpansion(CommentIds(es), es, r, out)
    ensures IsExpansion(CommentIds(es) - gone, Without(es, gone), r, Without(out, gone))
  {
    AllKidsWithout(es, gone, Nodes(r, out));
    NodesOfWithout(r, out, gone);
    AllKidsMembers(CommentIds(es), es, Nodes(r, out));
    ParentsFirstWithout(es, gone, r, out);
    NodesDistinctWithout(r, out, gone);
  }

  lemma NodesDistinctWithout(r: string, out: seq<Entry>, gone: set<string>)
    requires NoDuplicates(Nodes(r, out))
    ensures NoDuplicates(Nodes(r, Without(out, gone)))
  {
    var kept := Without(out, gone);
    forall i, j | 0 <= i < j < |out|
      ensures out[i].id != out[j].id
    {
      assert Nodes(r, out)[i + 1] != Nodes(r, out)[j + 1];
    }
    WithoutMembers(out, gone);
    forall k | 0 <= k < |Ids(kept)|
      ensures Ids(kept)[k] !in [r]
    {
      assert kept[k] in kept;
      var j :| 0 <= j < |out| && out[j] == kept[k];
      assert Nodes(r, out)[0] != Nodes(r, out)[j + 1];
    }
    NoDuplicatesConcat([r], Ids(kept));
  }

  /** `p` is what is left of `row`. */
  ghost predicate Remains(row: Row, p: Row, gone: set<string>) {
    row.entry.id !in gone && p == Row(row.entry, Without(row.replies, gone))
  }

  lemma {:induction false} PruneMatches(rows: seq<Row>, tops: seq<Entry>, gone: set<string>)
    requires |rows| == |tops| && forall i :: 0 <= i < |rows| ==> rows[i].entry == tops[i]
    ensures |Prune(rows, gone)| == |Without(tops, gone)|
    ensures forall j :: 0 <= j < |Prune(rows, gone)| ==>
      && Prune(rows, gone)[j].entry == Without(tops, gone)[j]
      && exists i :: 0 <= i < |rows| && Remains(rows[i], Prune(rows, gone)[j], gone)
  {
    if rows != [] {
      var n := |rows| - 1;
      PruneMatches(rows[..n], tops[..n], gone);
      var front := Prune(rows[..n], gone);
      forall j | 0 <= j < |Prune(rows, gone)|
        ensures exists i :: 0 <= i < |rows| && Remains(rows[i], Prune(rows, gone)[j], gone)
      {
        if j < |front| {
          var i :| 0 <= i < n && Remains(rows[..n][i], front[j], gone);
          assert Remains(rows[i], Prune(rows, gone)[j], gone);
        } else {
          assert Remains(rows[n], Prune(rows, gone)[j], gone);
        }
      }
    }
  }

  /** Deleting any child-closed set and rebuilding gives the old rows with the deleted
      entries struck out: nothing moves, nothing is promoted, nothing reappears. */
  lemma RebuildAfterDelete(es: seq<Entry>, gone: set<string>, rows: seq<Row>, rows': seq<Row>)
    requires ChildClosed(Elements(es), gone)
    requires AreRows(es, rows) && AreRows(Without(es, gone), rows')
    ensures rows' == Prune(rows, gone)
  {
    var loaded, es' := CommentIds(es), Without(es, gone);
    CommentIdsWithout(es, gone);
    TopLevelWithout(es, es, gone);
    PruneMatches(rows, TopLevel(loaded, es), gone);
    var pruned := Prune(rows, gone);
    forall j | 0 <= j < |rows'|
      ensures rows'[j] == pruned[j]
    {
      var i :| 0 <= i < |rows| && Remains(rows[i], pruned[j], gone);
      var e := rows[i].entry;
      if e.kind.Comment? {
        ExpansionWithout(es, gone, e.id, rows[i].replies);
        ExpansionIsUnique(loaded - gone, es', e.id, rows'[j].replies, pruned[j].replies);
      } else {
        assert rows[i].replies == [];
      }
    }
  }

  ghost predicate OnlyCommentsHaveParents(es: seq<Entry>) {
    forall e :: e in es && HasParent(e) ==> e.kind.Comment?
  }

  /** Deleting a top-level comment removes its entry and its replies, nothing else. */
  lemma CascadeIsRow(es: seq<Entry>, gone: set<string>, rows: seq<Row>, i: nat)
    requires DistinctIds(es) && OnlyCommentsHaveParents(es) && AreRows(es, rows) && i < |rows|
    requires rows[i].entry.kind.Comment? && IsSubtree(Elements(es), rows[i].entry.id, gone)
    ensures gone == {rows[i].entry.id} + IdSet(rows[i].replies)
  {
    TopLevelMembers(CommentIds(es), es);
    assert rows[i].entry in TopLevel(CommentIds(es), es);
    CascadeIsExpansion(es, gone, rows[i].entry, rows[i].replies);
  }

  lemma CascadeIsExpansion(es: seq<Entry>, gone: set<string>, root: Entry, out: seq<Entry>)
    requires OnlyCommentsHaveParents(es) && root in es && root.kind.Comment?
    requires IsExpansion(CommentIds(es), es, root.id, out)
    requires IsSubtree(Elements(es), root.id, gone)
    ensures gone == {root.id} + IdSet(out)
  {
    RowIsChildClosed(es, root, out);
    assert gone <= {root.id} + IdSet(out);
    assert forall e :: e in out ==> e in es by {
      AllKidsMembers(CommentIds(es), es, Nodes(root.id, out));
    }
    RowIsBelow(es, gone, root.id, out);
  }

  lemma RowIsBelow(es: seq<Entry>, gone: set<string>, r: string, out: seq<Entry>)
    requires ChildClosed(Elements(es), gone) && r in gone
    requires ParentsFirst(r, out) && forall e :: e in out ==> e in es
    ensures {r} + IdSet(out) <= gone
  {
    NodesAllBelow(es, gone, r, out, |out|);
    assert out[..|out|] == out;
    NodesMembers(r, out);
  }

  lemma RowIsChildClosed(es: seq<Entry>, root: Entry, out: seq<Entry>)
    requires OnlyCommentsHaveParents(es) && root in es && root.kind.Comment?
    requires out == AllKids(CommentIds(es), es, Nodes(root.id, out))
    ensures ChildClosed(Elements(es), {root.id} + IdSet(out))
  {
    AllKidsMembers(CommentIds(es), es, Nodes(root.id, out));
    NodesMembers(root.id, out);
  }

  lemma {:induction false} NodesAllBelow(es: seq<Entry>, gone: set<string>, r: string, out: seq<Entry>, k: nat)
    requires ChildClosed(Elements(es), gone) && r in gone && k <= |out|
    requires ParentsFirst(r, out) && forall e :: e in out ==> e in es
    ensures forall x :: x in Nodes(r, out[..k]) ==> x in gone
  {
    if k > 0 {
      NodesAllBelow(es, gone, r, out, k - 1);
      assert ParentBefore(r, out, k - 1);
      assert out[k - 1] in out && out[k - 1] in Elements(es);
      assert out[..k] == out[..k - 1] + [out[k - 1]];
      NodesConcat(r, out[..k - 1], [out[k - 1]]);
    } else {
      assert Nodes(r, out[..0]) == [r];
    }
  }

  lemma {:induction false} WithoutNothing(es: seq<Entry>, gone: set<string>)
    requires forall e :: e in es ==> e.id !in gone
    ensures Without(es, gone) == es
  {
    if es != [] {
      WithoutNothing(es[..|es| - 1], gone);
      SplitLast(es);
    }
  }

  ghost predicate Untouched(row: Row, gone: set<string>) {
    forall e :: Member(row, e) ==> e.id !in gone
  }

  lemma RowUntouched(row: Row, gone: set<string>)
    requires Untouched(row, gone)
    ensures row.entry.id !in gone && Without(row.replies, gone) == row.replies
  {
    assert Member(row, row.entry);
    forall e | e in row.replies
      ensures e.id !in gone
    {
      assert Member(row, e);
    }
    WithoutNothing(row.replies, gone);
  }

  lemma {:induction false} PruneNothing(rows: seq<Row>, gone: set<string>)
    requires forall row :: row in rows ==> Untouched(row, gone)
    ensures Prune(rows, gone) == rows
  {
    if rows != [] {
      var last := rows[|rows| - 1];
      PruneNothing(rows[..|rows| - 1], gone);
      RowUntouched(last, gone);
      SplitLast(rows);
    }
  }

  lemma {:induction false} PruneConcat(a: seq<Row>, b: seq<Row>, gone: set<string>)
    ensures Prune(a + b, gone) == Prune(a, gone) + Prune(b, gone)
  {
    if b == [] {
      assert a + b == a;
    } else {
      assert (a + b)[..|a + b| - 1] == a + b[..|b| - 1];
      PruneConcat(a, b[..|b| - 1], gone);
    }
  }

  lemma PruneOnly(rows: seq<Row>, gone: set<string>, i: nat)
    requires i < |rows| && rows[i].entry.id in gone
    requires forall j :: 0 <= j < |rows| && j != i ==> Untouched(rows[j], gone)
    ensures Prune(rows, gone) == rows[..i] + rows[i + 1..]
  {
    assert rows == rows[..i] + ([rows[i]] + rows[i + 1..]);
    PruneConcat(rows[..i], [rows[i]] + rows[i + 1..], gone);
    PruneConcat([rows[i]], rows[i + 1..], gone);
    PruneNothing(rows[..i], gone);
    PruneNothing(rows[i + 1..], gone);
    assert [rows[i]][..0] == [];
  }

  /** The cascade and the rows agree: deleting a top-level comment and rebuilding gives
      the old list of rows minus exactly that comment's row. */
  lemma DeleteRemovesExactlyOneRow(es: seq<Entry>, gone: set<string>, rows: seq<Row>, rows': seq<Row>, i: nat)
    requires DistinctIds(es) && OnlyCommentsHaveParents(es) && AreRows(es, rows) && i < |rows|
    requires rows[i].entry.kind.Comment? && IsSubtree(Elements(es), rows[i].entry.id, gone)
    requires AreRows(Without(es, gone), rows')
    ensures rows' == rows[..i] + rows[i + 1..]
  {
    RebuildAfterDelete(es, gone, rows, rows');
    CascadeIsRow(es, gone, rows, i);
    forall j | 0 <= j < |rows| && j != i
      ensures Untouched(rows[j], gone)
    {
      RowOutsideCascade(es, gone, rows, i, j);
    }
    PruneOnly(rows, gone, i);
  }

  lemma RowOutsideCascade(es: seq<Entry>, gone: set<string>, rows: seq<Row>, i: nat, j: nat)
    requires DistinctIds(es) && AreRows(es, rows) && i < |rows| && j < |rows| && i != j
    requires gone == {rows[i].entry.id} + IdSet(rows[i].replies)
    ensures Untouched(rows[j], gone)
  {
    forall e | Member(rows[j], e)
      ensures e.id !in gone
    {
      if e.id in gone {
        var other :| Member(rows[i], other) && other.id == e.id;
        MemberClimbs(es, rows, i, other);
        MemberClimbs(es, rows, j, e);
        SameIdSameEntry(es, other, e);
        RowsAreDisjoint(es, rows, i, j, e);
      }
    }
  }
}
